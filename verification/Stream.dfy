/** Reading an exact number of bytes from a stream that delivers them in pieces. */
module Stream {
  import opened Bytes

  function Flat(chunks: seq<seq<byte>>): seq<byte> {
    if chunks == [] then [] else chunks[0] + Flat(chunks[1..])
  }

  function Min(a: nat, b: nat): nat {
    if a < b then a else b
  }

  /** Bytes at hand after the first n waits: each wait brings the next piece, which is empty when
      the wait timed out, and nothing once the pieces are used up. */
  function Supply(available: seq<byte>, chunks: seq<seq<byte>>, waits: nat): nat {
    |available| + |Flat(chunks[..Min(waits, |chunks|)])|
  }

  /** Number of waits within the first n passes of the loop: a pass waits unless bytes are there,
      which can be so only on the first. */
  function Waits(available: seq<byte>, passes: nat): nat {
    if available == [] || passes == 0 then passes else passes - 1
  }

  class Socket {
    var available: seq<byte>
    var chunks: seq<seq<byte>>

    /** Everything the peer has sent and nobody has read. */
    ghost function Unread(): seq<byte>
      reads this
    {
      available + Flat(chunks)
    }

    constructor (chunks: seq<seq<byte>>)
      ensures available == [] && this.chunks == chunks
    {
      this.available, this.chunks := [], chunks;
    }

    method WaitForReadyRead()
      modifies this
      ensures Unread() == old(Unread())
      ensures if old(chunks) == [] then available == old(available) && chunks == []
              else available == old(available) + old(chunks)[0] && chunks == old(chunks)[1..]
    {
      if chunks != [] {
        Assoc(available, chunks[0], Flat(chunks[1..]));
        available, chunks := available + chunks[0], chunks[1..];
      }
    }

    method Read(most: nat) returns (b: seq<byte>)
      modifies `available
      ensures b + available == old(available) && |b| == Min(most, |old(available)|)
      ensures old(Unread()) == b + Unread()
    {
      var n := if most < |available| then most else |available|;
      b := available[..n];
      Assoc(available[..n], available[n..], Flat(chunks));
      available := available[n..];
    }

    /** One pass: waits for the next piece if nothing is there, and takes what is wanted. */
    method WaitAndRead(most: nat) returns (b: seq<byte>)
      modifies this
      ensures old(Unread()) == b + Unread()
      ensures Taken(|old(available)|, old(chunks), most, |b|, |available|, chunks)
    {
      if |available| == 0 {
        WaitForReadyRead();
      }
      b := Read(most);
    }

    /** The pass appended to a result, with what it means for the passes so far. */
    method Extend(before: seq<byte>, length: nat, ghost avail0: seq<byte>, ghost chunks0: seq<seq<byte>>, ghost passes: nat)
      returns (result: seq<byte>)
      requires |before| < length && After(avail0, chunks0, passes, |before|, length, |available|, chunks)
      modifies this
      ensures before + old(Unread()) == result + Unread() && |result| <= length
      ensures After(avail0, chunks0, passes + 1, |result|, length, |available|, chunks)
    {
      ghost var there, pieces := |available|, chunks;
      var b := WaitAndRead(length - |before|);
      PassAfter(avail0, chunks0, passes, |before|, length, there, pieces, |b|, |available|, chunks);
      Assoc(before, b, Unread());
      result := before + b;
    }

    /** Takes the next bytes of the stream, at most as many as wanted, and returns them if they are
        all there in time; after one pass too many it returns nothing, whatever it has taken. */
    method ReadExactBytes(length: int, timeout: nat) returns (result: seq<byte>, ghost taken: seq<byte>, ghost passes: nat)
      modifies this
      ensures old(Unread()) == taken + Unread() && passes <= timeout + 1
      ensures length <= 0 ==> result == taken == [] && passes == 0
      ensures length > 0 ==> |taken| <= length && result == if passes <= timeout then taken else []
      ensures length > 0 && passes <= timeout ==> |taken| == length
      ensures length > 0 ==> (passes <= timeout <==> InTime(old(available), old(chunks), length, timeout))
    {
      result, taken, passes := [], [], 0;
      var iterations := 0;
      if length <= 0 {
        return;
      }
      ghost var avail0, chunks0 := available, chunks;
      while |result| < length
        invariant passes == iterations <= timeout && |result| <= length
        invariant old(Unread()) == result + Unread()
        invariant After(avail0, chunks0, passes, |result|, length, |available|, chunks)
        decreases timeout - iterations
      {
        iterations := iterations + 1;
        if iterations > timeout {
          TooLate(avail0, chunks0, timeout, |result|, length, |available|, chunks);
        }
        result := Extend(result, length, avail0, chunks0, passes);
        passes := passes + 1;
        if iterations > timeout {
          taken := result;
          result := [];
          return;
        }
      }
      taken := result;
      EarlyEnough(avail0, chunks0, passes, timeout, length, |available|, chunks);
    }
  }

  /** Enough bytes have arrived when the last pass that counts begins. */
  ghost predicate InTime(available: seq<byte>, chunks: seq<seq<byte>>, length: nat, timeout: nat) {
    timeout > 0 && Supply(available, chunks, Waits(available, timeout)) >= length
  }

  /** One pass takes from what is there, or from the next piece if nothing is. */
  ghost predicate Taken(there: nat, pieces: seq<seq<byte>>, most: nat, got: nat, left: nat, after: seq<seq<byte>>) {
    var wait := there == 0 && pieces != [];
    var here := if wait then |pieces[0]| else there;
    && after == (if wait then pieces[1..] else pieces)
    && got == Min(most, here) && left == here - got
  }

  /** How far the result is after some passes, and what is left to read. */
  ghost predicate After(available: seq<byte>, chunks: seq<seq<byte>>, passes: nat, got: nat, length: nat,
                        left: nat, pieces: seq<seq<byte>>)
  {
    var supply := Supply(available, chunks, Waits(available, passes));
    if passes == 0 then got == 0 && left == |available| && pieces == chunks
    else
      && got == Min(supply, length)
      && (got < length ==> left == 0 && pieces == chunks[Min(Waits(available, passes), |chunks|)..])
  }

  lemma {:induction false} PassAfter(available: seq<byte>, chunks: seq<seq<byte>>, passes: nat, got: nat, length: nat,
                                     there: nat, pieces: seq<seq<byte>>, more: nat, left: nat, after: seq<seq<byte>>)
    requires got < length && After(available, chunks, passes, got, length, there, pieces)
    requires Taken(there, pieces, length - got, more, left, after)
    ensures After(available, chunks, passes + 1, got + more, length, left, after)
  {
    NextChunk(chunks, Min(Waits(available, passes), |chunks|));
  }

  lemma {:induction false} TooLate(available: seq<byte>, chunks: seq<seq<byte>>, timeout: nat, got: nat, length: nat,
                                   left: nat, pieces: seq<seq<byte>>)
    requires got < length && After(available, chunks, timeout, got, length, left, pieces)
    ensures !InTime(available, chunks, length, timeout)
  {
  }

  lemma {:induction false} EarlyEnough(available: seq<byte>, chunks: seq<seq<byte>>, passes: nat, timeout: nat, length: nat,
                                       left: nat, pieces: seq<seq<byte>>)
    requires 0 < length && passes <= timeout && After(available, chunks, passes, length, length, left, pieces)
    ensures InTime(available, chunks, length, timeout)
  {
    SupplyMono(available, chunks, Waits(available, passes), Waits(available, timeout));
  }

  lemma {:induction false} SupplyMono(available: seq<byte>, chunks: seq<seq<byte>>, a: nat, b: nat)
    requires a <= b
    ensures Supply(available, chunks, a) <= Supply(available, chunks, b)
    decreases b
  {
    if a < b {
      SupplyMono(available, chunks, a, b - 1);
      NextChunk(chunks, Min(b - 1, |chunks|));
    }
  }

  lemma {:induction false} NextChunk(chunks: seq<seq<byte>>, w: nat)
    requires w <= |chunks|
    ensures w < |chunks| ==> Flat(chunks[..w + 1]) == Flat(chunks[..w]) + chunks[w]
    ensures w < |chunks| ==> chunks[w..][0] == chunks[w] && chunks[w..][1..] == chunks[w + 1..]
    decreases w
  {
    if w < |chunks| {
      if w == 0 {
        assert chunks[..1][1..] == [];
      } else {
        NextChunk(chunks[1..], w - 1);
        assert chunks[..w + 1][1..] == chunks[1..][..w] && chunks[..w][1..] == chunks[1..][..w - 1];
      }
    }
  }
}
