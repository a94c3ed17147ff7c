# Verification of SSNFS

SSNFS exports directories of a server to FUSE clients over TLS. This project models, in Dafny
4.11, the parts of it where a fast or stateful form has to keep a simple meaning, and proves that
it does:

- **Key derivation** (`MerkleDamgard`, `Hmac`, `OutputBlocks`, `Pbkdf2`). `fastpbkdf2` keeps two
  prepared hash contexts and one padding block, replaces an HMAC by two raw compressions, and
  accumulates exclusive or on state words. The model has the same contexts and buffers as objects
  and arrays; the result is PBKDF2 of section 5.2 of RFC 8018 over HMAC of section 2 of RFC 2104
  over hashing with the padding of section 5.1 of FIPS 180-4. The compression function is a
  parameter, so the result holds for SHA-1, SHA-256 and SHA-512 alike.
- **Write-back buffer and descriptor table** (`FdTable`, `WriteBack`). The client sends the first
  write on a descriptor at once and buffers later ones; the bytes of a flush are read back by the
  worker, which replays them over its table of fake descriptors. Over every run whose buffered
  paths survive the encoding, the files end up as if each write had been carried out at once.
- **Wire protocol and connection** (`Wire`, `Reading`, `Access`, `LockStep`, `Worker`, `Stream`).
  Every field of every request and reply is read back as written; client and worker stay in lock
  step for every interleaving and fragmentation; the worker reads its own arguments, with time-outs,
  looks up permissions, executes no operation before both handshakes, and comes back from every
  operation except in two cases that are stated exactly.
- **Permissions, paths, modes, shares** (`Permissions`, `Paths`, `Modes`, `Shares`). Resolution of
  permission rows and their upkeep, the in-place path cleaner, the octal-digit loops and the
  grouping of rows in the web panel.

`Bytes` holds numbers, big-endian encoding and exclusive or; `Options` a missing value. Objects
that the source updates in place are classes here, whose methods are proved against specification
functions on values (`State`, `System`, `Saved`, `Layout`, ...); the lemmas are about those.

`dafny verify dfyconfig.toml` checks everything. No member has an assumption of its own; the
parameters of the model are the compression function and initial value of a hash (`Hash.compress`,
`Hash.iv`), the outcomes of system calls (`OpenOutcome`, `WriteOutcome`, `CloseOutcome`), of
exchanges (`Net`), the tables (`Worker.Input`, `World`), what the file system says of a path
(`Facts`), and what the branches of operations reply (`Answer`).

## Findings

Where the code does not do what one would expect, the model follows the code and a lemma states
exactly when it does.

- `fastpbkdf2.c:230` casts to 32 bits before dividing: an output longer than 2^32 - digest size
  bytes is left partly unwritten (`Layout.MeetsStandardIff`, `HugeOutputUntouched`).
- `ssnfsworker.cpp:373-392`: the loop that reads the list of local users ends only at its end
  mark, and a read that fails counts as a length of 0. A client that goes away before it has sent
  the mark leaves the worker in that loop for ever (`LoopEndsIff`, `NonFatalReturns`,
  `ClientGoneDuringUpdate`).
- `ssnfsworker.cpp:760-764`: the reply to readlink gives the length of the target in characters and
  the target in bytes. A target that is not ASCII leaves bytes in the stream, and the next call
  takes one for its acknowledgement (`LinkReplyIff`, `ReadlinkSettlesIff`, `AccentedLinkBreaks`).
- `fuseclient.cpp:1296`: a bulk request counts the path in characters too. It is carried out as
  asked exactly when all its paths are ASCII and shorter than 65536 (`BulkAsAskedIff`); the second
  write to a file named `é` is lost and the connection is out of step (`AccentedNameLost`).
- `ssnfsworker.cpp:1256-1271`: for a link in `/proc/self/fd` Linux reports a length of 64 whatever
  it points to, so for every file whose full path is longer than 64 bytes a write fails with -1 and
  a release fails with -1 without closing it (`LongLinksFailIff`).
- `ssnfsworker.cpp:1396` reads an unknown fake descriptor as 0. A release then can close a file
  behind the table's back, exactly where descriptor 0 is mapped (`State.ReleaseKeepsFdInvIff`).
  That never happens while descriptor 0 stays outside the share (`RunKeepsFdInv`); it can happen in
  a server whose standard input is a file of the share (`StdinInShareBreaksSharing`).
- `ssnfsworker.cpp:167`: `getPerms` recurses for ever for a path that does not start with `/` and is
  neither listed nor below a listed one (`EndsIff`, `TerminatesIff`). A client that sends such a path
  to one of the fifteen operations that look up permissions can keep the worker in it for ever
  (`EndlessIff`, `NonFatalReturns`, `GoesOnIff`; a getattr of `x`: `RelativePathNeverReturns`).
- `fuseclient.cpp:1308-1315`: a flush whose connection is cut off behind the acknowledgement reads a
  result of 0 and empties the buffer. Exactly then accepted bytes are neither answered nor still
  buffered (`NothingLostIff`), and the write that flushes reports success
  (`LostWriteReportsSuccess`).
- Unlink and rename update permission rows by path alone, so rows of other shares with the same
  path change too (`UnlinkFallsBack` is for every asker).
- A renamed file without a row of its own takes the permissions of its new directory
  (`RenameCarriesIff`).
- `ssnfsworker.cpp:818` stores the unsigned NewFileMode in an int before it compares it with 777. A
  setting from 2147483648 on is not refused for its size and can change the type of the file: with
  4294877296 a regular file is created as a FIFO (`Creation`, `HugeSettingMakesFifo`).
- `resolveRelative` never removes the first component: `/a/..` is cleaned to `/a`
  (`FirstComponentStays`).
- A 16-bit path length wraps at 65536 bytes (`ShortStringIff`).
- A directory listing that the filler stops early leaves its other entries in the stream
  (`StoppedListingLeaves`).
- With one file open twice a direct write overtakes a buffered one (`TwoDescriptorsOneFile`).
- `md_pad` stores a 32-bit length (`ShortTailIsPadding` says when that is enough).

## Model

| member | source | states |
|---|---|---|
| Bytes.SwapFormAgrees | fastpbkdf2/fastpbkdf2.c:34-54 | storing the byte-swapped number on a little-endian machine gives the same bytes as the shift form, for every width |
| Bytes.BigEndianXor | fastpbkdf2/fastpbkdf2.c:262-269 | writing the exclusive or of two words is the byte-wise exclusive or of the written words, for every width |
| Bytes.XorBit | fastpbkdf2/fastpbkdf2.c:307-317 | the exclusive or sets exactly the bits in which the operands differ |
| MerkleDamgard.Hash.PaddingFillsBlock | fastpbkdf2/fastpbkdf2.c:63-73 | the standard padding ends on a block boundary and uses the fewest zero bytes that do |
| MerkleDamgard.Hash.AbsorbConcat | fastpbkdf2/fastpbkdf2.c:93-96 | hashing in pieces, with the unfinished block kept aside, equals hashing the concatenation |
| MerkleDamgard.Hash.EncodeWord | fastpbkdf2/fastpbkdf2.c:244-260 | the i-th word stands at its place in the digest, most significant byte first |
| MerkleDamgard.Hash.EncodeXor | fastpbkdf2/fastpbkdf2.c:244-269 | extracting combined state words equals combining the extracted digests |
| Hmac.HashContext.Update | fastpbkdf2/fastpbkdf2.c:93-94 | the context then holds the old message followed by the data |
| Hmac.HashContext.Final | fastpbkdf2/fastpbkdf2.c:95-96 | returns the digest of the message held, and the chaining words left behind encode it |
| Hmac.HashContext.Extract | fastpbkdf2/fastpbkdf2.c:244-251 | the front of the buffer becomes the encoded words, the rest stays |
| Hmac.HashContext.XorWith | fastpbkdf2/fastpbkdf2.c:262-269 | the words become the word-wise exclusive or, and stay a chaining value |
| Hmac.PrepareKey | fastpbkdf2/fastpbkdf2.c:118-139 | the buffer holds the key shortened by hashing if longer than a block and padded with zeros |
| Hmac.XorKey | fastpbkdf2/fastpbkdf2.c:141-149 | the two blocks are the key under the inner and the outer pad |
| Hmac.KeyBytes | fastpbkdf2/fastpbkdf2.c:118-149 | the bytes of the two key blocks, for short keys and for keys longer than a block |
| Hmac.HmacContext.constructor | fastpbkdf2/fastpbkdf2.c:115-157 | the contexts hold the inner and outer key blocks of RFC 2104 for keys of any length |
| Hmac.HmacContext.Update | fastpbkdf2/fastpbkdf2.c:159-163 | extends the message of the inner context only |
| Hmac.HmacContext.Final | fastpbkdf2/fastpbkdf2.c:165-171 | writes HMAC of key and message, leaves the rest of the block, and the outer words encode the code |
| Pbkdf2.MdPad | fastpbkdf2/fastpbkdf2.c:67-73 | the bytes behind the used ones become the mark, zeros and a 32-bit length |
| Pbkdf2.ShortTailIsPadding | fastpbkdf2/fastpbkdf2.c:63-73 | those bytes are the standard padding if and only if the full length field fits in the block and the bit length fits in 32 bits |
| Pbkdf2.OneCompression | fastpbkdf2/fastpbkdf2.c:184-210 | hashing a key block and a digest is one compression of the digest and its padding from the saved state |
| Pbkdf2.Saved.StepIsMac | fastpbkdf2/fastpbkdf2.c:202-209 | two raw compressions from the saved states are one full HMAC |
| Pbkdf2.Saved.FastIsT | fastpbkdf2/fastpbkdf2.c:195-214 | after c passes the block holds U_c and the accumulated words encode U_1 xor ... xor U_c |
| Pbkdf2.HalfPass | fastpbkdf2/fastpbkdf2.c:203-205 | the block becomes the encoding of one compression from the saved state, its padding unchanged |
| Pbkdf2.Passes | fastpbkdf2/fastpbkdf2.c:200-211 | the loop leaves the accumulated words of all iterations and does not disturb the saved contexts |
| Pbkdf2.FirstU | fastpbkdf2/fastpbkdf2.c:181-195 | the block holds U_1 and the padding, and the outer words encode U_1 |
| Pbkdf2.BlockF | fastpbkdf2/fastpbkdf2.c:175-215 | the output is T_i of RFC 8018 for every password, salt, counter and iteration count |
| Pbkdf2.OutputBlock | fastpbkdf2/fastpbkdf2.c:233-241 | stores T_counter, cut to the buffer, at its offset and nothing else |
| Pbkdf2.Derive | fastpbkdf2/fastpbkdf2.c:217-242 | the part of the buffer that the block count reaches is the derived key, the rest is untouched |
| Pbkdf2.InstancesValid | fastpbkdf2/fastpbkdf2.c:271-281 | the sizes of SHA-1, SHA-256 and SHA-512 meet every demand of the theorems |
| OutputBlocks.Layout.ConcatByte | fastpbkdf2/fastpbkdf2.c:238-240 | byte r of block c of the key is byte r of T_c |
| OutputBlocks.Layout.BlockInBounds | fastpbkdf2/fastpbkdf2.c:230-240 | every block starts inside the buffer and its 32-bit offset does not wrap |
| OutputBlocks.Layout.StoreBlockByte | fastpbkdf2/fastpbkdf2.c:238-240 | one store changes exactly the bytes of its own block |
| OutputBlocks.Layout.AnyOrder | fastpbkdf2/fastpbkdf2.c:232-241 | running the counters in any order, as the parallel loop may, leaves the same buffer |
| OutputBlocks.Layout.CoversAll | fastpbkdf2/fastpbkdf2.c:230 | the blocks reach the whole buffer if and only if it has at most 2^32 - digest size bytes |
| OutputBlocks.Layout.MeetsStandardIff | fastpbkdf2/fastpbkdf2.c:229-241 | the result is the derived key for every previous buffer if and only if that holds |
| OutputBlocks.HugeOutputUntouched | fastpbkdf2/fastpbkdf2.c:230 | a 2^32-byte buffer with 64-byte digests is not written at all |
| OutputBlocks.StoreAt | fastpbkdf2/fastpbkdf2.c:238-240 | the copy with 32-bit offset arithmetic stores the block at its place |
| OutputBlocks.CountBlocks | fastpbkdf2/fastpbkdf2.c:230 | the number of blocks with the sum cast to 32 bits first |
| FdTable.PwriteAppend | SSNFS-client/fuseclient.cpp:1246-1250 | two consecutive writes are one write of both pieces, also over holes and with empty data |
| FdTable.PwriteByte | SSNFSd/ssnfsworker.cpp:1274 | which byte of the file is written, kept or zero after a write at any offset |
| FdTable.FirstFreeIsLeast | SSNFSd/ssnfsworker.cpp:594-600 | the search finds the least free number or there is none |
| FdTable.FirstFreeSoon | SSNFSd/ssnfsworker.cpp:594-600 | a free number exists among 1 to the table size plus one |
| FdTable.FileWorker.SmallestFree | SSNFSd/ssnfsworker.cpp:594-602 | the loop returns the least positive number that is not a key |
| FdTable.FileWorker.Open | SSNFSd/ssnfsworker.cpp:589-609 | the whole new state and result, including a refused open and a full table |
| FdTable.State.OpenAnswers | SSNFSd/ssnfsworker.cpp:589-609 | an open answers the least positive number not in use, which then names the file just opened, and an error exactly when it was refused or every number is in use |
| FdTable.FileWorker.CheckFd | SSNFSd/ssnfsworker.cpp:1249-1283 | the descriptor is looked up, an unknown one as 0; the errors for one that is not open, for a link longer than 64 bytes and for another path |
| FdTable.FileWorker.Write | SSNFSd/ssnfsworker.cpp:1248-1285 | the write goes to the file of the descriptor only if the check passes; short writes and errors of the kernel are passed on |
| FdTable.State.WriteAnswers | SSNFSd/ssnfsworker.cpp:1248-1285 | a write through a descriptor in use changes the file of that descriptor, only under its path, by exactly the bytes the kernel took, and what it answers in every case |
| FdTable.State.NegativeRefused | SSNFSd/ssnfsworker.cpp:1274-1278 | a negative size or offset writes nothing and is an error |
| FdTable.FileWorker.WriteBulk | SSNFSd/ssnfsworker.cpp:1302-1374 | all requests in order, each with its own outcome, an error does not stop the rest, the last error is the result |
| FdTable.State.BulkAnswers | SSNFSd/ssnfsworker.cpp:1302-1374 | the result is the last error of the requests, each carried out after those before it, or 0 |
| FdTable.FileWorker.Release | SSNFSd/ssnfsworker.cpp:1394-1432 | the mapping goes even if the check or the close failed |
| FdTable.State.ReleaseAnswers | SSNFSd/ssnfsworker.cpp:1394-1432 | the number of a descriptor in use is free afterwards in any case, when exactly its file is closed, and what is answered |
| FdTable.State.UnknownIsZero | SSNFSd/ssnfsworker.cpp:1396-1428 | a number not in use is taken for descriptor 0 |
| FdTable.State.LongLinksFailIff | SSNFSd/ssnfsworker.cpp:1256-1271 | a descriptor in use passes the check with its own path if and only if the full path has at most 64 bytes; else write and release fail with -1 and the file stays open |
| FdTable.State.OpenKeepsFdInv | SSNFSd/ssnfsworker.cpp:589-607 | after an open keys are positive, real descriptors are open and none is shared |
| FdTable.State.ReleaseKeepsFdInvIff | SSNFSd/ssnfsworker.cpp:1394-1432 | a release keeps that if and only if it does not close a mapped descriptor 0 for an unknown fake one |
| FdTable.RunKeepsFdInv | SSNFSd/ssnfsworker.cpp:589-607 | over every run no two live fake descriptors share a real one, if descriptor 0 is open and outside the share |
| FdTable.StdinInShareBreaksSharing | SSNFSd/ssnfsworker.cpp:1396-1432 | a run of a server with standard input from a file of the share, after which two fake descriptors share a real one |
| WriteBack.FuseClient.FsWrite | SSNFS-client/fuseclient.cpp:1180-1272 | first write direct, later ones buffered or joined, flush above the limit, whole new state and result, also for an exchange that is cut off |
| WriteBack.System.BufferedWriteAnswers | SSNFS-client/fuseclient.cpp:1245-1271 | a buffered write answers its size if and only if no flush was due, or the flush was answered 0 or cut off; else the error, with the bytes still buffered where the flush did not reach the worker |
| WriteBack.System.DirectWriteAnswers | SSNFS-client/fuseclient.cpp:1181-1244 | what a direct write answers and does in each case of its exchange |
| WriteBack.FuseClient.Enqueue | SSNFS-client/fuseclient.cpp:1246-1260 | joins a write that continues the last request of its descriptor, else adds a request |
| WriteBack.FuseClient.WriteBuffer | SSNFS-client/fuseclient.cpp:1274-1316 | an acknowledged flush replays what the worker reads of its bytes, as far as it gets, and empties the buffer even if the answer is cut off; a failed one keeps it |
| WriteBack.System.FlushAnswers | SSNFS-client/fuseclient.cpp:1274-1316 | what a flush answers, and that it keeps the buffer exactly where it does not reach the worker |
| WriteBack.FuseClient.SendBuffer | SSNFS-client/fuseclient.cpp:1290-1306 | the loop writes exactly the encoding of the buffer |
| WriteBack.BulkAsAskedIff | SSNFS-client/fuseclient.cpp:1290-1306 | the worker reads a bulk request as it was asked, leaving no byte, if and only if all paths are ASCII and shorter than 65536 |
| WriteBack.FuseClient.FsRelease | SSNFS-client/fuseclient.cpp:1318-1353 | flushes before it releases and drops the result of the flush |
| WriteBack.System.ReleaseAnswers | SSNFS-client/fuseclient.cpp:1318-1353 | what a release answers and does in each case of its flush and its exchange |
| WriteBack.System.FlushSettles | SSNFS-client/fuseclient.cpp:1274-1316 | in every joint state, whose buffered paths are ASCII, a flush succeeds and settles the files |
| WriteBack.System.DirectWriteCommutes | SSNFS-client/fuseclient.cpp:1180-1244 | a direct first write never overtakes a buffered write on its file |
| WriteBack.System.EnqueueSettles | SSNFS-client/fuseclient.cpp:1246-1260 | a buffered or joined write settles as if written last |
| WriteBack.System.OpenSettles | SSNFSd/ssnfsworker.cpp:589-607 | creating or truncating a file that is not open commutes with the buffer |
| WriteBack.System.OpenIsLive | SSNFS-client/fuseclient.cpp:623-630 | an open answers a handle exactly when the worker opened the file and had a number left; the handle can then be written under its path |
| WriteBack.StartIsJoint | SSNFS-client/fuseclient.h:40-46 | a client that has just started and a worker with an empty table satisfy the joint invariant |
| WriteBack.RunRefines | SSNFS-client/fuseclient.cpp:1161-1353 | over every allowed run the joint invariant of client and worker holds, and the buffer applied to the files is in-order writing |
| WriteBack.BufferRefinesDirect | SSNFS-client/fuseclient.cpp:1161-1316 | over every allowed run the files after a flush are those of in-order writing, and every buffered request is live and maps to its file |
| WriteBack.TwoDescriptorsOneFile | SSNFS-client/fuseclient.cpp:1180-1182 | with a file open twice the buffered result differs from in-order writing |
| WriteBack.AccentedNameLost | SSNFS-client/fuseclient.cpp:1296-1305 | with a path that is not ASCII the buffered write is lost, the flush reports an error and two bytes stay in the stream |
| WriteBack.RunBalances | SSNFS-client/fuseclient.cpp:1246-1313 | in every run, whatever connections fail or are cut off and whatever worker comes next: sizes are data lengths, the counter is their sum, accepted bytes are answered, lost with an answer or still there, and the limit holds unless the last flush failed |
| WriteBack.NothingLostIff | SSNFS-client/fuseclient.cpp:1274-1316 | accepted bytes are those answered and those still buffered if and only if no flush of buffered bytes was cut off behind its acknowledgement |
| WriteBack.LostWriteReportsSuccess | SSNFS-client/fuseclient.cpp:1264-1267 | a write whose flush is cut off before anything is carried out reports success, and its bytes are nowhere |
| WriteBack.Ledger.Follows | SSNFS-client/fuseclient.cpp:1245-1270 | the ledger's client is the client of the calls |
| Wire.I32RoundTrip | Common/common.h:101-116 | a signed 32-bit number is decoded as encoded |
| Wire.I64RoundTrip | Common/common.h:133-156 | a signed 64-bit number is decoded as encoded |
| Wire.SignedLayout | Common/common.h:101-156 | signed numbers are written in two's complement, most significant byte first |
| Wire.ItemLayout | SSNFS-client/fuseclient.cpp:1296-1305 | where the fields of a buffered request stand |
| Wire.Utf8UnitIs | SSNFS-client/fuseclient.cpp:1297 | the bytes of a character give back its bits |
| Wire.UnsignedRoundTripIff | Common/common.h:89-132 | an unsigned number is decoded as encoded if and only if it fits the field |
| Wire.TakeUsersAppended | SSNFS-client/fuseclient.cpp:471-483 | the list of local users ending in -1 is decoded exactly, leaving the rest of the stream |
| Wire.BulkPathLengthIff | SSNFS-client/fuseclient.cpp:1296-1297 | the length sent with a buffered path is that of its bytes if and only if the path is ASCII |
| Wire.ShortStringIff | SSNFS-client/fuseclient.cpp:574-575 | a path with a 16-bit length is read back if and only if it is shorter than 65536 bytes |
| Wire.LinkReplyIff | SSNFSd/ssnfsworker.cpp:760-764 | the client reads the target of a link back if and only if it is ASCII, and which bytes it leaves otherwise |
| Wire.StoppedListingLeaves | SSNFS-client/fuseclient.cpp:578-586 | reading some entries of a listing leaves exactly the others, and nothing only after all of them |
| Wire.GetPut | SSNFSd/ssnfsworker.cpp:1297-1324 | every sound field is read back as written and not a byte more is taken |
| Wire.NoEarlyRead | Common/common.h:234-257 | a side that has only part of a message waits, and with all of it reads exactly the values sent |
| Reading.LoopEndsIff | SSNFSd/ssnfsworker.cpp:373-392 | the loop over local users ends if and only if the list with its end mark is in the stream, and then has read exactly that list |
| Reading.FieldsAgree | Common/common.h:234-257 | with the bytes at hand, reads with a time-out take exactly the bytes of the fields and find the same values |
| Reading.NothingReadsZero | Common/common.h:101-180 | where nothing comes numbers are 0 and texts empty |
| Reading.ItemsKeptIff | SSNFSd/ssnfsworker.cpp:1304-1326 | buffered requests are read with the paths that were written if and only if each length field gives the bytes of its path |
| Access.EndlessIff | SSNFSd/ssnfsworker.cpp:427-1199 | the branch of an operation hangs if and only if a path whose permissions it looks up is not absolute and neither listed nor below a listed one |
| Access.LookedUp | SSNFSd/ssnfsworker.cpp:427-1199 | which of file and directory each operation looks up |
| Access.OpenLooksUp | SSNFSd/ssnfsworker.cpp:544-561 | an open looks up the directory of a file it would create, and the file only if the directory may be written |
| Access.DirectoryIs | SSNFSd/ssnfsworker.cpp:545 | the directory is what is before the last slash, or the path itself |
| Access.AbsoluteEnds | SSNFSd/ssnfsworker.cpp:427-1199 | for requests with absolute paths, except for the target of a symbolic link, all lookups end |
| LockStep.SameLayout | SSNFSd/ssnfsworker.cpp:397-1479 | for each of the 21 operations the worker reads the fields the client writes, and its reply has the fields the client reads |
| LockStep.ResultCodes | Common/common.h:191-199 | which result codes stand for themselves |
| LockStep.StepStaysInStep | SSNFS-client/fuseclient.cpp:506-1390 | each step of either side, or of the network, keeps the streams equal to the message of the phase, if link targets are ASCII |
| LockStep.LockStepAlways | SSNFSd/ssnfsworker.cpp:351-1486 | from a fresh connection, over every interleaving and fragmentation with ASCII link targets, between calls both streams are empty and the worker has executed exactly the calls made |
| LockStep.ReadlinkSettlesIff | SSNFSd/ssnfsworker.cpp:760-764 | a readlink leaves both streams empty if and only if the target is ASCII, and which bytes are left otherwise |
| LockStep.AccentedLinkBreaks | SSNFS-client/fuseclient.cpp:763-766 | after the target U+00E9 the next call, whatever it is, gives up on a wrong acknowledgement |
| LockStep.GoesOnIff | SSNFSd/ssnfsworker.cpp:351-1486 | a call that has started can go on if and only if the worker does not hang in a lookup of its arguments |
| LockStep.NeverStuck | SSNFSd/ssnfsworker.cpp:351-1486 | a call whose paths are absolute can always go on, whatever the permission rows and the file system |
| Worker.SSNFSWorker.ReadyToRead | SSNFSd/ssnfsworker.cpp:173-371 | one call takes the step of the state machine, whatever bytes arrived |
| Worker.SSNFSWorker.Hello | SSNFSd/ssnfsworker.cpp:179-290 | greeting is accepted only with a known certificate and the system info on record, each refusal as in the source |
| Worker.HelloByBytes | SSNFSd/ssnfsworker.cpp:193-290 | what becomes of any bytes that start with a greeting: accepted, refused with a reason or closed |
| Worker.HelloWithoutGreeting | SSNFSd/ssnfsworker.cpp:178-226 | any other bytes close the connection without a word, except those of a registration |
| Worker.SSNFSWorker.Share | SSNFSd/ssnfsworker.cpp:292-349 | a share is accepted only if it belongs to the user |
| Worker.ShareByBytes | SSNFSd/ssnfsworker.cpp:303-349 | what becomes of any bytes that start with the name of a share |
| Worker.ShareWithoutName | SSNFSd/ssnfsworker.cpp:295-312 | any other bytes close the connection without a word |
| Worker.OperationByBytes | SSNFSd/ssnfsworker.cpp:351-367 | an operation is accepted if and only if two bytes are there that give 1 to 21, and which; else the connection is closed and nothing written |
| Worker.SSNFSWorker.ReadBytes | Common/common.h:234-257 | exactly n bytes, or nothing with the partial bytes used up |
| Worker.SSNFSWorker.ReadUsers | SSNFSd/ssnfsworker.cpp:373-392 | where the end mark comes, the loop returns exactly the list and leaves what follows |
| Worker.SSNFSWorker.ReadArguments | SSNFSd/ssnfsworker.cpp:397-1394 | the arguments of an operation, field by field, with zeros and nothing for what does not come in time |
| Worker.State.WorkingAbsorbs | SSNFSd/ssnfsworker.cpp:175-176 | once `working` is left set nothing changes any more |
| Worker.State.NonFatalReturns | SSNFSd/ssnfsworker.cpp:369-1483 | from InOperation a call returns to WaitingForOperation with `working` cleared if and only if the list of an update of the local users comes with its end mark, or all paths that another operation looks up resolve |
| Worker.State.UpdateWithoutMark | SSNFSd/ssnfsworker.cpp:373-392 | an update of the local users without its end mark uses up the stream and is never left |
| Worker.State.WorkingMeansClosed | SSNFSd/ssnfsworker.cpp:292-367 | while a share or an operation is awaited `working` stays set if and only if the connection was closed, and a call that leaves it set lets nothing through |
| Worker.State.ClientGoneDuringUpdate | SSNFSd/ssnfsworker.cpp:373-392 | with nothing to read that operation is never left |
| Worker.State.RelativePathNeverReturns | SSNFSd/ssnfsworker.cpp:404-427 | a getattr of `x` with no permission row is never left |
| Worker.RunOrdered | SSNFSd/ssnfsworker.cpp:173-371 | over every run what was let through is ordered and vouched for by the tables |
| Worker.ExecutedOnlyAfterHandshakes | SSNFSd/ssnfsworker.cpp:178-371 | an operation runs only after a greeting with certificate and system info on record, then a share of that user, then its code in 1..21, with unchanged keys |
| Worker.AcceptedByBytes | SSNFSd/ssnfsworker.cpp:351-367 | over every run each accepted operation stands for its two bytes, read by the call that accepted it |
| Worker.AcknowledgesInStep | SSNFSd/ssnfsworker.cpp:351-367 | with the code at hand the worker's call is the acknowledging step of the lock-step connection |
| Worker.ExecutesInStep | SSNFSd/ssnfsworker.cpp:369-1483 | with the arguments at hand the worker takes exactly the bytes of the arguments the client sent, executes with those, and leaves what follows: the executing step of the lock-step connection |
| Worker.RunMirrors | SSNFSd/ssnfsworker.cpp:351-1486 | over every interleaving and fragmentation of a lock-step connection the calls of ReadyToRead read, execute in order and answer exactly the requests of the client |
| Worker.HandshakeOpens | SSNFS-client/fuseclient.cpp:331-443 | the handshake that the client writes opens the connection if and only if the certificate is known with the system info and the share is granted; the client then reads the other side to the end, and connection and worker start in step |
| Stream.Socket.ReadExactBytes | Common/common.h:234-257 | exactly the next bytes for every fragmentation, or nothing after timeout + 1 passes; it succeeds if and only if enough arrives in time |
| Permissions.TerminatesIff | SSNFSd/ssnfsworker.cpp:141-171 | the lookup ends for every table if and only if the path is empty or starts with `/` |
| Permissions.ApplicableGrants | SSNFSd/ssnfsworker.cpp:148-170 | the query answers for a path exactly when a row of it is for the asker or for everybody, with a row of the asker before one for everybody |
| Permissions.ChainStep | SSNFSd/ssnfsworker.cpp:142-167 | each step of the lookup goes from a path to what is before its last slash |
| Permissions.ResolvesToNearest | SSNFSd/ssnfsworker.cpp:141-171 | for every path the answer is the permissions of a row, given by its share, user, path and uid, of the first listed path on its chain of ancestors, else the default for an absolute path, and no answer only for one that is not absolute |
| Permissions.EndsIff | SSNFSd/ssnfsworker.cpp:141-171 | over one table a lookup ends if and only if the path is empty or absolute, or has a listed path on its chain |
| Permissions.OffChainIgnored | SSNFSd/ssnfsworker.cpp:141-171 | rows off the chain never matter, for any path |
| Permissions.OnlyChainRows | SSNFSd/ssnfsworker.cpp:141-171 | the table without the rows off the chain gives the same answer |
| Permissions.ChainIsAbove | SSNFSd/ssnfsworker.cpp:142-167 | the chain of a path without empty components is the path and exactly the directories above it, but not the root |
| Permissions.UnlinkFallsBack | SSNFSd/ssnfsworker.cpp:908-923 | after an unlink the path resolves as its parent, for every share |
| Permissions.UnlinkLeavesOthers | SSNFSd/ssnfsworker.cpp:908-923 | no path outside the removed subtree changes |
| Permissions.RenameCarriesIff | SSNFSd/ssnfsworker.cpp:1044-1061 | the new path has the old permissions if and only if the old one had a row or the two parent directories resolved alike before |
| Permissions.RenameFallsBack | SSNFSd/ssnfsworker.cpp:1044-1061 | the old path then resolves as its parent directory |
| Permissions.RenameLeavesOthers | SSNFSd/ssnfsworker.cpp:1044-1061 | no path outside the two subtrees changes |
| Paths.ResolveRelative | Common/common.h:208-232 | the in-place loop terminates, stays in bounds and equals a one-pass fold with a stack |
| Paths.FoldStep | Common/common.h:210-227 | a pass with its index stepping back keeps the fold of the rest over the part done |
| Paths.CleanedShape | Common/common.h:208-232 | the result is absolute and its components are the stack, none empty, `.` or `..` |
| Paths.CleanedIs | Common/common.h:208-232 | for any path the result is a slash and the components of the stack, less white space at the end |
| Paths.TrimmedIs | Common/common.h:231 | exactly the white space at both ends is taken off |
| Paths.DotsIgnored | Common/common.h:211-223 | a dot and an empty component change nothing wherever they stand |
| Paths.DotDotCancels | Common/common.h:214-219 | two dots take away the component before them wherever the two stand below the first component |
| Paths.Idempotent | Common/common.h:208-232 | cleaning twice is cleaning once |
| Paths.FirstComponentStays | Common/common.h:214-219 | `..` below the root never removes the first component |
| Modes.ReadShown | SSNFSd/ssnfsworker.cpp:418-442 | reading back the octal digits gives the mode |
| Modes.ShownRead | SSNFSd/ssnfsworker.cpp:803-830 | showing what octal digits mean gives the digits |
| Modes.ReplaceThreeDigits | SSNFSd/ssnfsworker.cpp:435-442 | replacing the last three digits replaces exactly the low nine bits |
| Modes.ShowMode | SSNFSd/ssnfsworker.cpp:418-423 | the first loop computes the octal digits as a decimal number |
| Modes.ReadMode | SSNFSd/ssnfsworker.cpp:437-442 | the second loop is its inverse |
| Modes.ThreeDigitsRead | SSNFSd/ssnfsworker.cpp:823-830 | three octal digits stand for nine bits |
| Modes.ReportedMode | SSNFSd/ssnfsworker.cpp:415-445 | below 8^7 the owner's three bits are the permissions found, group and others have none, and everything above the low nine bits is kept; from there on the mode itself |
| Modes.CreatedMode | SSNFSd/ssnfsworker.cpp:800-846 | the method computes what mknod creates or why it refuses: the number, the setting or the type of file |
| Modes.CreationIs | SSNFSd/ssnfsworker.cpp:810-846 | exactly when each refusal comes, and which bits of the new mode make a FIFO, a node or a refusal |
| Modes.SettingKeepsType | SSNFSd/ssnfsworker.cpp:810-840 | with a setting of at most 777 exactly the low nine bits are replaced, and FIFOs, regular files and sockets are made while every other type is refused |
| Modes.HugeSettingMakesFifo | SSNFSd/ssnfsworker.cpp:818-835 | with the setting 2^32 - 90000 a regular file of mode 0100644 is created as a FIFO |
| Shares.GetShares | SSNFSd/ssnfswebworker.cpp:464-522 | the loop lists one entry per run of rows, with every user and no group lost |
| Shares.FlattenGroup | SSNFSd/ssnfswebworker.cpp:464-522 | flattening the entries gives the rows back in order |
| Shares.OneEntryPerShare | SSNFSd/ssnfswebworker.cpp:464-522 | for contiguous rows exactly the shares of the rows are listed, each once |

## Left out

- The compression functions of the hashes and the buffering inside OpenSSL: not in the repository; a context holds chaining words, pending bytes and a count.
- The length field of the padding is taken modulo its width, so messages of 2^61 bytes and more, for which FIPS 180-4 defines nothing, have some digest too.
- TLS, sockets, retries and sleeps, and the retry loop of `initSocket`: a connection delivers bytes in pieces, and an exchange is answered, fails before its acknowledgement or is cut off behind it (`Net`).
- WriteBack.BufferRefinesDirect: full writes, no connection failure, each write under the path its descriptor was opened with, no file open twice and none under two names (hard links), full paths of at most 64 bytes where they are written and ASCII paths where they are buffered; reads, truncations and renames of files with buffered writes are not ordered by the code and not covered.
- WriteBack.FuseClient.WriteBuffer: what the worker makes of bytes that a misread flush has left is not followed; every later exchange counts as failed. A worker that is cut off has carried out some of the requests in full. Requests other than writebulk reach the worker as asked.
- FdTable.FileWorker.Write: a size beyond 2^31, of which the worker reads only the low 32 bits, and links that differ from the path because of symbolic links.
- `fs_write` without an open file.
- LockStep.LockStepAlways: link targets and buffered paths are ASCII, paths are shorter than 65536 bytes, the directory filler accepts every entry, and the local user file can be read; the handshake is in Worker.HandshakeOpens, before the connection.
- Worker.SSNFSWorker.ReadyToRead: what the file system says of a path and makes a branch reply is a parameter; a lookup without end is one that never returns, not a stack that overflows; and a read that fails does so because nothing more comes during the call.
- Surrogate pairs, and names that are not UTF-8, in buffered paths, link targets and permission rows.
- Effects that `writebulk` and `UpdateLocalUsers` have before their whole argument has arrived: a branch acts at once.
- A database that fails during a permission lookup; rows that tie in the query are taken in table order.
- Modes above octal 2147477777, whose digits read as a decimal number overflow an `int`.
- Paths.Idempotent: paths without white space; trimming can expose new components otherwise. White space is ASCII.
- HTTP handling, the PHP panel apart from the grouping loop, registration and approval, logging, FUSE start-up and option parsing, the abandoned old client, benchmarks.
