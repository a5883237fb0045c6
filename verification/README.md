# Verified models of the vendored libraries and the core of FeiLib

This project models, in Dafny, the algorithms that FeiLib and its servers depend on most, and proves what they
promise. It has five parts.

**miniz.** The DEFLATE compressor from input bytes to output bytes: hash chains over a mirrored ring dictionary and lazy
parsing (`LzWindow`, `LzParser`), the code buffer with its flag bytes (`LzCodeBuffer`), radix-sorted frequencies, the
in-place minimum-redundancy passes and length limiting (`RadixSort`, `MinimumRedundancy`, `Optimality`, `PrefixCodes`,
`LengthLimit`, `HuffmanTable`), run-length coded code lengths and the dynamic block header (`CodeLengthCoding`,
`DynamicHeader`), the bits of a block in its three forms (`BitStream`, `DeflateSymbols`, `DeflateBlock`, `FixedCodes`,
`StoredBlock`) and of a stream with its container (`DeflateStream`, `ZlibContainer`). The decompressor's side is modelled
against it: canonical codes and the two-level decoding table (`CanonicalCode`, `InflateTable`, `HuffmanRoundTrip`), the
headers, the blocks and the stream. The main result is `Deflate.RoundTrip`: whatever the input and the options, what
the compressor puts out is decompressed to the input. Beside this, `Adler32` and the sorted directory index of zip
archives (`ZipNames`, `ZipIndex`).

**wepoll.** The intrusive red-black tree on heap nodes with parent pointers (`TreeShape`, `RedBlackTree`), the circular
queue (`CircularQueue`), the port with its socket state machine and poll groups (`PollPort`), and the reference lock
under every interleaving (`Reflock`).

**FConcurrentMap.** Its reader/writer lock as interleaved steps of any number of threads (`RwLock`, with `Counting`).

**FHttpParser.** The request parser, fed byte by byte, and the builder whose text it reads back (`HttpMessage`,
`HttpParser`, `HttpRoundTrip`), and requests that clients print differently (`HttpRequests`).

**FTimeQueue.** The timer queue and what whole runs of it return (`TimeQueue`).

Objects that the source updates in place are classes, in-place algorithms work on arrays, and each such method is proved
against a specification whose own properties are proved as lemmas. The two concurrent protocols are a state datatype, a
step function and an inductive invariant. `dafny verify dfyconfig.toml` checks everything.

Some points where the model has to take a position:

- `Optimality.Frequencies` and `HuffmanTable.Frequencies16` say that the frequencies of one table sum to less than 65536.
  The compressor meets this: `LzCodeBuffer` keeps fewer records than bytes in its 64 KB buffer, and
  `DeflateBlock.CountsFit` draws the conclusion. The Kraft sum is one even where 16-bit weights wrap around.
- `m_timerCounter` of FTimeQueue is never initialised in the source; the model starts it anywhere.
- `FHttpParser::parse` lets exceptions of `std::stoul` (a length above the largest unsigned long) and of
  `std::string::reserve` escape; the model has them as an outcome, after which the parser's fields are as the source
  leaves them. Chunk independence is stated up to such an exception.
- `parse` reads one byte more than it uses once the message is done, since it tests the state after reading;
  `HttpParser.Consumed` counts this.
- `multimap::find` may return any element with the key; the model takes the first, as the common libraries do.
- A failed cancellation in `sock__delete` is ignored by the source; the socket then waits in the deleted queue with its
  poll still pending, which the invariant of `PollPort` allows for.
- Positions that the compressor keeps in 32 bits are unbounded here; the 16 bits that hash chains hold of them are not.
- The kernel's side of a poll is `inFlight` in `PollPort.Port`: set where AFD accepts a poll, cleared where a completion
  is fed back. That nothing is freed while its poll is in flight is the part `NoneDangling` of the port's invariant.
- What surrounds the code is a parameter: `LzParser.Output` says what the compressor's output callback answers to each
  block and whether a compressed block fits the output buffer; `PollPort.Kernel` and `PollPort.Means` what AFD answers
  for each socket and whether memory and groups are to be had. Results say exactly when an operation fails.
- In `tree_del` the C code interleaves the writes that take out the successor and those that put it in the node's
  place; `Unlink` groups them by node. The heap it leaves is the same.

## Model

| member | source | states |
|---|---|---|
| `RedBlackTree.Tree.Rotate` | FeiLib/3rd/wepoll/wepoll.c:1984-2011 | a rotation rewires the heap nodes into exactly the rotated shape at the same place, whatever surrounds it |
| `RedBlackTree.Tree.RebalanceAfterInsert` | FeiLib/3rd/wepoll/wepoll.c:2021-2038 | one round of the insertion fix-up keeps the entries in order, keeps black heights and moves the only possible red-red edge two levels up or removes it |
| `RedBlackTree.Tree.Add` | FeiLib/3rd/wepoll/wepoll.c:2040-2073 | -1 and no change when the key exists; otherwise exactly the new entry is added, and search order, link consistency, no red-red edge, equal black heights and a black root all hold; the loops terminate |
| `RedBlackTree.Tree.RebalanceAfterRemove` | FeiLib/3rd/wepoll/wepoll.c:2075-2098 | one round of the removal fix-up either restores equal black heights or leaves the missing black one level higher, with the entries in order |
| `RedBlackTree.Tree.Unlink` | FeiLib/3rd/wepoll/wepoll.c:2107-2149 | taking a node out, with its in-order successor in its place when it has two children, removes exactly its entry and says where a black node is missing |
| `RedBlackTree.Tree.Del` | FeiLib/3rd/wepoll/wepoll.c:2100-2171 | for every node of the tree: exactly its entry goes, and search order, links, colours, black heights and the black root hold again; the fix-up terminates because it moves towards the root |
| `RedBlackTree.Tree.Find` | FeiLib/3rd/wepoll/wepoll.c:2173-2184 | finds the node with the key exactly when the key is present, after at most 2*log2(n+1) visits |
| `TreeShape.VisitBound` | FeiLib/3rd/wepoll/wepoll.c:2173-2184 | no path of a red-black tree with n entries is longer than 2*log2(n+1) |
| `TreeShape.RemovedInserted` | FeiLib/3rd/wepoll/wepoll.c:2040-2171 | removing what was just inserted gives back the entries from before |
| `CircularQueue.Queue.Prepend` | FeiLib/3rd/wepoll/wepoll.c:1487-1492 | on a well-linked ring, the node becomes the first; the ring stays well linked in both directions |
| `CircularQueue.Queue.Append` | FeiLib/3rd/wepoll/wepoll.c:1494-1499 | the node becomes the last, and the ring stays well linked |
| `CircularQueue.Queue.Detach` | FeiLib/3rd/wepoll/wepoll.c:1474-1477 | exactly the given node leaves the ring, which stays well linked |
| `CircularQueue.Queue.Remove` | FeiLib/3rd/wepoll/wepoll.c:1511-1514 | the node leaves the queue and points at itself, which is how it is known to be in no queue |
| `CircularQueue.Queue.MoveToStart` | FeiLib/3rd/wepoll/wepoll.c:1501-1504 | the node moves to the front, the others keep their order |
| `CircularQueue.Queue.MoveToEnd` | FeiLib/3rd/wepoll/wepoll.c:1506-1509 | the node moves to the back, the others keep their order |
| `CircularQueue.Queue.IsEnqueued` | FeiLib/3rd/wepoll/wepoll.c:1520-1522 | comparing a node's link with itself tells whether it is in the queue |
| `PollPort.Port.AcquireGroup` | FeiLib/3rd/wepoll/wepoll.c:998-1016 | there is a group exactly if one has room or one can be made, and one is made only when every existing one holds 32; full groups stay in front, sizes stay in 0..32 and count the live sockets |
| `PollPort.Port.ReleaseGroup` | FeiLib/3rd/wepoll/wepoll.c:1018-1028 | the group has one socket less and moves to the end of the queue; full groups stay in front and the sizes stay right |
| `PollPort.Port.GroupsHoldAll` | FeiLib/3rd/wepoll/wepoll.c:998-1028 | the sizes of all groups add up to the number of sockets that have not been freed |
| `PollPort.Port.New` | FeiLib/3rd/wepoll/wepoll.c:1639-1675 | succeeds exactly for a valid socket that is not registered, with memory and a group to be had, and then adds exactly one registered, idle socket; every error exit leaves the port as valid as before |
| `PollPort.Port.DeleteSocket` | FeiLib/3rd/wepoll/wepoll.c:1677-1715 | the socket is freed exactly when it has no poll in flight or by force; otherwise it waits in the deleted queue; it leaves the tree and the update queue in any case |
| `PollPort.Port.SetEvent` | FeiLib/3rd/wepoll/wepoll.c:1717-1732 | afterwards the socket is queued for an update or its poll already watches for every known event asked for; the port invariant holds |
| `PollPort.Port.UpdateSocket` | FeiLib/3rd/wepoll/wepoll.c:1776-1836 | fails exactly when a poll that does not cover what is asked cannot be cancelled or AFD refuses a new one, and then the socket stays queued; otherwise it leaves the queue with a covering poll in flight, a cancelled one, or unregistered because AFD does not know it; polls in flight stay so |
| `PollPort.Port.FeedEvent` | FeiLib/3rd/wepoll/wepoll.c:1838-1891 | a completed poll requeues the socket or frees it; of the events that happened exactly those are reported that were asked for, EPOLLERR for a failed poll, nothing for a socket being deleted; a socket with bit 31 set asks for nothing more exactly once something is reported |
| `PollPort.Port.UpdateEvents` | FeiLib/3rd/wepoll/wepoll.c:1172-1188 | succeeds exactly if no update of a queued socket fails, and then the update queue is empty; every poll in flight stays so, with its socket; nothing is registered anew |
| `PollPort.Port.BeginPoll` | FeiLib/3rd/wepoll/wepoll.c:1213-1230 | a wait begins exactly if no update fails; then every registered socket has a poll in flight at AFD whose mask lacks no known event asked for, or a cancelled one that will come back; polls in flight stay so |
| `PollPort.Port.CtlAdd` | FeiLib/3rd/wepoll/wepoll.c:1323-1338 | succeeds exactly for a valid socket that is not registered, with memory and a group to be had; it is registered with the events and data asked for, unless AFD rejects it at once; the others stay as they are, and polls in flight stay so with their sockets alive |
| `PollPort.Port.CtlMod` | FeiLib/3rd/wepoll/wepoll.c:1340-1353 | succeeds exactly for registered sockets and sets the data and the events asked for, errors and hang-ups included; polls in flight stay so |
| `PollPort.Port.CtlDel` | FeiLib/3rd/wepoll/wepoll.c:1355-1363 | succeeds exactly for registered sockets, which leave the tree; nothing is freed while its poll is in flight |
| `PollPort.Port.FeedEvents` | FeiLib/3rd/wepoll/wepoll.c:1195-1211 | a batch of completions of polls in flight can be fed safely; what the caller sees are, in order, the reports of its completions, each with the socket's data and exactly the events that happened and were asked for; all other polls and sockets are untouched |
| `PollPort.Port.EndPoll` | FeiLib/3rd/wepoll/wepoll.c:1213-1244 | the same once the lock is held again; the polls outside the batch, which other threads may have dequeued, stay in flight |
| `PollPort.Port.EndTwoPolls` | FeiLib/3rd/wepoll/wepoll.c:1213-1244 | two threads' batches, fed one after the other, report what one batch of both would have |
| `PollPort.Port.Serve` | FeiLib/3rd/wepoll/wepoll.c:1172-1363 | along every run of any number of threads, with AFD completing any poll at any time to any waiting thread, completions only ever reach live sockets and the port stays valid |
| `PollPort.Port.Delete` | FeiLib/3rd/wepoll/wepoll.c:1141-1170 | forces out every socket and then every group, with its three assertions holding |
| `Reflock.StepKeeps` | FeiLib/3rd/wepoll/wepoll.c:1558-1589 | every step of every thread keeps the reference lock's invariant and meets the assertion the source makes there |
| `Reflock.RunSafe` | FeiLib/3rd/wepoll/wepoll.c:1558-1589 | the assertions hold along every interleaving of any number of threads below 2^28 |
| `Reflock.NoNewReference` | FeiLib/3rd/wepoll/wepoll.c:1938-1966 | once the node is out of the tree no reader can take a reference any more, and it never comes back |
| `Reflock.DestroyedAlone` | FeiLib/3rd/wepoll/wepoll.c:1576-1589 | when unref_and_destroy swaps the state or has returned, every other reference is gone, nobody signals, and the state swapped out was exactly DESTROY |
| `Reflock.SignalAwaited` | FeiLib/3rd/wepoll/wepoll.c:1544-1574 | a thread that signals always finds the thread that awaits |
| `Reflock.PairedOnce` | FeiLib/3rd/wepoll/wepoll.c:1544-1589 | in no run do signal and await meet more than once |
| `Reflock.Progress` | FeiLib/3rd/wepoll/wepoll.c:1558-1589 | while any thread is inside an operation some thread can step, so nobody awaits for ever without a step left to take |
| `Reflock.ReaderServed` | FeiLib/3rd/wepoll/wepoll.c:1954-1966 | from every reachable state, a reader that looks for a node in the tree can go on alone until it uses it, with one reference more |
| `Reflock.DeleterServed` | FeiLib/3rd/wepoll/wepoll.c:1938-1952 | and so can the thread that takes it out of the tree, until it owns it |
| `Reflock.MissedAfterRemoval` | FeiLib/3rd/wepoll/wepoll.c:1938-1966 | in every run from the start, a thread misses the node only after it has been removed |
| `Reflock.CanFinish` | FeiLib/3rd/wepoll/wepoll.c:1558-1589 | from every reachable state all operations can be brought to their end: readers have given back their references, and the thread that has removed the node has destroyed its lock |
| `RwLock.StepKeeps` | FeiLib/include/FConcurrentMap.h:259-292 | every step keeps: the counters equal the admitted readers and announced writers, at most one writer inside, no readers once a writer has passed the spin loop; no counter goes negative |
| `RwLock.RunSafe` | FeiLib/include/FConcurrentMap.h:259-292 | that invariant holds along every interleaving of any number of threads |
| `RwLock.WriterAlone` | FeiLib/include/FConcurrentMap.h:276-292 | while a writer is inside there is no reader inside or being admitted and no other writer |
| `RwLock.AnnouncedKeepsOut` | FeiLib/include/FConcurrentMap.h:259-267 | no reader is admitted while a writer is announced |
| `RwLock.CanFinish` | FeiLib/include/FConcurrentMap.h:259-292 | from every reachable state all unfinished requests can be brought to their end, so there is no deadlock |
| `RwLock.ServedFirst` | FeiLib/include/FConcurrentMap.h:259-292 | in every run, a thread that has asked to read or to write is idle again only after it has been inside |
| `RwLock.CanServe` | FeiLib/include/FConcurrentMap.h:259-292 | from every reachable state every request that has been made can still be served |
| `HttpMessage.RunConcat` | FeiLib/src/Http/FHttpRequestParser.cpp:121-215 | feeding two pieces one after the other leaves the parser as feeding them at once, unless an exception ends the first |
| `HttpMessage.ChunksDoNotMatter` | FeiLib/src/Http/FHttpRequestParser.cpp:121-215 | any split of the bytes into chunks gives the same state, line buffer, headers and body |
| `HttpMessage.Final` | FeiLib/src/Http/FHttpRequestParser.cpp:121-215 | Done and Error absorb every further byte |
| `HttpMessage.RunKeepsBody` | FeiLib/src/Http/FHttpRequestParser.cpp:148-198 | in every reachable state the bytes read are the body, fewer than declared while in Body, and exactly as many at Done |
| `HttpParser.TrimSpaces` | FeiLib/src/Http/FHttpRequestParser.cpp:24-37 | the loops over both ends give the text without leading and trailing blanks |
| `HttpParser.Parser.ParseRequestLine` | FeiLib/src/Http/FHttpRequestParser.cpp:73-119 | the character loop is the reading of the blank-separated pieces: exactly method, path and version, errors at the first bad piece |
| `HttpParser.Parser.EndHeaders` | FeiLib/src/Http/FHttpRequestParser.cpp:149-173 | the end of the headers, with the invalid length, the numbers that throw, and the cookies moved out of the headers |
| `HttpParser.Parser.Parse` | FeiLib/src/Http/FHttpRequestParser.cpp:121-215 | one call has the effect of running the bytes up to the first NUL, reads one byte too many once done, and returns true exactly at Done |
| `HttpParser.FeedAll` | FeiLib/src/Http/FHttpRequestParser.cpp:121-215 | calls of parse, one for each of any number of NUL-free buffers, leave the parser as one run over all their bytes does |
| `HttpRoundTrip.RequestBuilder.Build` | FeiLib/include/Http/FHttpRequestBuilder.h:53-68 | the stream of pieces is the text of the request: start line, headers, length header, empty line, body |
| `HttpRoundTrip.DigitsRead` | FeiLib/include/Http/FHttpRequestBuilder.h:63-63 | the decimal digits of a size are all digits and read back as that size |
| `HttpRoundTrip.QueryRead` | FeiLib/src/Http/FHttpRequestParser.cpp:69-119 | a request line with path, question mark, query and perhaps a fragment leaves exactly the path and the query |
| `HttpRoundTrip.RoundTrip` | FeiLib/src/Http/FHttpRequestParser.cpp:121-215 | parsing a printed request reaches Done with the same method, the path and the query of its URL, headers plus Content-Length, and body |
| `HttpRoundTrip.RoundTripInChunks` | FeiLib/src/Http/FHttpRequestParser.cpp:121-215 | and so it does when the text arrives in any number of pieces |
| `HttpRoundTrip.Transmit` | FeiLib/src/Http/FHttpRequestParser.cpp:121-215 | what the builder prints, cut anywhere and fed to a new parser call by call, leaves the parser with the same request |
| `HttpRequests.MessageReceived` | FeiLib/src/Http/FHttpRequestParser.cpp:121-215 | any request, of either version, with blanks around values, cookies and lines without a colon, whose first declared length is that of its body, is received: path, query, cookies in order, other headers trimmed and in order, body |
| `HttpRequests.BodilessReceived` | FeiLib/src/Http/FHttpRequestParser.cpp:149-173 | one that declares no length is received when its headers end |
| `HttpRequests.EndWithBadLength` | FeiLib/src/Http/FHttpRequestParser.cpp:149-155 | a first declared length that is empty or has a character that is no digit ends in Error, with nothing else touched |
| `HttpRequests.EndWithHugeLength` | FeiLib/src/Http/FHttpRequestParser.cpp:157-158 | a length beyond what a number or a string can hold ends in an exception |
| `HttpRequests.BadMethod` | FeiLib/src/Http/FHttpRequestParser.cpp:82-90 | a request line whose first piece is no method name ends in Error |
| `HttpRequests.BadVersion` | FeiLib/src/Http/FHttpRequestParser.cpp:96-105 | so does one whose version is neither 1.1 nor 1.0 |
| `HttpRequests.MissingPieces` | FeiLib/src/Http/FHttpRequestParser.cpp:115-118 | and so does one with fewer than three pieces |
| `TimeQueue.DoKeeps` | FeiLib/src/FTimeQueue.cpp:8-57 | every operation keeps the timers in order of due time and insertion, ids distinct, and the index equal to the non-aborted pending timers with their due times |
| `TimeQueue.FiredInOrder` | FeiLib/src/FTimeQueue.cpp:25-40 | the timers of a tick come by due time, those due together in insertion order |
| `TimeQueue.AtMostOnce` | FeiLib/src/FTimeQueue.cpp:25-40 | no timer is returned by two ticks of a run |
| `TimeQueue.NeverEarly` | FeiLib/src/FTimeQueue.cpp:13-40 | a timer that is returned was added earlier in the run with that task and due time, and is due |
| `TimeQueue.NotAfterCancel` | FeiLib/src/FTimeQueue.cpp:25-57 | no tick returns a timer that has been cancelled |
| `TimeQueue.FirstTickFires` | FeiLib/src/FTimeQueue.cpp:13-57 | a timer that is not cancelled is returned by the first tick at or after its due time |
| `TimeQueue.FTimeQueue.AddTimer` | FeiLib/src/FTimeQueue.cpp:13-23 | the class method does what the specification of the run says, and keeps its invariant |
| `TimeQueue.FTimeQueue.DoTick` | FeiLib/src/FTimeQueue.cpp:25-40 | returns the immediate tasks in order and then, one by one, the tasks of the due timers; the erase loop leaves exactly the later timers and their ids |
| `TimeQueue.FTimeQueue.CancelTask` | FeiLib/src/FTimeQueue.cpp:42-57 | aborts exactly the timer with the id if it is pending; the assertion that its due time is in the multimap holds |
| `TimeQueue.ImmediateInOrder` | FeiLib/src/FTimeQueue.cpp:8-40 | over a whole run, the immediate tasks returned by the ticks and those still waiting are together all that were added, in order, each once |
| `TimeQueue.NextTickEmpties` | FeiLib/src/FTimeQueue.cpp:25-40 | after a tick all immediate tasks added before it have been returned |
| `TimeQueue.Perform` | FeiLib/src/FTimeQueue.cpp:8-57 | any run of operations on the object returns, call by call, what the specification of the run says |
| `Adler32.ChecksumConcat` | Server/3rd/miniz/miniz.c:41-67 | checksumming x and then y from the carried value equals checksumming x followed by y |
| `Adler32.ReduceLate` | Server/3rd/miniz/miniz.c:49-63 | reducing once per block gives the sums of the byte-by-byte definition modulo 65521 |
| `Adler32.NoOverflow` | Server/3rd/miniz/miniz.c:41-64 | inside a block of at most 5552 bytes neither sum exceeds 32 bits, for any 16-bit starting halves |
| `Adler32.Update` | Server/3rd/miniz/miniz.c:41-67 | the blocked loops compute the definition for every length; a null pointer gives 1, no bytes leave the value as it is |
| `ZipNames.FilenameLess` | Server/3rd/miniz/miniz.c:3550-3569 | the comparison loop is the lexicographic order of case-folded names, shorter first |
| `ZipNames.FilenameCompare` | Server/3rd/miniz/miniz.c:4440-4455 | zero exactly for equal folded names, negative exactly when the entry's name comes first |
| `ZipNames.LeqTransitive` | Server/3rd/miniz/miniz.c:3550-3569 | the order of names is transitive, as sorting and searching need |
| `ZipNames.FoldedAlike` | Server/3rd/miniz/miniz.c:3239-3239 | names are alike when folded exactly if they differ only in the case of letters A to Z |
| `ZipIndex.SiftDown` | Server/3rd/miniz/miniz.c:3598-3608 | the inner loop restores the heap below its start, permutes only the part it may touch |
| `ZipIndex.SortIndices` | Server/3rd/miniz/miniz.c:3579-3629 | the heap sort leaves the indices a permutation, ordered by folded name and then length |
| `ZipIndex.BinarySearch` | Server/3rd/miniz/miniz.c:4457-4495 | over a sorted index: an entry with that folded name when there is one, failure exactly when there is none |
| `ZipIndex.Scan` | Server/3rd/miniz/miniz.c:4526-4566 | the first entry with that folded name, or failure when there is none, also for names too long to be in an archive |
| `ZipIndex.LocateBoth` | Server/3rd/miniz/miniz.c:4508-4569 | binary search and scan succeed on the same names, and both return entries with that folded name |
| `CanonicalCode.FirstIsKraftSum` | Server/3rd/miniz/miniz.c:2589-2594 | the number the decoder compares with 65536 is the Kraft sum of the code lengths |
| `CanonicalCode.PrefixFree` | Server/3rd/miniz/miniz.c:2600-2609 | no canonical code of lengths that fit is a prefix of another |
| `CanonicalCode.EveryInputHasCode` | Server/3rd/miniz/miniz.c:2589-2609 | with Kraft sum one, every 15 bits of input begin with the code of some symbol |
| `InflateTable.Number` | Server/3rd/miniz/miniz.c:2582-2598 | next_code holds the first code of every length; the test accepts exactly Kraft sum one or at most one used symbol |
| `InflateTable.CompleteRoom` | Server/3rd/miniz/miniz.c:2600-2640 | for a complete code the overflow tree never needs more nodes than the arrays have room for |
| `InflateTable.BuildTable` | Server/3rd/miniz/miniz.c:2576-2641 | succeeds exactly on accepted lengths; look-up and tree then hold every code at its place and nothing else, all indices in bounds |
| `InflateTable.HuffDecode` | Server/3rd/miniz/miniz.c:2392-2424 | if the low bits of the buffer are the turned-around code of a used symbol, the look-up and tree walk return that symbol and its length |
| `InflateTable.DecodeAll` | Server/3rd/miniz/miniz.c:2392-2424 | decoding as many symbols as were encoded gives back the message |
| `RadixSort.SortStable` | Server/3rd/miniz/miniz.c:747-778 | for every key, the elements with it come out in their original order: nothing is lost, added or reordered |
| `RadixSort.SortSorts` | Server/3rd/miniz/miniz.c:747-778 | two passes over the bytes leave the keys in ascending order |
| `RadixSort.Pass` | Server/3rd/miniz/miniz.c:760-770 | one counting pass in place is the stable distribution by one digit |
| `RadixSort.RadixSortSyms` | Server/3rd/miniz/miniz.c:747-778 | the buffer returned holds the stable sort, also when the second pass is skipped |
| `MinimumRedundancy.CalculateMinimumRedundancy` | Server/3rd/miniz/miniz.c:781-834 | the three in-place passes turn weights into the leaf depths of the tree of merges, with the array holding weights, parents and depths in turn |
| `MinimumRedundancy.LeavesComplete` | Server/3rd/miniz/miniz.c:781-834 | those depths have Kraft sum exactly one, whatever the weights |
| `Optimality.LengthsComplete` | Server/3rd/miniz/miniz.c:781-834 | the computed lengths have Kraft sum exactly one |
| `Optimality.LengthsFall` | Server/3rd/miniz/miniz.c:781-834 | a more frequent symbol never gets the longer code |
| `Optimality.MinimumCost` | Server/3rd/miniz/miniz.c:781-834 | no lengths that satisfy Kraft's inequality are cheaper, for frequencies in order whose sum fits 16 bits |
| `PrefixCodes.KraftInequality` | Server/3rd/miniz/miniz.c:781-834 | the lengths of every prefix code, a list of bit strings none of which begins another, have a Kraft sum of at most one |
| `PrefixCodes.NoPrefixCodeCheaper` | Server/3rd/miniz/miniz.c:781-834 | no prefix code for the same frequencies is cheaper than the computed lengths |
| `Optimality.LengthBound` | Server/3rd/miniz/miniz.c:781-834 | no length exceeds 22, so the 33 counters of the caller suffice |
| `LengthLimit.FoldCost` | Server/3rd/miniz/miniz.c:847-850 | folding the longer codes down overshoots the Kraft sum by less than the number of folded codes |
| `LengthLimit.LengthenKeeps` | Server/3rd/miniz/miniz.c:851-862 | one repair step lowers the sum by one unit, keeps the number of codes, and no count becomes negative |
| `LengthLimit.EnforceMaxCodeSize` | Server/3rd/miniz/miniz.c:841-863 | terminates with every length within the limit, the number of codes unchanged and Kraft sum exactly one; a code within the limit is left alone, and one is lengthened only when hardly any is left between it and the limit |
| `HuffmanTable.OptimizeHuffmanTable` | Server/3rd/miniz/miniz.c:865-926 | exactly the counted symbols get lengths within the limit, rarer ones never shorter, in a code the decoder accepts; the codes are the canonical ones turned around |
| `HuffmanTable.TableIsShortest` | Server/3rd/miniz/miniz.c:865-926 | where the limit does not bite, no prefix code, as a list of bit strings, encodes the counted symbols in fewer bits |
| `HuffmanRoundTrip.SendAndDecode` | Server/3rd/miniz/miniz.c:865-926 | every message of counted symbols, sent with the codes of the table through the bit buffer, is decoded from the bits and the code lengths alone |
| `BitStream.BitWriter.PutBits` | Server/3rd/miniz/miniz.c:918-933 | output bytes and bit buffer together always hold exactly the fields sent so far |
| `BitStream.ReadField` | Server/3rd/miniz/miniz.c:2344-2359 | masking and shifting read back the first field and leave the others, in bits and in number |
| `CodeLengthCoding.Packer.Add` | Server/3rd/miniz/miniz.c:1012-1036 | after every length, the items written and the run still counted stand for exactly the lengths seen |
| `CodeLengthCoding.PackSizes` | Server/3rd/miniz/miniz.c:1010-1044 | the packed symbols expand to the given lengths; every repeat count is in the range of its extra bits, the counts are the uses; never three zeros or four other equal lengths in a row are spelled out |
| `DynamicHeader.ReadLengths` | Server/3rd/miniz/miniz.c:2642-2666 | the decoding loop gives back the packed lengths and stops at the right bit |
| `DynamicHeader.StartDynamicBlock` | Server/3rd/miniz/miniz.c:984-1069 | the bits sent are a header that describes exactly the two codes left in the tables, with no run spelled out and, beyond the least numbers that are always sent, no unused length at the end of any of its three lists |
| `DynamicHeader.ReadDynamicHeader` | Server/3rd/miniz/miniz.c:2558-2669 | reading such a header rebuilds decoding tables for the same codes and leaves the bits that follow |
| `DynamicHeader.EmittedCode` | Server/3rd/miniz/miniz.c:996-1001 | leaving out unused symbols at the end changes no code: what the compressor emits is what the decoder's tables hold |
| `LzRecords.CopyMatch` | Server/3rd/miniz/miniz.c:1719-1745 | copying a true match byte by byte reproduces the input |
| `LzWindow.ReadAhead` | Server/3rd/miniz/miniz.c:1476-1481 | thanks to the mirrored bytes, reading up to 257 bytes on from a position needs no wrap-around |
| `LzWindow.Window.Fill` | Server/3rd/miniz/miniz.c:1756-1801 | both update loops bring in as many bytes as the lookahead holds, keep the last bytes of the input in the ring and its mirror, and keep every hash chain: its head is the latest position with that hash, and each entry of the last 32 KB leads to the one before |
| `LzWindow.Window.FindMatch` | Server/3rd/miniz/miniz.c:1476-1513 | a longer match is reported only where the bytes truly repeat within the dictionary, and no position that the chain leads to within the probes allowed repeats more bytes; it terminates |
| `LzWindow.Window.RecentFound` | Server/3rd/miniz/miniz.c:1756-1797 | the latest earlier position with the same three bytes, unless another with their hash is in between, is among those looked at |
| `LzParser.Parser.Search` | Server/3rd/miniz/miniz.c:1802-1830 | the repeat found is the longest run in run-length mode, or no shorter than any that the chain leads to; it is dropped exactly when it is minimal and far, when its distance equals the slot, or when it is filtered out |
| `LzCodeBuffer.ShiftFlag` | Server/3rd/miniz/miniz.c:1706-1739 | shifting flags through the byte leaves the flags of the group so far in its top bits, whatever was below |
| `LzCodeBuffer.CodeBuffer.RecordLiteral` | Server/3rd/miniz/miniz.c:1706-1717 | the code buffer holds the records in groups of eight behind a flag byte, with one literal more, and the counts include it |
| `LzCodeBuffer.CodeBuffer.RecordMatch` | Server/3rd/miniz/miniz.c:1719-1745 | the same for a match: three bytes, its flag and its two symbols |
| `LzCodeBuffer.CodeBuffer.Finish` | Server/3rd/miniz/miniz.c:1260-1261 | at the end of a block the buffer is exactly the encoding of its records |
| `LzParser.Parser.Emit` | Server/3rd/miniz/miniz.c:1831-1869 | one round of the lazy state machine keeps: the records expand to the input up to the new position, less one byte while a match is saved; of the saved match and the one found the longer is written down or saved, and no match gives way to a literal but for a longer one |
| `LzParser.Parser.Step` | Server/3rd/miniz/miniz.c:1802-1887 | every round searches, loses no match, and flushes |
| `LzParser.Parser.FlushIfFull` | Server/3rd/miniz/miniz.c:1875-1886 | a block ends exactly when the code buffer is nearly full, or is long and compresses badly or is to be stored |
| `LzParser.Parser.Compress` | Server/3rd/miniz/miniz.c:1747-1890 | that invariant holds at every loop head; with a flush, the records expand to the whole input; it stops exactly when a block is not taken at once |
| `LzParser.Parser.SendRaw` | Server/3rd/miniz/miniz.c:1304-1323 | the bytes of a stored block, read from the dictionary, are what the block's records expand to |
| `LzParser.Parser.SendForm` | Server/3rd/miniz/miniz.c:1257-1329 | the block is static exactly when asked for or short, and it is stored instead exactly when it is still in the dictionary and asked to be, or is not shorter compressed, and otherwise static when it does not fit; and exactly the fields of a block that stands for the records have been added |
| `LzParser.Parser.SendBlock` | Server/3rd/miniz/miniz.c:1250-1331 | the whole output stays the header and the fields of all blocks, one more now, whose records are those that have left the buffer |
| `LzParser.Parser.Finish` | Server/3rd/miniz/miniz.c:1333-1350 | the last block is marked final; padding to the byte and the checksum complete the stream |
| `DeflateSymbols.LengthBack` | Server/3rd/miniz/miniz.c:686-702 | for every length, the decoder's base plus the extra bits the encoder sends is the length |
| `DeflateSymbols.DistanceBack` | Server/3rd/miniz/miniz.c:704-740 | the same for every distance up to 32768 |
| `FixedCodes.LiteralsComplete` | Server/3rd/miniz/miniz.c:1071-1091 | the fixed lengths of literals and lengths have Kraft sum one, so that the decoder accepts them |
| `FixedCodes.StartStaticBlock` | Server/3rd/miniz/miniz.c:1071-1091 | the tables hold the fixed lengths and their canonical codes |
| `FixedCodes.FixedTables` | Server/3rd/miniz/miniz.c:2545-2559 | the decoder's tables for a static block decode exactly those codes |
| `StoredBlock.PutStoredHeader` | Server/3rd/miniz/miniz.c:1310-1319 | type, padding to the byte boundary, the number of bytes and its complement |
| `StoredBlock.InflateStored` | Server/3rd/miniz/miniz.c:2496-2537 | reading a stored block skips the same padding, accepts the number and copies exactly its bytes |
| `DeflateBlock.CompressLzCodes` | Server/3rd/miniz/miniz.c:1191-1236 | walking the code buffer by its flag bytes sends exactly the fields of the recorded literals and matches and the end of the block |
| `DeflateBlock.CompressBlock` | Server/3rd/miniz/miniz.c:1239-1246 | the bits of a static or dynamic block: type, header and records; the code buffer stays for another attempt |
| `DeflateBlock.InflateBlock` | Server/3rd/miniz/miniz.c:2670-2847 | decoding those fields writes exactly what the records expand to and stops after the end of the block |
| `DeflateBlock.InflateForm` | Server/3rd/miniz/miniz.c:2495-2848 | inflating a stored, static or dynamic block appends exactly the bytes of its records, wherever it stands in the stream |
| `DeflateStream.AddBlock` | Server/3rd/miniz/miniz.c:1250-1331 | one block more adds exactly its fields and its records |
| `DeflateStream.Inflate` | Server/3rd/miniz/miniz.c:2492-2848 | inflating block after block stops after the final one, with exactly the bytes of all records |
| `ZlibContainer.PutHeader` | Server/3rd/miniz/miniz.c:1268-1292 | the two header bytes for any level, as a multiple of 31 without a preset dictionary |
| `ZlibContainer.PutTrailer` | Server/3rd/miniz/miniz.c:1340-1349 | shifting the checksum out sends its four bytes, highest first |
| `ZlibContainer.Decompress` | Server/3rd/miniz/miniz.c:2436-2922 | of a whole stream, with or without the zlib container: exactly the bytes of its records, and a mismatch is reported exactly when the checksum of those bytes is not the one sent |
| `Deflate.Compress` | Server/3rd/miniz/miniz.c:1913-1979 | called until everything is taken in, the compressor fails exactly when the output callback fails for one of its blocks, and otherwise puts out the bytes of a stream that stands for the whole input, with its checksum |
| `Deflate.RoundTrip` | Server/3rd/miniz/miniz.c:1913-1979 | for every input, every combination of options and every container: if the output callback never fails, compression succeeds, and whenever it does, decompressing gives back the input |

## Left out

- Socket I/O, epoll listeners, TLS, HTTP/2, templates, logging, sqlite and the Python tools: I/O or foreign libraries.
- Windows kernel calls of wepoll (AFD, IOCP, keyed events, critical sections): they are arbitrary answers, a rendezvous, and atomic operations.
- The mapping between AFD and epoll event bits, user handles and error codes: events arrive as epoll bits.
- `port_wait`'s time-outs and its buffer of completions: `BeginPoll` and `EndPoll` are the two locked halves of one poll.
- The port's queues and tree inside `PollPort`: they are sequences and a map there; that the intrusive queue and the tree behave as such is proved in `CircularQueue` and `RedBlackTree`.
- TBB's maps behind `FConcurrentMap`: only the lock around them is modelled, and `FConcurrentHashMap`, which has the same lock.
- Memory order of the atomics in `FConcurrentMap`: steps are sequentially consistent, as the defaults are.
- Suspending and resuming `tinfl_decompress`, its fast path that decodes two symbols at once and its unrolled copies: input is one number with its count of bits, output one buffer.
- `DynamicHeader.ReadLengths`: specified on packed lengths that a compressor can send; what the source does with others, beyond refusing them, is not modelled.
- `DynamicHeader.ReadDynamicHeader`: the same for headers; that `InflateTable.BuildTable` refuses exactly the bad code lengths is proved for all of them.
- `DeflateBlock.InflateBlock`: the same for the symbols of a block.
- `DeflateBlock.InflateForm`: the same for a whole block.
- `DeflateStream.Inflate`: the same for a stream; truncated input is not modelled.
- `ZlibContainer.Decompress`: the same for a stream with its container, but with any checksum.
- `Adler32.Update`: takes a 32-bit value to start from, as every checksum is; the parameter is wider where `mz_ulong` has 64 bits.
- `tdefl_compress_fast` and the variants with unaligned loads, which read the same dictionary.
- The output buffer of the compressor and draining it: the output is one growing sequence.
- Flushing with `TDEFL_SYNC_FLUSH` and `TDEFL_FULL_FLUSH`, which add an empty stored block and forget the dictionary.
- How compression levels map to options: every combination of the options is covered.
- The hash function's 32-bit shifts are taken without overflow; only that its result is below 32768 matters, since chains are not trusted.
- `tdefl_calculate_minimum_redundancy` works on the keys of an array of pairs; in `HuffmanTable` the keys are copied to an array of their own, and the symbols stay where they are.
- Zip archive reading and writing, zip64 fields, comments, and the flags of file look-up that rule out the sorted index.
- URL decoding of queries and the parsing of cookies: the parser keeps the text they are made from.
- `HttpParser.Parser.ParseQuery`: keeps the query as text up to a fragment mark and does not build the query map.
- The order of headers with different names in the parser's multimap: headers are kept in order of arrival.
- Wrap-around of 64-bit timer ids, and the mutex that makes each operation of FTimeQueue atomic.
