# lib_mogilefs in Dafny

A model of the client side of the MogileFS protocol as lib_mogilefs implements it in C, with proofs about
every input, every run and every interleaving. Sockets, cURL, disks, clocks and random numbers are
arguments: a function from call number to outcome, a sequence of received chunks, or a schedule, and every
theorem holds for all of them. Locks and memory allocation are taken to succeed.

| file | what it models |
|---|---|
| `Common.dfy` | what several modules use |
| `UrlCodec.dfy` | percent coding of parameters (sections 2.1 and 2.3 of RFC 3986; `+` for space as in section 17.13.4.1 of HTML 4.01) |
| `Parameters.dfy` | the linked list of request parameters, its running totals and its metadata numbering |
| `RequestLine.dfy` | the printer that fills an exactly sized buffer |
| `ReplyParser.dfy` | the in-place reply parser |
| `Receive.dfy` | the receive loop that reassembles a reply |
| `RoundTrip.dfy` | printer, network and parser together |
| `MetadataRoundTrip.dfy` | what a copied list of plain and metadata entries means to whoever parses the rendered line |
| `StackSpec.dfy` | one tracker's idle connections as a sequence, and expiry by a scan from the tail |
| `ConnectionRing.dfy` | the same as a doubly linked ring of cells, and the loop that frees a detached chain |
| `TrackerTable.dfy` | the active and inactive index arrays and the rotating snapshot |
| `Request.dfy` | getting connections from the pool and the failover loop over trackers |
| `PoolMachine.dfy` | the pool shared by any number of threads, one locked section or wait per step |
| `PoolOrder.dfy` | when the rings of the shared pool stay sorted, and when they do not |
| `PoolCrossing.dfy` | the same as a condition on the schedule: which returns cross |
| `PoolDrain.dfy` | what ends up in the rings of inactive trackers |
| `PoolPass.dfy` | what a request and each maintenance pass do in the shared pool when no other thread moves |
| `SpillBuffer.dfy` | the download buffer that moves from memory to a file |
| `Download.dfy` | one download into each kind of sink, and failover over replicas |
| `SinkFile.dfy` | what a download leaves in a file when several replicas were tried |
| `Upload.dfy` | create_open, PUT, create_close and their retries |
| `Registry.dfy` | the double-checked registry of file servers |

Classes and arrays stand where the C code updates structures and buffers in place; each of their methods is
proved to compute a function on values, and the lemmas are about those functions.

## What the code does not do

Where an expected property fails, the model keeps the code's behaviour, a lemma, a run or a contract names the input,
and the exact condition is proved.

- A reply whose first key starts with a digit is stored under a key that lost its leading digits, because the
  parser skips digits for a file id (`DigitKeyIsLost`). The hash is still what the values given promise if and only
  if that key and what is left of it are both given again later (`RoundTripIff`).
- A list without parameters is sized one byte short, so the terminator is written past the allocation and the line is
  sent without its newline (`SizeIsExactIff`, `BuildRequest`).
- A plain entry that uses a generated metadata name replaces that pair, or the count, for whoever parses the line
  (`PairIsHidden`; `MetadataArrivesIff` has the condition).
- An error reply with an empty code is rejected (`ErrorRoundTripIff`).
- A reply with a newline inside it is cut short by some ways of splitting it (`SplitIndependentIff`).
- A connection is stamped before the lock is taken, so an older stamp can end up at the head and expiry then
  keeps an entry it should remove (`StampBeforeLockUnsorts`, from a reachable state by `TwoReturningIsReached`).
  The rings stay sorted if and only if no two returns to one tracker cross (`SortedIffNothingCrosses`).
- Deactivation drains a tracker's ring, but a thread that still holds one of its connections puts it back, and expiry
  does not walk inactive trackers (`StrayIsReached`). Their rings stay empty if and only if no push comes after the
  drain (`NothingStraysIff`).
- `connection_count` is not lowered by expiry, so it is right if and only if nothing has expired (`CountIsExactIff`;
  `CountAfterExpiry` is such a run).
- A tracker registered while another is inactive is written past the end of the active list and is then in neither
  list, unless the cell the list grows over already held its index (`Table.Register`).
- Without a memory pool a request reports success when nothing could be reached (`Served`; `NullPoolReportsSuccess` makes
  such a call).
- A replica of the wrong length is not rolled back from the caller's brigade, whether the call then succeeds or fails
  (`BrigadeIsCleanIff`); a caller can count on a clean brigade if and only if it requires no length
  (`CleanForAllIff`). The memory limit holds for each answer, not for the brigade: `GetAfterShortReply` is a call that
  leaves three bytes in memory with a limit of two.
- No file is truncated. A caller's file holds exactly the content if and only if the winner starts at 0 and nothing
  held or written before is longer (`CallersFileIsExactIff`). The same goes for a spilled file
  (`SpilledFileIsExactIff`): its destination path may have held something, a transfer that spilled and then failed
  leaves its bytes there for the next one to open (`GetAfterBrokenSpill`), and a refused answer may have been written
  to it (`LongerAnswerShows`).
- All replies of an upload are merged into one hash, those of trackers that were rejected included
  (`RejectedReplyIsKept`). A create_open reply that lacks a field is completed from an earlier one, and create_close
  can mix the replies of two attempts (`StaleFieldsAreSent`) or of two trackers asked in one call (`OneCallMixes`).
  `TripleProvenance` says which reply each field comes from, `TripleIsOwnIff` and `TripleIsOneReplysIff` when they
  come from one.

The repository's README differs from the code in two places, and the model follows the code: it calls the
connection stack first-in first-out (README:46) although the newest connection is used first, and says a tracker is
marked inactive only if there is more than one (README:32) although the code does so always.

## Model

| member | source | states |
|---|---|---|
| UrlCodec.DecodeEncode | src/tracker.c:229-267 | decoding undoes encoding, for every byte string |
| UrlCodec.EncodeIsSafe | src/tracker.c:229-248 | an encoding holds no `&`, `=`, space, CR, LF or NUL and is at most three times as long |
| UrlCodec.EncodeInjective | src/tracker.c:229-248 | different strings have different encodings |
| UrlCodec.EncodeUnreserved | src/tracker.c:233-235 | unreserved text is its own encoding |
| UrlCodec.DecodeNeverGrows | src/tracker.c:251 | the decoded string fits the buffer of the encoded length |
| UrlCodec.UrlEncode | src/tracker.c:229-248 | fills a buffer of three bytes per input byte with exactly the encoding, ends it with NUL and reports its exact length |
| UrlCodec.UrlDecode | src/tracker.c:250-267 | fills a buffer of the input's length with exactly the decoding, whatever the input, and ends it with NUL |
| UrlCodec.DecodeOne | src/tracker.c:252-264 | one turn of the decoding loop: how far it reads and what it adds, a `%` without two characters after it included |
| UrlCodec.UnreservedIsTable | src/tracker.c:233 | the bytes that are not escaped, one by one |
| UrlCodec.EncodeOne | src/tracker.c:233-241 | what one byte is encoded as: itself, `+`, or `%` and its two lower-case hexadecimal digits by the table of digits |
| UrlCodec.EncodeConcat | src/tracker.c:232-244 | an encoding is made byte by byte |
| UrlCodec.DecodeEscape | src/tracker.c:219-256 | `%` and two hexadecimal digits of either case decode to the byte they spell |
| UrlCodec.DecodePlain | src/tracker.c:258-262 | `+` decodes to a space and every other byte but `%` to itself |
| UrlCodec.DecodeCutOff | src/tracker.c:253-257 | a `%` without two characters after it is dropped |
| UrlCodec.DecodeAnyEncoding | src/tracker.c:250-267 | decoding undoes every encoder, whichever bytes it escapes and in whichever case |
| Parameters.DecimalRoundTrip | src/tracker.c:112-114 | a printed index, read as ASCII digits, is the index |
| Parameters.MetaNamesDistinct | src/tracker.c:112-114 | different metadata indexes have different parameter names |
| Parameters.MetaNamesEncodeToThemselves | src/tracker.c:112-115 | the generated names pass the encoder unchanged |
| Parameters.MetaKeySpelled | src/tracker.c:112 | the generated key names start with plugin.meta.key |
| Parameters.MetaValueSpelled | src/tracker.c:114 | the generated value names start with plugin.meta.value |
| Parameters.MetaKeysSpelled | src/tracker.c:277 | the count is sent as plugin.meta.keys |
| Parameters.CopyNumbersMetadata | src/tracker.c:140-150 | where every copied entry lands: plain entries unchanged and in order, the k-th metadata entry as the adjacent pair key{k}, value{k}, counting on without gaps |
| Parameters.CopyTotals | src/tracker.c:140-150 | the metadata count grows by exactly the number of metadata entries, and the old entries stay in front |
| Parameters.ParameterList.Link | src/tracker.c:98-107 | walking to the tail and linking appends one node and keeps the list well formed |
| Parameters.ParameterList.AddPointers | src/tracker.c:90-108 | appends the entry; count and strlen stay the list's true sums |
| Parameters.ParameterList.AddParameter | src/tracker.c:82-87 | appends the encoded key and value with their lengths |
| Parameters.ParameterList.AddMetaData | src/tracker.c:110-138 | appends the encoded key and value under their two generated names, or the one raw entry with key and value as given and not counted in strlen; the count goes up by one |
| Parameters.ParameterList.CopyFrom | src/tracker.c:140-150 | the destination becomes the copy of the source's entries after its own, in nodes of its own that later additions may change; the source list is unchanged |
| RequestLine.SizeIsExactIff | src/tracker.c:270-282 | the precomputed size is the line's length if and only if there is a parameter, and one short otherwise |
| RequestLine.JoinLength | src/tracker.c:273 | strlen plus the separators is the length of the joined entries |
| RequestLine.PutEntries | src/tracker.c:293-303 | the printing loop writes the joined entries after what is there, within the buffer |
| RequestLine.BuildRequest | src/tracker.c:269-309 | exactly the line and then NUL are written, with no gap; they fit the allocation if and only if there is a parameter, and without any the last byte is written past it and the size leaves out the newline |
| ReplyParser.Skip | src/tracker.c:311-330 | the scan functions find the first stopping byte, or -1 |
| ReplyParser.SkipNotEqInStr | src/tracker.c:332-337 | finds the first `=` of a C string, or -1 |
| ReplyParser.StrTok | src/tracker.c:373-384 | a token and the remaining text, the NUL written in place |
| ReplyParser.ParsePairs | src/tracker.c:372-385 | the tokenising loop makes the bindings of the text in order, up to the first pair without `=` |
| ReplyParser.ParseErrReply | src/tracker.c:387-421 | code and description of an error reply, and each malformed shape |
| ReplyParser.ParseResponse | src/tracker.c:339-428 | the in-place parser computes ParseReply for every buffer terminated in one of the callers' two ways |
| ReplyParser.ReplyWordsSpelled | src/tracker.c:348-387 | the words OK and ERR, and the names errors are stored under |
| ReplyParser.BindLastWins | src/tracker.c:383 | the last binding of a key stays |
| ReplyParser.BindKeepsOthers | src/tracker.c:383 | other entries of the result hash are unchanged |
| Receive.SplitIndependentIff | src/tracker.c:170-206 | every split of a reply is reassembled to the whole reply if and only if its only newline is its last byte |
| Receive.SplitIndependent | src/tracker.c:170-215 | any delivery of a one-line reply is treated like a single receive, whatever follows |
| Receive.ReceiveLine | src/tracker.c:165-206 | the loop over growing buffers computes Collect |
| Receive.AwaitReply | src/tracker.c:165-215 | receive, check and cut the terminator, parse |
| Receive.CrLfIsCut | src/tracker.c:208-215 | a line with CR LF is parsed with NUL for the CR |
| Receive.NoCrIsRejected | src/tracker.c:208-213 | a line without the CR is rejected and the hash kept |
| Receive.BrokenOffIsNoAnswer | src/tracker.c:172-185 | a socket error or an empty receive before the newline ends the call without an answer |
| RoundTrip.SplitJoin | src/tracker.c:293-303 | splitting a joined list gives its entries back in order |
| RoundTrip.PrintThenParse | src/tracker.c:269-386 | a rendered list of encoded parameters parses as ok and binds each key to the decoded value, up to digits in front of the first key |
| RoundTrip.FileIdIsSkipped | src/tracker.c:318-350 | any run of spaces and digits after OK is skipped, and with it the digits the first key starts with |
| RoundTrip.KeysAfterFileId | src/tracker.c:318-386 | after any file id a list whose first key does not start with a digit binds all its keys whole |
| RoundTrip.EmptyAnswer | src/tracker.c:350-386 | an answer without parameters is accepted and changes nothing |
| RoundTrip.IdAloneIsMalformed | src/tracker.c:350-366 | a buffer that ends within the file id is rejected |
| RoundTrip.LeadingSeparators | src/tracker.c:373 | separators in front of a pair are skipped, however many |
| RoundTrip.PairSplits | src/tracker.c:373-384 | the key is everything before the first `=` of a pair, the value everything after it, further `=` included |
| RoundTrip.FirstBindingIsIrrelevantIff | src/tracker.c:383 | a first binding under another key gives the same hash, whatever the hash was, if and only if both keys are bound again later |
| RoundTrip.RoundTripIff | src/tracker.c:269-386 | for every non-empty list, every result hash ends up with the last original value under each encoded key if and only if the first encoded key does not start with a digit, or it and its rest without the leading digits are both given again later |
| RoundTrip.RoundTripWithMetadata | src/tracker.c:276-292 | with metadata the count comes first and every key survives |
| RoundTrip.DigitKeyIsLost | src/tracker.c:350 | the key `1a` is stored as `a` |
| RoundTrip.LastValueIsStored | src/tracker.c:383 | an encoded key is found with the last original value given for it |
| RoundTrip.OtherEntriesAreKept | src/tracker.c:383 | entries under other keys stay as they were |
| RoundTrip.ReplyOverTheWireIff | src/tracker.c:165-386 | printer, any network splitting and parser together store the expected values under exactly the condition of the round trip |
| RoundTrip.ErrorRoundTripIff | src/tracker.c:387-421 | code and description of an error reply are stored as the originals if and only if the code is not empty |
| RoundTrip.ErrorWithSpaces | src/tracker.c:387-421 | spaces in front of the code and of the description are skipped; the description is all the rest |
| RoundTrip.CodeAloneIsMalformed | src/tracker.c:400-404 | an error reply without a space after its code is rejected |
| RoundTrip.NoCodeAtAll | src/tracker.c:391-394 | an error reply of spaces alone is rejected |
| RoundTrip.NoDescriptionAtAll | src/tracker.c:408-412 | an error reply that ends within the spaces after its code is rejected |
| RoundTrip.OtherRepliesAreMalformed | src/tracker.c:342-427 | what starts as neither an answer nor an error, or is too short, is rejected |
| RoundTrip.RejectedReplyIsKept | src/tracker.c:372-385 | a reply with a pair that lacks its `=` is rejected, and all pairs in front of it are in the hash by then |
| MetadataRoundTrip.CopyHasNoRaw | src/tracker.c:140-150 | a copied list can be rendered: no entry is left unencoded |
| MetadataRoundTrip.CopyIsClean | src/tracker.c:140-150 | copying well-made entries gives encoded text only |
| MetadataRoundTrip.CopyMeans | src/tracker.c:140-150 | for every name, the last copied entry that uses it, a metadata entry through its two generated names, decides what is stored under it; other names are left alone |
| MetadataRoundTrip.CopiedRequestParses | src/tracker.c:140-386 | any mix of plain and metadata entries, copied and rendered, is accepted by the parser and decides every entry of the hash on top of the metadata count |
| MetadataRoundTrip.MetadataArrivesIff | src/tracker.c:110-150 | the number of metadata entries is stored under plugin.meta.keys and the k-th entry under plugin.meta.key{k} and plugin.meta.value{k}, if and only if no plain entry of that name (a later one, for a pair) has replaced it |
| MetadataRoundTrip.LastPlainIsStored | src/tracker.c:383 | a plain entry added last takes over its name, a generated one included |
| MetadataRoundTrip.PairIsHidden | src/tracker.c:112-115 | a metadata key hidden by a plain entry of the generated name |
| MetadataRoundTrip.BuildFrom | src/file_upload.c:244-250 | a new list, the caller's entries copied in, a parameter added, and the line of the copy |
| StackSpec.TailStartIsLongest | src/pool.c:452-456 | the scan stops at the longest all-expired tail |
| StackSpec.TailScanIsFilterIff | src/pool.c:443-460 | one tail scan removes all and only the expired entries if and only if none stands before a fresh one |
| StackSpec.SortedThroughoutIff | src/pool.c:313-332 | over any history of gets, returns, drains and expiries the stack stays sorted if and only if no return is stamped older than the head |
| StackSpec.TimelyExpiryIsFilter | src/pool.c:443-460 | in such a history every expiry is the plain filter |
| ConnectionRing.Ring.Unsplice | src/pool.c:278 | cutting a run of cells out leaves a well-formed ring of the rest |
| ConnectionRing.Ring.InsertHead | src/pool.c:325 | a cell is linked in at the head of a well-formed ring |
| ConnectionRing.Ring.Get | src/pool.c:272-280 | pops the newest entry, or nothing from an empty ring |
| ConnectionRing.Ring.Return | src/pool.c:313-326 | pushes the entry with its new stamp |
| ConnectionRing.Ring.ScanTail | src/pool.c:452-456 | the pointer scan finds the newest expired cell |
| ConnectionRing.Ring.GetExpired | src/pool.c:443-470 | detaches exactly the longest expired tail as a NULL-terminated chain and leaves a well-formed ring of the rest; the count is not reduced |
| ConnectionRing.Arena.DestroyChain | src/pool.c:434-438 | every cell of the chain is destroyed once, in order, and none is read afterwards |
| ConnectionRing.ExpireRing | src/pool.c:429-439 | one tracker's expiry: the fresh entries stay and stay allocated, the others are destroyed once each |
| ConnectionRing.ExpirySplits | src/pool.c:452-460 | kept and expired entries make up the stack, and a second scan finds nothing |
| ConnectionRing.CountIsExactIff | src/pool.c:443-470 | the count is the ring's size if and only if nothing has expired, and too high by what has |
| ConnectionRing.CountAfterExpiry | src/pool.c:443-470 | a run that ends with an empty ring and a count of 1 |
| TrackerTable.RemoveFromArray | src/pool.c:203-215 | removes the first occurrence in place, keeping the order and everything past the length |
| TrackerTable.RemoveFirstAt | src/pool.c:206-213 | removal closes the gap and keeps the order of the rest |
| TrackerTable.PartitionThroughout | src/pool.c:217-257 | over any sequence of activations and deactivations the two lists hold each index exactly once |
| TrackerTable.DeactivateKeepsPartition | src/pool.c:240-245 | deactivation keeps the partition and puts the tracker on the inactive side |
| TrackerTable.ActivateKeepsPartition | src/pool.c:223-227 | activation keeps the partition |
| TrackerTable.ActivateMoves | src/pool.c:223-227 | activation puts an inactive tracker at the end of the active list and leaves every other one where it was; an active one is ignored |
| TrackerTable.DeactivateMoves | src/pool.c:240-245 | deactivation puts an active tracker at the end of the inactive list and leaves every other one where it was |
| TrackerTable.Table.Register | src/pool.c:118-136 | the new lists; they stay a partition if and only if nothing is inactive or the stale cell already holds the new index, which otherwise is in neither list |
| TrackerTable.Table.ActivateTracker | src/pool.c:217-232 | an inactive tracker is taken out of the inactive list and is last in the active one, the order of the others kept; otherwise nothing changes |
| TrackerTable.Table.DeactivateTracker | src/pool.c:234-245 | an active tracker is taken out of the active list and is last in the inactive one, the order of the others kept; otherwise nothing changes |
| TrackerTable.RotatedVisitsAll | src/pool.c:183-192 | the walk visits every snapshot entry once, wherever it starts |
| TrackerTable.TrackerList.Next | src/pool.c:183-200 | hands out the list from the start position on and around to it, and then NULL |
| Request.TrackerPool.GetConnection | src/pool.c:263-311 | the newest idle connection, or a fresh one, or none and the tracker deactivated |
| Request.TrackerPool.DeactivateTracker | src/pool.c:234-257 | the tracker is inactive and its idle connections are destroyed head first |
| Request.TrackerPool.AttemptOnce | src/request.c:46-69 | one turn of the inner loop: what is kept, destroyed, pushed back or deactivated |
| Request.TrackerPool.TryTracker | src/request.c:44-69 | a tracker's idle connections head first, then one fresh connect, stopping at a success |
| Request.TrackerPool.RequestDo | src/request.c:23-76 | termination within one attempt per idle connection and one per tracker; the status is that of the last request made, or the initial one if no connection could be made, so success exactly when an attempt succeeded, and then the winner is on top of what is left of its tracker's stack; every tracker tried before it, or on failure every snapshot tracker, was tried afresh and has no idle connection; exactly the unreachable ones became inactive; other stacks are untouched; every failed connection is destroyed |
| Request.LastStatusIff | src/request.c:24-75 | the status says success if and only if an attempt succeeded, or it started as success and every connect failed |
| Request.LastStatusIs | src/request.c:24-75 | the status is that of the last request made, or the initial one |
| Request.FailedIdsAre | src/request.c:54-61 | destroyed are exactly the connections whose request failed |
| Request.NullPoolReportsSuccess | src/request.c:26-31 | a call on a pool of one unreachable tracker reports success if and only if it was given no memory pool |
| PoolMachine.StepConserves | src/pool.c:234-332 | every step of every thread keeps each connection in one place |
| PoolMachine.StepTyped | src/pool.c:234-332 | every step keeps connections with their own tracker and the lists a partition |
| PoolMachine.ConservedMeansExclusive | src/pool.c:263-332 | the count of places means: no duplicates anywhere, all places apart, nothing missing |
| PoolMachine.OwnershipThroughout | src/pool.c:234-470 | over every interleaving each connection is in exactly one of its tracker's ring, one thread's hands, or the destroyed; destroyed at most once; never pooled under another tracker; the lists a partition |
| PoolMachine.NothingLeaks | src/request.c:43-70 | when all threads are idle, each connection made is pooled with its tracker or destroyed |
| PoolPass.WalkGoesAround | src/pool.c:143-200 | any walk goes through its list from any place on and around to it: the inactive list to revive, the active one otherwise |
| PoolPass.UndisturbedExpiry | src/pool.c:424-439 | an undisturbed pass cuts the expired tail off every active tracker's ring and touches no other ring |
| PoolPass.CutIsAtSixtySeconds | src/pool.c:443-456 | the cut is at the newest connection of the tail not used in the last sixty seconds |
| PoolPass.UndisturbedRevival | src/pool.c:395-422 | an undisturbed pass makes active exactly the inactive trackers that could be reached and answered, each with a pooled connection |
| PoolPass.PooledAnswers | src/request.c:43-66 | at one tracker a request uses the pooled connections newest first until one answers; that one is back on top, those before it are destroyed |
| PoolPass.PooledAllFail | src/request.c:43-61 | when none of them answers all are destroyed |
| PoolPass.FreshConnect | src/request.c:48-66 | the fresh connection after that is pooled and ends the request, or is destroyed and the next tracker is tried |
| PoolPass.FreshRefused | src/pool.c:289-306 | a refused connect takes the tracker out of the active list, and the next one is tried |
| PoolOrder.StepRefinesStack | src/pool.c:263-332 | each step acts on every ring as one stack operation or not at all |
| PoolOrder.SortedAlongIff | src/pool.c:313-332 | all rings are sorted throughout a run if and only if no push carries a stamp older than the head it lands on |
| PoolOrder.AtomicReturnsKeepOrder | src/pool.c:313-332 | when stamping and pushing are not interleaved, every ring is sorted throughout |
| PoolOrder.ExpiryIsExact | src/pool.c:443-460 | with sorted rings expiry removes all and only the old connections |
| PoolOrder.StampBeforeLockUnsorts | src/pool.c:315-325 | two threads putting connections back can leave the older stamp at the head, and expiry then keeps it |
| PoolOrder.TwoReturningIsReached | src/request.c:43-63 | the state that run starts from is reached from registration |
| PoolCrossing.StampIsLast | src/pool.c:313-332 | over any run a connection's stamp is the time of the last turn that stamped it |
| PoolCrossing.PooledWasPushed | src/pool.c:313-332 | over any run what is pooled was stamped, then pushed, and not stamped since |
| PoolCrossing.SortedIffNothingCrosses | src/pool.c:313-332 | from registration on, all rings stay sorted if and only if no return crosses another to the same tracker: stamped before it at an earlier time, and pushed after it while it is still pooled |
| PoolDrain.StrayWasPushedLate | src/pool.c:234-257 | over any run, what is pooled with an inactive tracker that nobody drains was pushed there after the drain, and has been there since |
| PoolDrain.NothingStraysIff | src/pool.c:234-332 | from registration on, the rings of inactive trackers are empty outside their drains if and only if nothing is pushed to one after its drain |
| PoolDrain.InactiveAreEmptyWhenIdle | src/pool.c:234-332 | without such a push, nothing is pooled with an inactive tracker when all threads are idle |
| PoolDrain.StrayIsReached | src/pool.c:313-326 | a run from registration that pools a connection with an inactive tracker |
| SpillBuffer.File.WriteFull | src/file_download.c:89 | writes everything at the position, or as much as fits and an error |
| SpillBuffer.OverwriteAppend | src/file_download.c:89 | writing chunk after chunk is writing them all at once |
| SpillBuffer.OverwriteIsExactIff | src/file_download.c:118 | a write leaves exactly the written bytes if and only if it starts the file and reaches the old end |
| SpillBuffer.WriteBuffer.KeepInMemory | src/file_download.c:149-153 | one more memory bucket, within the limit |
| SpillBuffer.WriteBuffer.AppendToFile | src/file_download.c:88-93 | the chunk, or what fits of it, follows what was written; the sizes grow even when the write fails |
| SpillBuffer.WriteBuffer.CopyBuckets | src/file_download.c:124-138 | the memory buckets, or what fits of them, are copied to the new file in order |
| SpillBuffer.WriteBuffer.StartSpill | src/file_download.c:94-148 | the chunk that passes the limit is taken if and only if the file opens and has room for what is moved to it; then nothing is lost, and otherwise the file has exactly what fitted |
| SpillBuffer.WriteBuffer.Receive | src/file_download.c:83-156 | exactly when a chunk is taken whole; then it is added to the bytes held, and there is a file exactly when the total passed the limit; taken or refused, memory stays within the limit, the clean-up can remove what was added, and the file is its old content overwritten by exactly what was written |
| Download.Perform | src/file_download.c:234-248 | a transfer succeeds if and only if it completes and every chunk is taken; it has then handed over exactly the concatenated chunks, and whether or not it succeeds the file has exactly what its chunks and the disk determine |
| Download.RoomyIsTaken | src/file_download.c:83-156 | a disk with room for everything takes every chunk, whatever the sink |
| Download.DeleteAfter | src/file_download.c:263-274 | the roll-back leaves the buckets that were there before |
| Download.GetIntoFile | src/file_download.c:183-261 | exactly the bytes that were taken overwrite the caller's file from its position on, all others are kept, and it is rewound if and only if the replica sent anything |
| Download.GetIntoBrigade | src/file_download.c:187-280 | exactly when it succeeds; success adds memory buckets within the limit and, past it, one file bucket, together the content; failure adds no bytes |
| Download.GetBytesOrFile | src/file_download.c:281-305 | exactly when it succeeds; the content as bytes within the limit, past it as a rewound file that starts with the content and goes on with what the destination held beyond it, so is the content alone if and only if that was not longer; what the destination holds after a success or a failure |
| Download.FileSystemGet | src/file_download.c:309-355 | replicas in order up to the first that arrived and, when a length is required, has it, its length reported; every other one that arrived had another length, and on failure all were tried; each with the outcome its chunks, the disk, the limit and the sink determine; the brigade gains everything successful transfers delivered, the winner last and within the memory limit, and holds no more in memory than the answers can; the caller's file, or the spilled one, or the destination path while nothing is open, is exactly what all tries made of it, failed ones included; without a file the bytes are the winner's |
| Download.BrigadeIsCleanIff | src/file_download.c:333-351 | on success the brigade gains the winner's content alone, on failure nothing, if and only if every answer of the wrong length was empty |
| Download.CleanForAllIff | src/file_download.c:333-348 | the brigade is clean whatever the replicas do if and only if no length is required |
| Download.WithoutRequiredLength | src/file_download.c:344-348 | without a required length success delivers the winner's content and failure nothing |
| Download.MismatchStays | src/file_download.c:335-337 | the bytes of a replica of the wrong length stay in front of the winner's |
| Download.GetAfterShortReply | src/file_download.c:335-337 | a call that leaves them there, and three bytes in memory with a limit of two |
| SinkFile.CallersFile | src/file_download.c:253-261 | after any tries, the position of the caller's file is 0 if and only if it was, or some replica sent something, and the length is the furthest any write or the old content reached |
| SinkFile.CallersFileIsExactIff | src/file_download.c:253-261 | where the winner's content stands in the caller's file, and that it is all of the file if and only if it starts at 0 and nothing held or written before reaches beyond it |
| SinkFile.FirstToSend | src/file_download.c:183-186 | when no replica before the winner sent anything, only the bytes from the caller's position on are overwritten |
| SinkFile.FileIffSpills | src/file_download.c:281-292 | without a sink, there is a file if and only if some answer arrived and passed the memory limit |
| SinkFile.SpilledFileIsExactIff | src/file_download.c:94-148 | the spilled file starts with the winner's content, and is that alone if and only if none of these is longer: what the destination path held, what earlier failed transfers of the call left there, the answers written to the file since |
| SinkFile.LongerAnswerShows | src/file_download.c:335-337 | a longer refused answer leaves its last bytes behind the accepted one |
| SinkFile.GetAfterBrokenSpill | src/file_download.c:117-118 | a call in which a transfer spills everything and breaks off: the file handed back for the next, shorter answer ends with the first one's bytes |
| Upload.ClosesAreJustified | src/file_upload.c:260-339 | in every run each create_close follows a complete PUT to the same path in the same attempt, states the size sent, and carries the triple the last create_open found, made in that attempt or the one before; every PUT goes to a path so found |
| Upload.RunEnds | src/file_upload.c:260-350 | at most max_retries attempts; success exactly when the last event is an acknowledged create_close, and no other one is acknowledged |
| Upload.RunIsTrue | src/file_upload.c:252-350 | over every run: each event is what the tracker or file server said in its attempt, attempts open, PUT, close and end the run exactly as those answers demand, and the run succeeds if and only if it came to a create_close the tracker accepted |
| Upload.TripleProvenance | src/file_upload.c:252-331 | in every run, each of a create_close's path, fid and devid is the one given by the last reply of any tracker that named it, rejected replies included, up to and with the last create_open, which was good |
| Upload.TripleIsOwnIff | src/file_upload.c:263-284 | in every run, all three come from the one answer that create_open ended with if and only if that answer named all three |
| Upload.FullRepliesAreReturned | src/file_upload.c:260-331 | when every good create_open ended with an answer of all three fields, each create_close returns one such answer unmixed |
| Upload.TripleIsOneReplysIff | src/file_upload.c:252-331 | in every run, the three come from one tracker's reply if and only if the last reply that named any of them named all |
| Upload.OneCallMixes | src/request.c:53-61 | a run whose only create_open asks two trackers and whose create_close mixes their replies |
| Upload.StaleFieldsAreSent | src/file_upload.c:263-331 | a run whose create_close mixes the path of one reply with the fid and devid of another |
| Upload.CooperativeRunSucceeds | src/file_upload.c:260-350 | when everything answers, the first attempt opens, stores the whole source and closes with the triple the replies gave |
| Upload.EnoughAsksSupplyAll | src/file_upload.c:74-98 | callbacks asked for enough supply the whole source |
| Upload.SuppliedIsAsked | src/file_upload.c:74-98 | callbacks that succeed supply what they are asked for, up to the end of the source |
| Upload.FailedReadStops | src/file_upload.c:100-115 | nothing is read after a file read has failed |
| Upload.PutSendsAll | src/file_upload.c:182-201 | a PUT for which cURL saw the announced size supplied has sent the whole source, and that size is the source's length |
| Upload.ReadBuffer.Read | src/file_upload.c:74-98 | the next bytes in order, nothing only at the end |
| Upload.Transmit | src/file_upload.c:74-115 | what the callbacks supply until cURL stops asking |
| Upload.ServerPut | src/file_upload.c:127-227 | resolves the size and transmits |
| Upload.Attempt | src/file_upload.c:260-340 | one attempt is RunRound, of which RunIsTrue says what it does |
| Upload.StoreFileOrBytes | src/file_upload.c:229-350 | the retry loop is RunStore, and its log is the story the answers tell, for every source, world and limit |
| Registry.OneServerPerHost | src/file.c:110-163 | over every interleaving at most one server is made for a host, and each one made is registered under it |
| Registry.SameHostSameServer | src/file.c:110-163 | two answers for a host, by any threads at any points of a run, are the same server |
| Registry.RunConsistent | src/file.c:110-163 | nothing registered is ever replaced or removed |
| Registry.UndisturbedLookup | src/file.c:110-163 | a thread alone gets the registered server, or a new one that is then registered, or a refusal that changes nothing |
| Registry.FileServers.WriteLookup | src/file.c:132-161 | the write-locked section looks again and creates only what is missing |
| Registry.FileServers.GetFileServer | src/file.c:110-163 | a lookup alone: the registered server, a new one, or a refusal that changes nothing |

## Left out

- Sockets, cURL options, file system calls and APR pools are foreign: their outcomes are arguments. Lock operations and allocation succeed.
- A file keeps its content during an upload.
- The list functions test the count before they take the lock (src/pool.c:144, src/pool.c:164); test and copy are one step here.
- remove_from_array reads one cell past the length (src/pool.c:206-213); the arrays have that cell, with any value.
- The start of a walk is any index of the snapshot; its distribution is not modelled.
- 32-bit overflow of counts and lengths is not modelled; lists and buffers are smaller than that.
- In PoolMachine and Request a ring is a sequence; ConnectionRing proves the pointer operations against the same functions.
- PoolMachine covers locked sections and waits of requests and maintenance; registration happens before it starts, and starting and stopping the maintenance thread is process control.
- The name of a spill file is not modelled (src/file_download.c:101-117), only what is at the destination path; temporary files are always new.
- The bytes result of a download is an output value; the wrappers that pass no place for it are left out (src/file_download.c:357-370).
- A failed stat returns without giving the HTTP connection back (src/file_upload.c:193-196); HTTP connections are not modelled.
- RequestLine.BuildRequest: is stated for lists without raw metadata, because the source renders copies only (src/tracker.c:120), and a copy has none (MetadataRoundTrip.CopyHasNoRaw).
- Upload.PutSendsAll: that cURL reports success only when it was supplied the announced number of bytes is part of the model of cURL, not proved.
- MetadataRoundTrip.MetadataArrivesIff: starts the copy from an empty list, as the upload does (src/file_upload.c:244-246); Parameters.CopyNumbersMetadata covers copies into any list.
- Parameters.ParameterList.CopyFrom: is stated for two lists that share no node, because copying a list into itself does not end.
- Download.FileSystemGet: is stated for at least one path, which mfs_get_paths guarantees (src/file.c:205), and for brigades without a destination path, as the one caller with a brigade passes none (src/file_download.c:367-370).
- Watch streams, directory listings, the other tracker commands, logging and the test servers would only add easy members.
