# Verified models of a distributed-systems repository

Seven programs of the repository are modelled here in Dafny 4.11 and their central
properties are proved for every input, every run or every interleaving. `dafny verify
dfyconfig.toml` checks the whole project; each module depends only on the ones it imports.

| part | modules | programs |
|---|---|---|
| distance-vector routing | `RouterTables`, `RouterProcess`, `RouterNet`, `RouterExact`, `RouterLoopFree`, `RouterStaleRun`, `RouterStorm` | `router/router.c` |
| content-defined chunking | `Fingerprint`, `GreedyChunks`, `TornChunks`, `ChunkerStates`, `ChunkerProcess` | `cloud storage with de-duplication/MyDedup.java` |
| de-duplicating store | `DedupIndex`, `StorageProcess`, `Metadata`, `MetadataFormat`, `Sessions` | the same file |
| parallel breadth-first search | `BfsGraph`, `BfsRounds`, `BfsRuns`, `BfsProcess` | `ParallelBF/ParallelBfs.java` |
| shell line checker and pipelines | `ShellSyntax`, `ShellAcceptance`, `ShellSplit`, `ShellProcess` | `shell/osShell.c` |
| condition-variable protocols | `RingBuffer`, `SlotPool` | `pthread_producer_consumer.c`, `ftp/myftpserver.c` |
| header editor | `HeaderLines`, `HeaderProcess` | `proxy server/myproxy.c` |

`Sums` and `Wrappers` hold shared helpers.

Each program that works on mutable state has a `...Process` module (or a class at the end of
its module) with the loops and assignments of the source, whose methods are proved against
specification functions on values. The main results are lemmas about those functions.

## What is proved, in the systems' own terms

**Routing.** Routers exchange rows over FIFO channels; one handled message is one step. The
distance-vector algorithm is that of section 3.4 of RFC 2453 with 10000 as infinity and -1 as
"none". In every state of every run the own row is the minimum over the stored rows, and a
router that has announced since its last UPDATE has told each neighbour its current row.
Hence in-sync tables hold the exact cheapest path costs (positive link costs make the fixed
point unique). In a static topology forwarding is loop free in every reachable state, not only
at rest. A storm of DVMSG steps ends from *every* reachable state, also after UPDATEs, when
costs count up towards infinity: an exponential energy falls with every message, although each
may cause N - 1 new ones; without UPDATEs a polynomial potential falls as well. Once some link
has changed, a routing entry can be stale, because recomputing rewrites an entry only when the
cost changes and never withdraws one. `RecomputeKeepsRouteIff` says exactly when it is right,
`UpdateKeepsRouteIff` and `RowKeepsRouteIff` for the two callers: an UPDATE of the own link, and a
DVMSG that brings a neighbour's worse row. `StaleWithoutUpdate` is a run of seven steps that leaves a
stale entry at a router which never had an UPDATE.

**Chunking.** Under 64-bit wrap-around and Java's signed remainder the rolling fingerprint stays
congruent modulo 2^32 to the polynomial of the current window, and the masked test is the test
on the true residue. The chunking loop, which refills and shifts one buffer in place, is
proved for files of any length to upload exactly what `TornChunks.FileOutcome` says directly on
the file. A chunk is *torn* when it starts before a refill of the buffer and is cut only after it.

- The uploads are the chunks of a simple greedy cutter **if and only if** no chunk but the last is
  torn. Files that fit in one buffer are never torn.
- A torn chunk that ends at an anchor is uploaded without its last bytes, as many as were carried
  over the refill. The backup counter, never reset, prolongs the last upload by as many stale bytes
  of the carry buffer. A torn chunk that ends at the maximum size overruns the carry buffer, and the
  rest of the file is lost.
- Hence as many bytes are uploaded as the file has **if and only if** no torn chunk is closed by the
  maximum size, and all carried bytes and the last chunk together fit in the maximum.
- The uploaded bytes are the file's own **if and only if** moreover, from each chunk on, the file
  repeats itself at the distance of the bytes left out so far, and the stale bytes are its last ones
  (`Survives`). Files without torn chunks do. A survivor with a torn chunk has a period behind it: the
  number of bytes carried, from that many bytes before its end on (`SurvivorHasPeriod`).
- `TornFileIsCutShort`, `TornFileIsScrambled` and `TornFileSurvives` are torn files of each kind, for
  every maximum size from 4 bytes on and every buffer of at least 4 bytes, the program's 4 MiB or
  4 * x included.

**Store.** With checksums that do not collide on the chunks seen, any run of uploads, downloads
and deletions of files, each with its own chunking parameters, behaves as a plain map from paths to
files: the same paths, and under each path the file's own bytes if and only if the file survives
chunking, as every file without torn chunks does. Reference counts equal the
occurrences over all file lists, objects exist exactly for their records, deletion frees
exactly what no other file uses. The metadata text restores the index, in any map iteration
order, if and only if paths and checksums are clean. `Sessions` puts the two together: the
program is started once per command, and over any such history the disk still represents the
uninterrupted run.

**Breadth-first search.** Rounds of map, shuffle and reduce, with any split of the input and any
order of shuffled values. After k >= 1 rounds a node is black iff it is fewer than k hops from
the source and grey iff it is exactly k hops away, although the source is expanded again in
every round. The loop ends after one round more than the greatest finite hop distance. The
output is exactly the reachable nodes with distances saturated at 100000 if and only if the
source has an outgoing edge.

**Shell.** The seven-state checker, with its counters and its look back at the previous token's
type, accepts exactly the lines of a separately stated grammar. For accepted lines without
built-in commands, splitting recovers the words of each command, the files and the append mode, and
stage i writes the pipe that stage i + 1 reads. The argument vectors are modelled cell by cell, unset
memory included: each command finds exactly its own words as arguments **if and only if** the line
has a pipe. `LsHasNoTerminator` is the shortest line for which it does not.

**Condition variables.** For the ring buffer: stream equality, one slot always free, a resumed
thread never finds its condition still true, never both waiting. For the connection slots: the
counter equals the occupied slots, no shared slot, the scan always finds a vacancy. No wakeup is
lost in either. Both wait under `if`, so spurious wakeups are excluded;
`SpuriousWakeupLosesTheRing` shows what one would do.

**Header editor.** On any well-formed header block that fits the buffers, both `Connection` and
`Proxy-Connection` read "close" after the preparation if and only if neither was present with an
empty value, and every other line is unchanged. Field names are matched exactly as the code
matches them, case included, although section 3.2 of RFC 7230 makes them case-insensitive.

## Where code and expectation differ

- After an UPDATE, or a DVMSG with a worse row, the code leaves the old next hop on a tie, and
  leaves the entry available when no path is left (`router/router.c:292-299`).
- The cut branch of the chunker counts and uploads only the bytes in the current buffer
  (`MyDedup.java:399-410`), and the backup counter is never reset. Torn files are therefore cut short
  by an out-of-bounds copy, or lose their last chunk, or keep their length with other bytes, or, when
  they happen to repeat themselves, survive. The reported file size is right in all cases but the
  first.
- The row of the first command is allocated again after all rows were filled with NULL, and the last
  token puts its NULL one cell behind the next free one (`osShell.c:420`, `osShell.c:447-448`). So in a
  line without a pipe a cell that was never written stands between the words and the NULL; only a
  pipe (`osShell.c:430`) terminates the first row. Nine words overrun the ten cells.
- A source without outgoing edges gets no record, so the search outputs nothing at all.
- Downloading a path without chunks, as an empty file leaves it, deletes the target file and creates
  none (`MyDedup.java:561-578`).
- `modifyValue` leaves a field with an empty value as it is. `insertValue` would drop everything
  after the first blank line, but its caller never has anything there: `msgReceiver` ends the
  message after the blank line (`myproxy.c:95-104`).

## Model

| member | source | states |
|---|---|---|
| RouterProcess.Router.constructor | router/router.c:180-195 | a fresh router knows distance 0 to itself, no link, no route and no other distance |
| RouterProcess.Router.MapTopology | router/router.c:101-136 | the topology lines that start at this router become its links, its own row and its direct routes; nothing else changes |
| RouterProcess.Router.SetNextHop | router/router.c:94-100 | marks the entry of the destination available with this next hop and cost, all others untouched |
| RouterProcess.Router.MinDV | router/router.c:240-281 | finds the least sum of link cost and stored distance over the neighbours with one, at the first such neighbour, and none exactly when every sum is 10000 or more |
| RouterProcess.Router.RecomputeEntry | router/router.c:291-300 | one own entry becomes the minimum, every other distance stays; the route is rewritten exactly when the cost changes and a path exists |
| RouterProcess.Router.Recompute | router/router.c:283-307 | the in-place loop equals recomputing every entry from the tables as they were before it, and reports a change exactly when the own row differs |
| RouterProcess.Router.UpdateFunc | router/router.c:386-393 | sets one link, 1000 meaning none and every other weight itself, leaves all other links and the stored rows alone, recomputes, sends nothing |
| RouterProcess.Router.DvFunc | router/router.c:363-384 | sends the own row to every current neighbour, once each, in list order |
| RouterProcess.Router.Routing | router/router.c:435-452 | stores the neighbour's row and leaves the links and the other stored rows alone, recomputes, and exactly when the own row changed sends it to every current neighbour, once each, and to nobody else |
| RouterTables.ChosenIsUnique | router/router.c:240-281 | least cost, first-neighbour tie break and the cut-off at 10000 determine the choice |
| RouterTables.MinDVIgnoresOwnRow | router/router.c:253-274 | the minimum does not read the own row, so the in-place loop is safe |
| RouterTables.RecomputedEntryShows | router/router.c:287-302 | a change at one destination is never undone by a later one, so the change flag is exact |
| RouterTables.RecomputedBelowAll | router/router.c:283-307 | the sequence of in-place entry updates equals one simultaneous recomputation |
| RouterTables.RecomputeIsIdempotent | router/router.c:283-307 | recomputing twice changes nothing the second time |
| RouterNet.InitialTablesAreMinimal | router/router.c:101-136 | initial own rows are already the minimum over the stored rows |
| RouterNet.RecomputedIsMinimal | router/router.c:283-307 | after a recomputation every own entry is the minimum over the stored neighbour rows |
| RouterNet.NextInv | router/router.c:413-479 | every DV, UPDATE and DVMSG step keeps the own rows minimal and keeps the news of announced routers out |
| RouterNet.ReachableInv | router/router.c:413-479 | so does every run: the last row queued to, or stored at, a neighbour of a router that announced since its last UPDATE is its current row |
| RouterNet.UpdateOpensOrCloses | router/router.c:386-393 | in every reachable network UPDATE with a weight below 10000 other than 1000 opens the link and leaves a way to the neighbour of at most that cost; 1000 closes it; no other link, router or channel changes |
| RouterNet.Announced | router/router.c:363-384 | DV appends the own row to the channel of every current neighbour and changes nothing else |
| RouterNet.DeliveredInFull | router/router.c:435-452 | DVMSG takes the oldest row, stores it and recomputes; the own row goes to every current neighbour exactly when it changed |
| RouterExact.OwnIsLowerBound | router/router.c:240-306 | in sync, no walk along current links is cheaper than the own entry |
| RouterExact.OwnIsAttained | router/router.c:240-306 | in sync, each own entry is the cost of an actual walk |
| RouterExact.InSyncIsExact | router/router.c:240-306 | in sync, every own entry is the exact cheapest cost below 10000, and -1 exactly when every walk costs at least that |
| RouterExact.CheapestIsUnique | router/router.c:240-306 | the cheapest cost depends on the links alone |
| RouterExact.QuietIsInSync | router/router.c:363-393 | all routers announced, symmetric links and empty channels put all tables in sync |
| RouterExact.QuietRunsAreExact | router/router.c:363-452 | hence after any run that ends so, every router knows the exact cheapest cost to every destination |
| RouterLoopFree.BetterRowKeepsRoute | router/router.c:292-299 | a smaller row from a neighbour never leaves a stale route behind |
| RouterLoopFree.NextStaticInv | router/router.c:435-452 | in a static topology every step keeps: stored row >= queued rows >= sender's row, and routes agree with the tables |
| RouterLoopFree.ReachableStaticInv | router/router.c:94-100 | that holds in every state reachable without UPDATE |
| RouterLoopFree.NextHopIsCloser | router/router.c:94-100 | the next hop is a neighbour whose own cost plus the link is at most the entry's path cost |
| RouterLoopFree.FollowRoutes | router/router.c:94-100 | following next hops from a router with an entry reaches the destination within the entry's cost |
| RouterLoopFree.ForwardingIsLoopFree | router/router.c:94-100 | in every reachable state of a static topology forwarding visits no router twice, reaches the destination, and its real link cost is at most the path cost |
| RouterLoopFree.RecomputeKeepsRouteIff | router/router.c:283-307 | whatever link or row changed before, recomputing leaves a route right if and only if there was none, or a path is left and its cost changed or the old next hop still offers the old cost |
| RouterLoopFree.UpdateKeepsRouteIff | router/router.c:292-299 | after UPDATE a route is still right if and only if it was absent, or a path is left and its cost changed, or the route avoids the link, or the link kept its cost |
| RouterLoopFree.RowKeepsRouteIff | router/router.c:435-452 | after DVMSG it is still right if and only if it was absent, or a path is left and its cost changed, or the route avoids the sender, or the new row keeps the distance |
| RouterLoopFree.StaleRouteExample | router/router.c:386-393 | a concrete network whose only link goes down keeps its dead route |
| RouterStaleRun.StaleWithoutUpdate | router/router.c:386-452 | a run from start-up, with one UPDATE at another router, after which a router that never had an UPDATE keeps its dearer next hop, because another neighbour ties |
| RouterStorm.SmallerWeighsMore | router/router.c:283-306 | a smaller distance outweighs 2N + 1 larger ones |
| RouterStorm.ChangeHasCause | router/router.c:283-306 | an own entry changes only because a value on the consumed channel was smaller than the new one |
| RouterStorm.TakePays | router/router.c:435-452 | at each destination the consumed value pays for all the values it causes |
| RouterStorm.DeliverLosesEnergy | router/router.c:435-452 | every DVMSG step lowers the energy, although it may send N - 1 new messages |
| RouterStorm.StormsEnd | router/router.c:435-452 | from every reachable state, also after UPDATEs, a storm has at most as many steps as the energy it starts with |
| RouterStorm.FinishedStormsAreExact | router/router.c:363-452 | when a storm over symmetric links, all routers announced, has ended, every router holds the exact cheapest costs of the topology it started in |
| RouterStorm.DeliverLosesPotential | router/router.c:435-452 | in a static topology messages in flight + N * (sum of own entries, -1 as 10000) falls at every DVMSG step |
| RouterStorm.StaticStormsEndSoon | router/router.c:435-452 | hence static storms end within that polynomial number of steps |
| Fingerprint.WrapsAndRemainders | cloud storage with de-duplication/MyDedup.java:213-255 | long and int overflow wrap modulo 2^64 and 2^32, and a remainder has the sign of its dividend |
| Fingerprint.ByteResidue | cloud storage with de-duplication/MyDedup.java:226-241 | a byte counts as its residue modulo 256 |
| Fingerprint.PolyOfBytes | cloud storage with de-duplication/MyDedup.java:226-233 | each byte counts with its residue modulo 256, the last one least |
| Fingerprint.AnchorOfTwoBytes | cloud storage with de-duplication/MyDedup.java:224-267 | the anchor test on a two-byte window, in plain numbers |
| Fingerprint.HighByteExample | cloud storage with de-duplication/MyDedup.java:240-241 | the bytes 01 FD are an anchor for base 3 and two bits, FD counting 253 |
| Fingerprint.SquareStep | cloud storage with de-duplication/MyDedup.java:213-223 | one square-and-multiply step keeps the accumulated power congruent to d^m modulo 2^32 |
| Fingerprint.FirstRFPCong | cloud storage with de-duplication/MyDedup.java:224-237 | the first fingerprint is congruent to the polynomial of the first window, under wrap-around and signed remainders |
| Fingerprint.PolySlide | cloud storage with de-duplication/MyDedup.java:238-248 | sliding the window is multiplying, dropping the head term and adding the tail |
| Fingerprint.NextRFPCong | cloud storage with de-duplication/MyDedup.java:238-255 | one slide keeps the fingerprint congruent to the window, in 64-bit arithmetic with signed remainders |
| Fingerprint.RollingIsDirect | cloud storage with de-duplication/MyDedup.java:213-255 | after any number of slides the fingerprint is congruent modulo 2^32 to the direct polynomial of the window |
| Fingerprint.BitAndOnes | cloud storage with de-duplication/MyDedup.java:258 | masking with 2^b - 1 is the remainder modulo 2^b |
| Fingerprint.MaskedBits | cloud storage with de-duplication/MyDedup.java:258 | truncating to int and masking with 2^b - 1 leaves the residue of the 64-bit fingerprint modulo 2^b |
| Fingerprint.AnchorTestIsDirect | cloud storage with de-duplication/MyDedup.java:256-267 | the test on the truncated fingerprint equals the test on the true hash modulo 2^min(b,32) |
| GreedyChunks.GreedyCoversFile | cloud storage with de-duplication/MyDedup.java:324-468 | the greedy chunks concatenate to the file |
| GreedyChunks.GreedySizes | cloud storage with de-duplication/MyDedup.java:400-411 | every chunk but the last has length in [m, x], none is longer than x or empty |
| GreedyChunks.GreedyCutsAt | cloud storage with de-duplication/MyDedup.java:400-411 | the next chunk ends at the least length with an anchor or the maximum size |
| GreedyChunks.FirstGreedyChunk | cloud storage with de-duplication/MyDedup.java:399-411 | the first chunk ends with the file, or has at least m bytes and the maximum size or a last window whose hash is divisible by 2^min(b,32) |
| GreedyChunks.NoShorterChunk | cloud storage with de-duplication/MyDedup.java:399-411 | and no shorter piece of at least m bytes has either |
| GreedyChunks.Resynchronises | cloud storage with de-duplication/MyDedup.java:389-438 | two files with a common suffix and a cut just before it have identical chunks from there on |
| GreedyChunks.OneBufferIsIntact | cloud storage with de-duplication/MyDedup.java:416-438 | a file of at most one buffer is never torn |
| TornChunks.GreedyIffIntact | cloud storage with de-duplication/MyDedup.java:389-438 | the uploads are the greedy chunks exactly for files without torn chunks, and then nothing is thrown or refused |
| TornChunks.UploadsResynchronise | cloud storage with de-duplication/MyDedup.java:389-438 | the uploads of two intact files, even with different buffers, are identical from a cut before their common end on |
| TornChunks.LengthKeptIff | cloud storage with de-duplication/MyDedup.java:399-460 | as many bytes are uploaded as the file has, if and only if no torn chunk is closed by the maximum size and the last upload, with everything ever carried, fits in the maximum; otherwise fewer; the reported sizes add up unless a copy was out of bounds |
| TornChunks.ContentKeptIff | cloud storage with de-duplication/MyDedup.java:399-460 | the uploaded bytes are the file's if and only if no torn chunk is closed by the maximum size, the last upload fits, and the file repeats itself at the distance of the bytes left out |
| TornChunks.IntactSurvives | cloud storage with de-duplication/MyDedup.java:389-438 | a file without torn chunks keeps its bytes |
| TornChunks.SurvivorHasPeriod | cloud storage with de-duplication/MyDedup.java:399-457 | a torn file that survives repeats, behind its first torn chunk, the last bytes of that chunk with the number of carried bytes as period, up to the next loss, or to its end when no other chunk is torn |
| TornChunks.TornFileIsCutShort | cloud storage with de-duplication/MyDedup.java:419-426 | for every maximum and every buffer of at least 4 bytes: a file whose carried chunk reaches the maximum is cut short |
| TornChunks.TornFileIsScrambled | cloud storage with de-duplication/MyDedup.java:399-457 | for every maximum and every buffer of at least 4 bytes: a torn file of which as many bytes, but other ones, are uploaded without any error |
| TornChunks.TornFileSurvives | cloud storage with de-duplication/MyDedup.java:399-457 | for every maximum and every buffer of at least 4 bytes: a torn file whose bytes are all uploaded, so that being intact is sufficient but not necessary |
| ChunkerStates.CutTest | cloud storage with de-duplication/MyDedup.java:399-402 | the loop's test at a byte is the greedy cutter's test there |
| ChunkerStates.CutDecision | cloud storage with de-duplication/MyDedup.java:400-411 | at each byte the loop follows the outcome defined on the file, or has missed a forced cut of a carried chunk, after which every copy throws |
| ChunkerStates.FlushStep | cloud storage with de-duplication/MyDedup.java:416-438 | carrying the unfinished chunk over keeps that; a copy that overflows here means that the outcome is already decided |
| ChunkerStates.LastStep | cloud storage with de-duplication/MyDedup.java:450-460 | the last upload, with the carried bytes of all chunks, completes the outcome of the file |
| ChunkerStates.SmallFile | cloud storage with de-duplication/MyDedup.java:442-446 | a file of at most m bytes is one chunk |
| ChunkerProcess.ArrayCopy | cloud storage with de-duplication/MyDedup.java:360 | copies a range, or throws without effect when it is out of bounds |
| ChunkerProcess.Chunker.AnchorMask | cloud storage with de-duplication/MyDedup.java:474-478 | b left shifts of an int and a decrement leave 2^min(b,32) - 1 in the low 32 bits |
| ChunkerProcess.Chunker.SetDPowerM | cloud storage with de-duplication/MyDedup.java:213-223 | leaves a value congruent to d^m modulo 2^32 |
| ChunkerProcess.Chunker.SetFirstRFP | cloud storage with de-duplication/MyDedup.java:224-237 | leaves the first fingerprint of the given window |
| ChunkerProcess.Chunker.GetRFP | cloud storage with de-duplication/MyDedup.java:238-255 | advances the fingerprint by one byte |
| ChunkerProcess.Chunker.IsInterestedRFP | cloud storage with de-duplication/MyDedup.java:256-267 | true exactly when 2^min(b,32) divides the fingerprint |
| ChunkerProcess.Chunker.SlideWindow | cloud storage with de-duplication/MyDedup.java:394-400 | the fingerprint follows the window, and the test is whether the window is an anchor |
| ChunkerProcess.Chunker.CopyToCarry | cloud storage with de-duplication/MyDedup.java:406 | appends bytes of the block to the carry buffer, or throws without effect when one of the arrays is too short |
| ChunkerProcess.Chunker.CutChunk | cloud storage with de-duplication/MyDedup.java:402-410 | appends the buffered bytes to the carry and uploads only that many, or throws |
| ChunkerProcess.Chunker.CutIfDue | cloud storage with de-duplication/MyDedup.java:399-411 | the loop keeps following the outcome of the file at this byte, or throws as the outcome says |
| ChunkerProcess.Chunker.AppendToCarry | cloud storage with de-duplication/MyDedup.java:421-425 | the rest of the block joins the carry, the carry and backup counters grow by as much, the head returns to 0 |
| ChunkerProcess.Chunker.CarryOver | cloud storage with de-duplication/MyDedup.java:419-431 | moves the unfinished chunk to the carry, or the head back, or throws as the outcome says |
| ChunkerProcess.Chunker.FlushBlock | cloud storage with de-duplication/MyDedup.java:416-438 | shifts the last m + 1 bytes to the front and keeps tracking |
| ChunkerProcess.Chunker.ProcessBlock | cloud storage with de-duplication/MyDedup.java:390-439 | a whole block is tracked byte by byte |
| ChunkerProcess.Chunker.FirstWindow | cloud storage with de-duplication/MyDedup.java:356-365 | computes the first window's fingerprint and its test |
| ChunkerProcess.Chunker.FirstChunk | cloud storage with de-duplication/MyDedup.java:365-374 | uploads the first m bytes exactly when they are an anchor |
| ChunkerProcess.Chunker.LastChunk | cloud storage with de-duplication/MyDedup.java:449-460 | uploads what is carried and left, prolonged by everything carried before; completes the outcome of the file |
| ChunkerProcess.Chunker.OneBlock | cloud storage with de-duplication/MyDedup.java:354-441 | the body of the read loop, with its early end for a file of m + 1 bytes |
| ChunkerProcess.Chunker.Chunking | cloud storage with de-duplication/MyDedup.java:324-468 | for files of any length: uploads, refused sizes and exception are the outcome defined on the file; the uploads are the greedy chunks if and only if no chunk but the last is torn; their bytes are the file if and only if it survives; their number is the file size if and only if nothing is thrown or refused; the counter it returns is that of all chunks but the last |
| DedupIndex.PutChunkInv | cloud storage with de-duplication/MyDedup.java:145-160 | storing a chunk keeps reference counts equal to occurrences and objects equal to records |
| DedupIndex.PutChunkKeepsFetch | cloud storage with de-duplication/MyDedup.java:281-323 | without collisions a chunk already stored has the same bytes, so no file changes |
| DedupIndex.UploadIsInsert | cloud storage with de-duplication/MyDedup.java:469-507 | upload adds the path with the bytes of its chunks, and leaves an existing path alone |
| DedupIndex.DropRefsAccounts | cloud storage with de-duplication/MyDedup.java:594-629 | dropping a file's references keeps the accounts and every other file's bytes |
| DedupIndex.DeleteIsRemove | cloud storage with de-duplication/MyDedup.java:589-635 | delete removes the path and nothing else |
| DedupIndex.DeleteFreesUnused | cloud storage with de-duplication/MyDedup.java:600-627 | delete frees exactly the records and objects that no other file references |
| DedupIndex.ListedIsStored | cloud storage with de-duplication/MyDedup.java:508-556 | every chunk a file lists is recorded and its object is there with the recorded size |
| DedupIndex.PutChunkSize | cloud storage with de-duplication/MyDedup.java:288-292 | the indexed size grows by the chunk's size exactly when the chunk is new |
| DedupIndex.DropRefSize | cloud storage with de-duplication/MyDedup.java:600-604 | the indexed size shrinks by the chunk's size exactly with its last reference |
| DedupIndex.RunIsPlainMap | cloud storage with de-duplication/MyDedup.java:469-635 | every run of uploads and deletions of files behaves as a plain map from paths to files: the same paths, under each path the file's bytes if and only if the file survives chunking, with the accounts kept |
| DedupIndex.DownloadInRun | cloud storage with de-duplication/MyDedup.java:557-588 | a download inside a run finds its path exactly when something live was put there, and yields the file's own bytes if and only if the file survives chunking |
| DedupIndex.RunStoresUploads | cloud storage with de-duplication/MyDedup.java:469-635 | in every run each path holds the bytes that chunking made of the file last put there, whether torn or not |
| DedupIndex.IntactRunIsPlainMap | cloud storage with de-duplication/MyDedup.java:469-635 | a run that puts only files without torn chunks holds exactly their bytes |
| StorageProcess.Storage.InsertChunkRecord | cloud storage with de-duplication/MyDedup.java:145-160 | appends the checksum to the file record and counts or creates the chunk record |
| StorageProcess.Storage.InsertFileRecord | cloud storage with de-duplication/MyDedup.java:161-175 | creates an empty file record unless the path is taken |
| StorageProcess.Storage.UploadChunk | cloud storage with de-duplication/MyDedup.java:281-323 | a known checksum gains a reference, a new one is recorded and stored under the given backend; the counters move by exactly the growth of the index |
| StorageProcess.Storage.UploadChunks | cloud storage with de-duplication/MyDedup.java:324-468 | the chunks of a file are stored in order |
| StorageProcess.Storage.Chunking | cloud storage with de-duplication/MyDedup.java:324-468 | stores the chunks of the file's outcome in order; refused chunks are counted all the same |
| StorageProcess.Storage.Upload | cloud storage with de-duplication/MyDedup.java:469-507 | a new path gets the chunks of the file's outcome, torn or not; they are the file's bytes if and only if it survives, in particular when it is intact; all chunks are counted, the refused one too, and the reported size is the file size unless a copy was out of bounds; a taken path changes no counter; the deduplicated size is the growth of the index |
| StorageProcess.Storage.GetChunk | cloud storage with de-duplication/MyDedup.java:508-556 | appends the stored bytes of the chunk |
| StorageProcess.Storage.Retrieve | cloud storage with de-duplication/MyDedup.java:567-578 | fetches and appends every listed chunk in order and sums the sizes |
| StorageProcess.Storage.Download | cloud storage with de-duplication/MyDedup.java:557-588 | leaves exactly the bytes of the path in the target file, no target file at all for a path without chunks, and an unknown path alone; reports the distinct chunks and their total size |
| StorageProcess.Storage.SumSizes | cloud storage with de-duplication/MyDedup.java:580-584 | sums the sizes of the distinct chunks in any order |
| StorageProcess.Storage.DropReference | cloud storage with de-duplication/MyDedup.java:596-628 | drops one reference, and record and object with the last one; counters move by exactly the shrinkage |
| StorageProcess.Storage.Delete | cloud storage with de-duplication/MyDedup.java:589-635 | the new state after deletion; the reported deleted size is the shrinkage of the index |
| Metadata.PrintedLongParses | cloud storage with de-duplication/MyDedup.java:101-103 | a printed long is one word and parses back |
| Metadata.TokensAreWords | cloud storage with de-duplication/MyDedup.java:93-94 | tokens are never empty and hold no delimiter |
| Metadata.TokensOfJoin | cloud storage with de-duplication/MyDedup.java:93-114 | words joined by blanks are tokenised back; an empty last one leaves no token |
| Metadata.SplitOfJoin | cloud storage with de-duplication/MyDedup.java:118-124 | a comma-joined list is split back when no element has a comma and the last is not empty |
| Metadata.SplitIsClean | cloud storage with de-duplication/MyDedup.java:120 | whatever split yields is such a list |
| Metadata.ChunkLineParses | cloud storage with de-duplication/MyDedup.java:97-112 | a written chunk line is read back as the same record |
| Metadata.FileLineParses | cloud storage with de-duplication/MyDedup.java:113-127 | a written file line is read back, also with an empty chunk list |
| Metadata.ParsedRowIsClean | cloud storage with de-duplication/MyDedup.java:95-130 | whatever is read from a line could have been written |
| Metadata.RoundTrip | cloud storage with de-duplication/MyDedup.java:89-131 | reading what was written restores the index, for any listing order, if and only if its paths and checksums are clean |
| Metadata.LoadLine | cloud storage with de-duplication/MyDedup.java:92-130 | reads one line: first of duplicate chunks kept, last of duplicate files kept, exceptions on missing or bad numbers |
| Metadata.Load | cloud storage with de-duplication/MyDedup.java:85-143 | the reading loop computes the parse of the whole text, or the exception |
| Metadata.WriteList | cloud storage with de-duplication/MyDedup.java:193-198 | the inner loop writes the comma-joined list |
| Metadata.WriteChunks | cloud storage with de-duplication/MyDedup.java:181-188 | the first loop writes every chunk once, in any order |
| Metadata.Update | cloud storage with de-duplication/MyDedup.java:176-211 | writes every entry exactly once, chunks first, each map in any order; the flag says whether anything was written; clean indexes read back |
| MetadataFormat.Characters | cloud storage with de-duplication/MyDedup.java:96 | the delimiters of words and the ends of lines, as characters |
| MetadataFormat.DecimalText | cloud storage with de-duplication/MyDedup.java:189 | numbers are written in decimal with a minus sign in front |
| MetadataFormat.LineText | cloud storage with de-duplication/MyDedup.java:184-201 | the text of a chunk line and of a file line |
| MetadataFormat.TokenLaws | cloud storage with de-duplication/MyDedup.java:96-97 | tokenising: delimiters are skipped, a word reaches to the next one |
| MetadataFormat.SplitLaws | cloud storage with de-duplication/MyDedup.java:118 | splitting keeps every part but the empty ones at the end, and a string without commas whole |
| MetadataFormat.DigitsLaws | cloud storage with de-duplication/MyDedup.java:105-107 | decimal digits, the last one least |
| MetadataFormat.SignLaws | cloud storage with de-duplication/MyDedup.java:105-107 | one sign in front, and the range of a long |
| MetadataFormat.LongRange | cloud storage with de-duplication/MyDedup.java:105-107 | the range of a long, in decimal |
| MetadataFormat.ReadLineLaws | cloud storage with de-duplication/MyDedup.java:94 | a line ends at a line feed, a carriage return, both, or the end of the text |
| MetadataFormat.LineOfWords | cloud storage with de-duplication/MyDedup.java:96-130 | the first letter of a line decides its kind, missing words and bad numbers throw, other lines are skipped |
| MetadataFormat.OneMoreLine | cloud storage with de-duplication/MyDedup.java:109-126 | the first record of a checksum stays, the last list of a path counts |
| MetadataFormat.FormatExample | cloud storage with de-duplication/MyDedup.java:89-211 | a whole metadata text, written and read |
| Sessions.SavedIsRepresented | cloud storage with de-duplication/MyDedup.java:689 | what an exit leaves on the disk is what the next start reads |
| Sessions.HistoryIsRun | cloud storage with de-duplication/MyDedup.java:637-694 | over any history of one command per start the disk represents the uninterrupted run |
| Sessions.HistoryIsPlainMap | cloud storage with de-duplication/MyDedup.java:637-694 | so over all starts: the disk holds a store with the same paths, and under each the uploaded file's bytes if and only if the file survives chunking |
| BfsGraph.WalkIsInBall | ParallelBF/ParallelBfs.java:269-287 | a walk of k edges ends within k rounds' reach |
| BfsGraph.BallHasWalk | ParallelBF/ParallelBfs.java:269-287 | and each node in reach has such a walk |
| BfsGraph.LevelIsHopDistance | ParallelBF/ParallelBfs.java:269-287 | the first round that reaches a node is its shortest-walk length |
| BfsRounds.ReducedIsMerge | ParallelBF/ParallelBfs.java:305-349 | the reduced record has the least distance, the greatest colour and a real list if any value has one |
| BfsRounds.ReduceIgnoresOrder | ParallelBF/ParallelBfs.java:305-349 | any two orders of a key's values, with at most one real list, reduce to the same record |
| BfsRounds.ShuffleIsIrrelevant | ParallelBF/ParallelBfs.java:256-349 | in every round each key has at most one real list, so shuffle order and input split do not matter |
| BfsRounds.EmittedByRecord | ParallelBF/ParallelBfs.java:256-296 | what the mapper emits for the record of a node after k rounds: the node itself, and messages if it expands |
| BfsRounds.ValueBounds | ParallelBF/ParallelBfs.java:261-287 | no value is closer or darker than the node's record after the round, although the source expands every round |
| BfsRounds.ValueAttains | ParallelBF/ParallelBfs.java:261-287 | and some value attains both |
| BfsRounds.RoundAdvances | ParallelBF/ParallelBfs.java:256-349 | one round under any shuffle takes the records of k rounds to those of k + 1, sinks included |
| BfsRuns.RoundInvariant | ParallelBF/ParallelBfs.java:256-349 | after k >= 1 rounds: black iff fewer than k hops, grey iff exactly k, distance the saturated hop count, white infinite |
| BfsRuns.GrayIsFrontier | ParallelBF/ParallelBfs.java:338-343 | no record is grey exactly when the reach has stopped growing |
| BfsRuns.RemainingFalls | ParallelBF/ParallelBfs.java:443-451 | the number of nodes not yet black falls in every round that leaves a grey record |
| BfsRuns.RunLength | ParallelBF/ParallelBfs.java:443-451 | a run has exactly one round more than the greatest finite hop distance, or one round without a source record |
| BfsRuns.RunIsShortestDistances | ParallelBF/ParallelBfs.java:352-360 | the output is exactly the reachable nodes with saturated shortest distances if and only if the source has an outgoing edge |
| BfsProcess.ReduceParser | ParallelBF/ParallelBfs.java:219-233 | one record per start, distance 0 for the source |
| BfsProcess.Parse | ParallelBF/ParallelBfs.java:370-383 | groups the edges by start, each end as often as its edge occurs, in any arrival order |
| BfsProcess.MapIteration | ParallelBF/ParallelBfs.java:256-296 | the loop emits the node and one message per neighbour, in order |
| BfsProcess.ReduceIteration | ParallelBF/ParallelBfs.java:305-349 | the loop with its separate minimum and colour index computes the reduced record; counts grey records |
| BfsProcess.Shuffle | ParallelBF/ParallelBfs.java:385-413 | delivers exactly the values of a key, in an order the platform chooses |
| BfsProcess.Iteration | ParallelBF/ParallelBfs.java:385-413 | one job is one round; its counter is the number of grey records |
| BfsProcess.Output | ParallelBF/ParallelBfs.java:352-360 | writes the pair of each black record exactly as often as there is such a record; the ids of its pairs differ when those of the records do |
| BfsProcess.ParallelBfs | ParallelBF/ParallelBfs.java:415-472 | the whole program terminates, after greatest finite distance + 1 rounds; no node is written twice; its output is right exactly when the source has an outgoing edge, and empty otherwise |
| ShellSyntax.AcceptedParses | shell/osShell.c:58-177 | every accepted line is the rendering of a line of the grammar |
| ShellSyntax.LineIsAccepted | shell/osShell.c:58-177 | every line of the grammar is accepted, and its tokens get the types that the grammar gives them |
| ShellSyntax.AcceptsIsGrammar | shell/osShell.c:58-177 | acceptance is membership in the grammar, for token lists of any length |
| ShellAcceptance.AcceptedIsUnreserved | shell/osShell.c:38-45 | in an accepted line one of the seven reserved characters stands only in the operators <, >, >> and the pipe |
| ShellAcceptance.LegalIsUnreserved | shell/osShell.c:38-45 | a token is legal exactly when none of the seven reserved characters occurs in it |
| ShellAcceptance.CommandIsAccepted | shell/osShell.c:68-115 | a name without reserved characters that is not cd, exit, fg or jobs is accepted as a command, with such an argument too |
| ShellAcceptance.BuiltInIsAccepted | shell/osShell.c:72-82 | cd and fg are built-in with at most one argument, exit and jobs without any |
| ShellAcceptance.AcceptedCounts | shell/osShell.c:171-177 | an accepted line has at most two pipes and at most two redirections |
| ShellAcceptance.LongestShape | shell/osShell.c:58-177 | three commands with an input behind the first and an output behind the last are accepted |
| ShellSplit.SplitRecovers | shell/osShell.c:421-451 | splitting the typed tokens of a line yields its commands, its files and its append mode |
| ShellSplit.ArgumentsReadIff | shell/osShell.c:385-449 | what execvp reads from the final row of a command is its own words if and only if there are at least two commands and the row has room for the NULL |
| ShellProcess.Shell.CheckIllegal | shell/osShell.c:38-45 | true exactly when none of the seven reserved characters occurs |
| ShellProcess.Shell.CheckToken | shell/osShell.c:68-170 | one turn of the checker: new state, counters and recorded type, or the error |
| ShellProcess.Shell.CheckSyntax | shell/osShell.c:58-177 | reports an error exactly for lines outside the grammar; on success the type table is the parse's and the built-in flag is right |
| ShellProcess.Shell.SplitToken | shell/osShell.c:423-446 | one turn of the loop keeps the rows holding the words split so far |
| ShellProcess.Shell.Terminate | shell/osShell.c:447-448 | the last token puts a NULL one cell too far, or behind the row |
| ShellProcess.Shell.SplitLine | shell/osShell.c:417-451 | the splitting loop over tokens and types, with every cell it writes: words, the NULL of a pipe, and the last NULL or its overrun |
| ShellProcess.Shell.ProcessCreation | shell/osShell.c:287-392 | files are connected first, then pipes override them; an output file is opened, and truncated unless appended to, even if a pipe then takes its place; the arguments are what stands before the first NULL |
| ShellProcess.Shell.Launch | shell/osShell.c:454-520 | stage i is wired to pipes i - 1 and i, the ends to files or the terminal |
| ShellProcess.Shell.CmdExe | shell/osShell.c:398-520 | a checked line without built-ins is split into exactly the expected cells and wired as its parse says, and each process finds its own words as arguments if and only if the line has a pipe |
| ShellProcess.StagesFormChain | shell/osShell.c:341-366 | the processes of a checked line form one chain: process i writes a pipe that process j reads if and only if j is i + 1 |
| ShellProcess.EndsFollowRedirects | shell/osShell.c:298-340 | the first process reads the input file and the last one writes the output file, with its append mode; without them they have the streams of the shell |
| ShellProcess.LsHasNoTerminator | shell/osShell.c:417-449 | the accepted line ls leaves its argument vector without a NULL behind the word |
| ShellProcess.ParseIsUnique | shell/osShell.c:421-451 | two parses of the same tokens agree on commands, files and mode |
| RingBuffer.InsertAppends | shell/Example Program/chapter2_part6/pthread_producer_consumer.c:117-119 | insertion into a ring that is not full appends to its contents, across the wrap |
| RingBuffer.RemoveTakesFirst | shell/Example Program/chapter2_part6/pthread_producer_consumer.c:150-151 | removal from a ring that is not empty takes the first of its contents |
| RingBuffer.Capacity | shell/Example Program/chapter2_part6/pthread_producer_consumer.c:12-14 | at most N - 1 slots are used, and the two macros mean full and empty |
| RingBuffer.StepKeepsInv | shell/Example Program/chapter2_part6/pthread_producer_consumer.c:102-159 | every critical section of either thread keeps the stream equality and the meaning of waiting and signalled |
| RingBuffer.EveryInterleaving | shell/Example Program/chapter2_part6/pthread_producer_consumer.c:102-159 | in every interleaving: consumed + contents = produced, one slot free, no resumed thread finds its condition true, never both waiting |
| RingBuffer.WaiterIsWoken | shell/Example Program/chapter2_part6/pthread_producer_consumer.c:114-115 | a waiting thread is woken by the other's next step, which is possible |
| RingBuffer.SpuriousWakeupLosesTheRing | shell/Example Program/chapter2_part6/pthread_producer_consumer.c:111-112 | going on while still waiting would empty a full ring |
| RingBuffer.Shared.InsertItem | shell/Example Program/chapter2_part6/pthread_producer_consumer.c:114-119 | signal, insertion and advance of the tail |
| RingBuffer.Shared.RemoveItem | shell/Example Program/chapter2_part6/pthread_producer_consumer.c:147-151 | signal, removal and advance of the head |
| RingBuffer.Shared.Producer | shell/Example Program/chapter2_part6/pthread_producer_consumer.c:109-122 | waits exactly when it has not been signalled and one slot is free; otherwise the item is appended to the produced stream and to the contents, and a waiting consumer is signalled |
| RingBuffer.Shared.Consumer | shell/Example Program/chapter2_part6/pthread_producer_consumer.c:142-156 | waits exactly when it has not been signalled and the ring is empty; otherwise it takes the first item, which is the next of the produced stream, and a waiting producer is signalled |
| SlotPool.SomeVacancy | ftp/myftpserver.c:522-530 | fewer taken slots than slots means the scan finds one |
| SlotPool.ScanKeepsInv | ftp/myftpserver.c:518-532 | the scan takes a slot that nobody uses |
| SlotPool.FinishKeepsInv | ftp/myftpserver.c:431-438 | a finishing client frees its own slot and no other |
| SlotPool.StepKeepsInv | ftp/myftpserver.c:501-553 | every step of the accept loop and of any client keeps the invariant |
| SlotPool.EveryInterleaving | ftp/myftpserver.c:501-553 | in every interleaving m counts the occupied slots and is at most MAX, live clients never share a slot, and the scan always succeeds |
| SlotPool.WaiterIsWoken | ftp/myftpserver.c:433-436 | while the main thread waits some client is live, and the first to finish wakes it |
| SlotPool.Server.constructor | ftp/myftpserver.c:494-496 | all slots vacant, no client |
| SlotPool.Server.Check | ftp/myftpserver.c:503-510 | goes on to accept exactly when some slot is vacant, and waits otherwise |
| SlotPool.Server.Resume | ftp/myftpserver.c:507-510 | goes on after the wakeup without a second test |
| SlotPool.Server.Scan | ftp/myftpserver.c:521-530 | takes the first vacant slot, which nobody uses |
| SlotPool.Server.Start | ftp/myftpserver.c:538-552 | gives the slot's arguments to the new client |
| SlotPool.Server.Finish | ftp/myftpserver.c:431-438 | gives the slot back, signalling when the pool was full |
| HeaderLines.SkipPlain | proxy server/myproxy.c:199 | a pattern that starts with a line break is never found inside a line |
| HeaderLines.EditsInLines | proxy server/myproxy.c:194-255 | the text edits find, read and replace the first field line with the name, and nothing else |
| HeaderLines.InsertInLines | proxy server/myproxy.c:258-273 | insertion appends one line to the block |
| HeaderLines.PrepareFieldInLines | proxy server/myproxy.c:1013-1016 | preparing a field replaces its first line's value, or appends the line |
| HeaderLines.PreparedFieldReads | proxy server/myproxy.c:1013-1016 | the field then reads "close" unless its first line was there and empty; no earlier match appears |
| HeaderLines.OtherFieldStays | proxy server/myproxy.c:1013-1021 | preparing one field does not disturb another |
| HeaderLines.BothFieldsClose | proxy server/myproxy.c:1011-1022 | both fields read "close" after the preparation if and only if neither was present with an empty value |
| HeaderLines.OtherLinesUnchanged | proxy server/myproxy.c:1011-1022 | every other line is unchanged; only missing fields are added, at the end |
| HeaderProcess.Message.StrStr | proxy server/myproxy.c:199 | the first occurrence at or after an offset, or none, on the terminated buffer |
| HeaderProcess.Message.IsItem | proxy server/myproxy.c:185-190 | whether the item occurs |
| HeaderProcess.Message.ReadValue | proxy server/myproxy.c:194-220 | the value between the item and the next end mark, none when missing or empty |
| HeaderProcess.Message.Replace | proxy server/myproxy.c:248-252 | the tail is saved, the value written, the tail put back, all in the same buffer |
| HeaderProcess.Message.Modify | proxy server/myproxy.c:224-255 | the buffer holds the modified text, or is unchanged when the call fails |
| HeaderProcess.Message.Insert | proxy server/myproxy.c:258-273 | the buffer holds the text with the field before the first blank line |
| HeaderProcess.Message.PrepareOne | proxy server/myproxy.c:1013-1016 | one field is prepared in place |
| HeaderProcess.Message.PrepareBlock | proxy server/myproxy.c:1011-1022 | a block that fits the buffers is prepared in place |
| HeaderProcess.Message.PreparedExample | proxy server/myproxy.c:1011-1022 | a whole block with one of the two fields, before and after |

## Left out

- ChunkerProcess.Chunker.constructor: requires a minimum of at least 1, a maximum above the minimum and a buffer of at least m + 2 bytes; the program takes any numbers, and with other ones its loop indexes out of range.
- ChunkerProcess.Read: a read fills the request or reaches the end of the file; short reads in between are not modelled.
- StorageProcess.Storage.Upload: the buffer size, which the program derives from the maximum chunk size, is a parameter; a backend other than local or remote, a missing file and the parsing of the arguments are not modelled.
- DedupIndex.RunIsPlainMap: SHA-1 is an arbitrary function without collisions on the chunks seen; the condition is a hypothesis, not a fact about SHA-1.
- Sessions.HistoryIsRun: assumes that sizes and counts fit a long and that checksums are words without commas, as hexadecimal digests are.
- Metadata.Load: line ends are written as a single newline, and numbers are ASCII digits; other platform line separators on writing and other Unicode digits on reading are not modelled.
- RouterProcess.Router.MapTopology: assumes no self edges, no repeated line, and costs from 1 to 9999 or -1; router identifiers are their positions in the shared list.
- RouterProcess.Router.UpdateFunc: assumes a neighbour other than the router itself and a weight that is 1000, -1, or positive and small enough that the sum with a distance fits an int.
- RouterNet.NextInv: channels are FIFO per pair of routers and lose nothing; opening, closing and reopening connections, and messages lost by CLOSE, are not modelled.
- Router counters and displays (numDV, RESET, SHOW, gen_RTable) and the older `router/mile2.c`.
- ShellProcess.Shell.CheckSyntax: the type table, and each row of arguments, is as long as a parameter that bounds the line; the program's hold ten, and a longer line overruns the table of types.
- ShellProcess.Shell.ProcessCreation: files that cannot be opened and failing system calls are not modelled.
- Shell tokenising, process creation, waiting, job control and built-in commands: effects of system calls.
- BfsProcess.ParallelBfs: node identifiers are non-negative, input lines hold two numbers, and the static source identifier is shared by all tasks, as on a single virtual machine; the text form of records and the 1000-pair emit buffer of the first mapper are not modelled.
- RingBuffer.EveryInterleaving: one producer, one consumer and no spurious wakeups; fairness of the mutex is not modelled.
- SlotPool.EveryInterleaving: no spurious wakeups; accept and pthread_create succeed; the copies of this pool in the proxy and the router are not modelled separately.
- HeaderLines.BothFieldsClose: the block ends with its blank line, because `msgReceiver` cuts the message there (`proxy server/myproxy.c:95-104`) before the preparation sees it; lines hold no carriage return or line feed of their own.
- HeaderProcess.Message.Modify: requires the tail to fit its 1000-byte temporary and the result to fit the buffer; the source overruns them otherwise.
- Proxy cache fill and response decisions, DNS, the FTP commands, the Azure client and the Hadoop plumbing: foreign or straight-line code.
- `FAT32_recovery` and the tutorial programs under `doc/`: unfinished or demonstrations of single calls.
