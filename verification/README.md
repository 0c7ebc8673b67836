# Verified model of the transfer pipeline, the crawler and their helpers

The repository is a set of small programs. This project models the five parts of it whose
correctness depends on more than one function and proves what those parts are for. Running
`dafny verify dfyconfig.toml` checks everything.

| part | files |
|---|---|
| shared-memory transfer: one writer, P readers, N slots | `Protocol`, `ProtocolSafety`, `ProtocolProgress`, `ProtocolExact`, `ProtocolWaiting`, `ProtocolMutex`, `EndToEnd`, `DataRecv`, `ShmCtl`, `SemTable`, `FifoCtl`, `Framing`, `ByteOrder` |
| crawler work list | `Bfs`, `Distance`, `Dedup`, `Crawler` |
| intrusive lists | `RingList`, `HashChain` |
| DNS question | `DnsQuery` |
| URL store and pager | `UrlStore`, `UrlScripts`, `Pager` |

`Modulo`, `Picks`, `Bytes` and `Wrappers` are arithmetic, lists with elements left out, bytes with their
copying, and an option type for the rest.

## What is assumed

Transfer pipeline.

- Opening a named pipe for writing completes together with an opening for reading of the same
  name, and a reader has closed its end before the next opening. That is the one atomic step
  (`Rendezvous`); the number is written afterwards and read later still, as separate steps.
- No system call fails, the memory is attached, and the memory size is the number of slots times
  the slot size, as in `w_shm_conf.cpp`.
- A copy into or out of a slot is a series of steps of any lengths, so copies of different
  processes interleave freely. Every process runs ResetSem, one semaphore per step, when it
  starts, and `OutsideReset` lets a further process reset a semaphore at any moment of any run.
- All counts are 1 at the start, as the set-up program leaves them. N and P are parameters.
- A read from a client connection is short only at the end of the stream. The stream may end anywhere
  and the buffer may hold anything before; excluded is only a length field that makes the loop write
  behind its buffer.

Crawler. Fetching is an arbitrary function from URL to "not text" or a list of distinct links; md5 is
injective; a search for an md5 matches the md5 column alone; the files start empty; a URL is one
word; the URLs reachable from the root are finitely many.

DNS. The host is little-endian, which matters for the id alone. The name is a C string.

URL store. `Clean`: an md5 occurs in no line but that of its own URL. A file that does not exist is
an empty file, URLs have no blanks, the bulk input has no duplicates. Lines end in a newline. The text
given to `delete_url.cgi` consists of letters and digits. The counter starts with any value: the
bulk-load scripts do not touch it.

## What the code does, where that is not what one would expect

- A frame that is too long for a block moves the slot cursor but not the reader cursor. With such
  frames in between, `N > P` does not keep two processes off one slot: `RefusalsBreakSafety` has an
  unsafe input for every N and P, `TenSlotsTwoReaders` the one for the configured 10 and 2.
  `SafetyIsExact` gives the condition on the input under which all runs are safe, in both directions;
  `UnsafeRun` builds the bad run whenever it fails and `UnsafeRunCorrupts` shows a reader passing on
  the wrong frame.
  When all frames fit the condition is `N > P`, or no more frames than slots (`AllFitSafe`).
- A refused frame still locks the slot of its call, so P can block on inputs that are safe
  (`RefusalsMakeWait`, again for every N and P). `WaitingIsExact` gives the condition under which P
  never blocks, in both directions.
- The semaphores exclude two processes from a slot on every input as long as no reset hits a slot in use
  (`MutualExclusion`). A process that starts while another one is inside a slot does hit it (`LateStart`); the
  count can then grow to 2 (`CountOfTwo`), and on an unsafe input a second process gets in (`ResetLetsTwoIn`).
- Frame m, counted from 1, goes to reader `m % P`; call m uses slot `m % N`.
- The guards of `W_ShmCtl` compare signed numbers. Slot number N, every negative one and a negative
  length pass (`GuardAdmitsOverruns`); `GuardedAccess` tells exactly which accesses that pass stay inside
  the memory. The callers' modulo leaves only good numbers (`ModuloKeepsInside`).
- A connection that ends inside a frame causes one more call of WriteData, in which old bytes of the
  buffer stand for the missing ones (`ThreadMain`, `NothingInvented`).
- The comment at `transfer_export/include/list.h:146` does not describe `hlist_add_before`. The notice
  at line 170 is right that a non-empty target of `hlist_move_list` is lost; so is a list moved to itself.
- Pages 1, 2, ... of the pager begin at line 1, counted from 0, so none of them shows the first stored
  line; page 0 and negative ones, which can be typed in, do show it, with the first lines (`WhereShown`).
- `add_url.cgi` searches its file for the text of the URL, not for its md5. A URL that is part of
  a stored line is taken for stored and is refused (`AddStores`, `PartOfStoredIsRefused`).
- `delete_url.cgi` believes its query. With a length in the wrong class modulo 50 it finds nothing
  (`DeleteRemoves`). A text that is only a part of an md5 takes out every line of the file that contains
  it and lowers the counter by 1; the counter stays right exactly if at most one line is hit
  (`DeleteKeeps`, `ShortTextMiscounts`).
- No script sets the counter after a bulk load. It is right afterwards, and after any later run whose
  deletes hit one line at most, exactly if it held the number of loaded URLs (`LoadAndRun`).
- A name with an empty label, a label of more than 63 bytes, or more than 255 octets in all is encoded all
  the same; a resolver reads back the name exactly when it has none of these (`QuestionIsExact`). A
  trailing dot is dropped and leaves a stray zero byte (`TrailingDotMisread`).

## Model

| member | source | states |
|---|---|---|
| ProtocolSafety.NextShape | transfer_export/src/share_mem/w_datarecv.cpp:94-116 | every step of any process, with or without oversize frames, keeps the two cursors equal to the call count and the accepted count modulo N and P, keeps each reader's number the slot of the last frame dealt to it, and keeps every semaphore free or held |
| ProtocolSafety.RunShape | transfer_export/src/share_mem/w_sem_table.cpp:122-181 | in every reachable state of every run a semaphore count of 0 means that some process is inside that slot, whatever resets happened |
| ProtocolSafety.ShapeExclusive | transfer_export/src/share_mem/w_datarecv.cpp:94-116 | the slot being written and the slots handed off and not yet read are pairwise different, from the handoff order alone |
| ProtocolSafety.NextContent | transfer_export/src/share_mem/w_datarecv.cpp:100-124 | every step keeps: claimed slots hold their frame in front, copied parts agree with it, and what each reader passed on are the frames dealt to it |
| ProtocolSafety.RunContent | transfer_export/src/share_mem/w_datarecv.cpp:71-174 | in every reachable state of a safe input, claimed slots hold their own frame in front and each reader has passed on exactly the frames dealt to it but the one it works on |
| ProtocolSafety.DifferentSlots | transfer_export/src/share_mem/w_datarecv.cpp:94-95 | under the safety condition two frames at most P acceptances apart have different slots |
| ProtocolSafety.DealLatest | transfer_export/src/share_mem/w_datarecv.cpp:114-115 | the last frame a reader was dealt is the latest one whose number is its id modulo P |
| ProtocolExact.SafetyIsExact | transfer_export/src/share_mem/w_datarecv.cpp:94-115 | all reachable states are conflict-free if and only if any two fitting frames that share a slot are more than P acceptances apart |
| ProtocolExact.UnsafeRun | transfer_export/src/share_mem/w_datarecv.cpp:103-107 | for each input outside that condition there is a run in which a handed-off, unread slot already holds a later frame while its semaphore is free |
| ProtocolExact.UnsafeRunCorrupts | transfer_export/src/share_mem/w_datarecv.cpp:161-173 | in such a run a reader passes on the later frame instead of its own |
| ProtocolExact.WriterServes | transfer_export/src/share_mem/w_datarecv.cpp:71-125 | from any state between calls there is a run of writer steps alone whose total effect is that of one WriteData |
| ProtocolExact.ReaderServes | transfer_export/src/share_mem/w_datarecv.cpp:150-173 | from any state in which a reader has its number and a free semaphore there is a run of its steps alone that passes on the bytes of that slot |
| ProtocolExact.RefusalsBreakSafety | transfer_export/src/share_mem/w_datarecv.cpp:94-107 | for every N, P and block size, one frame, N - 1 refused ones and another frame make an input with an unsafe run |
| ProtocolExact.TenSlotsTwoReaders | transfer_export/src/share_mem/w_shm_conf.cpp:13-15 | such an input for the configured 10 slots of 8192 bytes and 2 readers |
| ProtocolProgress.StepDecreases | transfer_export/src/share_mem/w_datarecv.cpp:71-174 | every process step lowers a measure of the remaining work |
| ProtocolProgress.NotStuck | transfer_export/src/share_mem/w_sem_table.cpp:143-181 | until everything is done some process has a step, for every input and with resets at any time |
| ProtocolProgress.Drain | transfer_export/src/share_mem/w_datarecv.cpp:71-174 | every run extends to one in which all calls are made and all accepted frames are passed on |
| ProtocolProgress.StepsAreBounded | transfer_export/src/share_mem/w_datarecv.cpp:71-174 | a run has, from any of its states on, no more process steps than that state's measure, however resets are mixed in |
| ProtocolProgress.AllFitSafe | transfer_export/src/share_mem/w_shm_conf.cpp:13-14 | when all frames fit, the safety condition is N > P, or at most N frames |
| ProtocolProgress.LastMayNotFit | transfer_export/src/share_mem/w_datarecv.cpp:103-107 | for N > P an input is safe if at most its last frame is refused |
| ProtocolWaiting.WaitingIsExact | transfer_export/src/share_mem/w_sem_table.cpp:143-161 | in no reachable state a process waits in P without a step of its own, if and only if no call, refused or not, comes within P acceptances of an accepted one with the same slot |
| ProtocolWaiting.WaitingRun | transfer_export/src/share_mem/w_datarecv.cpp:94-100 | for each input outside that condition there is a run that ends with the writer in P and no step for it, while a reader is inside the slot |
| ProtocolWaiting.WriterStays | transfer_export/src/share_mem/w_sem_table.cpp:149-151 | in every run a writer that waits stays in P, call and slot unchanged, until the count of its slot is raised |
| ProtocolWaiting.ReaderStays | transfer_export/src/share_mem/w_sem_table.cpp:149-151 | the same for a reader |
| ProtocolWaiting.ResetLetsTwoIn | transfer_export/src/share_mem/w_datarecv.cpp:54-66 | for each input outside that condition there is a run in which a reset lets the writer into the slot that a reader is inside |
| ProtocolWaiting.AllFitNoWait | transfer_export/src/share_mem/w_shm_conf.cpp:13-14 | when all frames fit, no process ever waits in P if and only if N > P, or at most N frames come |
| ProtocolWaiting.RefusalsMakeWait | transfer_export/src/share_mem/w_datarecv.cpp:94-107 | for every N, P and block size, one frame and N refused ones make an input that is safe and has a run in which a process waits |
| ProtocolWaiting.TenSlotsTwoReadersWait | transfer_export/src/share_mem/w_shm_conf.cpp:13-15 | such an input for the configured 10 slots of 8192 bytes and 2 readers |
| ProtocolMutex.CountPlusHolders | transfer_export/src/share_mem/w_sem_table.cpp:143-181 | for every input, in every run in which no reset hits a slot in use, count and processes inside add up to 1 for each slot |
| ProtocolMutex.MutualExclusion | transfer_export/src/share_mem/w_datarecv.cpp:100-102 | hence a reader inside a slot is alone there, whatever the frame lengths |
| ProtocolMutex.LateStart | transfer_export/src/share_mem/w_datarecv.cpp:54-66 | for every input there is a run in which a reader's first ResetSem sets the count of the slot that the writer is inside to 1 |
| ProtocolMutex.CountOfTwo | transfer_export/src/share_mem/w_sem_table.cpp:163-181 | that run goes on to a count of 2 |
| EndToEnd.Deliveries | transfer_export/src/share_mem/w_datarecv.cpp:128-174 | in every reachable state a reader's blocks, cut at their length field, are an initial part of its share, and all of it in the end |
| EndToEnd.DealIndex | transfer_export/src/share_mem/w_datarecv.cpp:114-116 | round-robin dealing puts each accepted frame in its own place of its reader's share |
| EndToEnd.DealLength | transfer_export/src/share_mem/w_datarecv.cpp:114-115 | the exact number of frames each reader gets |
| EndToEnd.PlaceInjective | transfer_export/src/share_mem/w_datarecv.cpp:114-115 | reader and place determine the frame, so none is delivered twice |
| EndToEnd.CarriedFrames | transfer_export/src/transfer/transfer_server.cpp:77-102 | of the calls for a connection only the one for an unfinished frame can be refused, and all others carry whole frames |
| EndToEnd.StreamDelivered | transfer_export/src/transfer/transfer_server.cpp:77-102 | for N > P, every whole frame of a client stream, wherever that ends, arrives unchanged at the reader and place that its number determines, whatever the interleaving |
| EndToEnd.MessageDelivered | transfer_export/src/transfer/transfer_server.cpp:77-102 | so each message that a client sends whole, with its length as htons leaves it, arrives as it was packed |
| Framing.FramesOfConcat | transfer_export/src/transfer/transfer_server.cpp:78-97 | cutting the concatenation of sendable frames and a part of one gives these frames and that part |
| Framing.ConcatOfFrames | transfer_export/src/transfer/transfer_server.cpp:78-97 | the frames of any stream are sendable and, with the part behind them, make up the stream |
| Framing.NothingInvented | transfer_export/src/transfer/transfer_server.cpp:77-102 | the bytes passed on are the bytes received if and only if the stream consists of whole frames |
| Framing.CutRecovers | transfer_export/src/transfer/transfer_server.cpp:88-97 | a frame in front of any old slot bytes is recovered by its length field |
| Framing.LengthOnTheWire | transfer_export/src/transfer/transfer_server.cpp:89-90 | the length read is v if and only if the two bytes are those that htons makes of v, for every 16-bit v |
| Framing.MessagesAreCut | transfer_export/src/transfer/transfer_server.cpp:78-97 | a stream of messages and a part of one more is cut into exactly these messages and that part |
| Framing.MessagesPassedOn | transfer_export/src/transfer/transfer_server.cpp:77-102 | the calls for a connection that sends whole messages are exactly these, each with its own length |
| Framing.ReadFrame | transfer_export/src/transfer/transfer_server.cpp:78-93 | one pass puts the next frame, or what is left of the stream, onto the reused buffer and nothing else |
| Framing.OnePass | transfer_export/src/transfer/transfer_server.cpp:78-97 | a pass takes exactly the first call off those that the stream amounts to |
| Framing.ThreadMain | transfer_export/src/transfer/transfer_server.cpp:77-102 | for any stream and old buffer contents, one WriteData call for each whole frame in order, and one more with stale bytes if the stream ends inside a frame |
| DataRecv.DataRecv.constructor | transfer_export/src/share_mem/w_datarecv.cpp:23-27 | both cursors start at 0 |
| DataRecv.DataRecv.ShmReadInit | transfer_export/src/share_mem/w_datarecv.cpp:35-69 | the first call, and only that, sets all semaphores to 1 |
| DataRecv.DataRecv.WriteData | transfer_export/src/share_mem/w_datarecv.cpp:71-125 | new cursors, slots, counts and posted number when it waits, refuses and accepts, and exactly when it does each |
| DataRecv.DataRecv.ReadData | transfer_export/src/share_mem/w_datarecv.cpp:128-174 | the buffer gets the slot named in the pipe, or nothing changes, and exactly when it waits and fails; counts end as they were |
| DataRecv.PassOne | transfer_export/src/share_mem/w_datarecv.cpp:71-174 | what one object writes another reads back, frame first and old slot bytes behind it |
| ShmCtl.ShmCtl.Write | transfer_export/src/share_mem/w_shm_ctl.cpp:168-194 | the bytes go to index times block size in the flat arena, which behaves as N separate slots: one gets them in front, all others keep theirs; refused exactly by the signed guard |
| ShmCtl.ShmCtl.Read | transfer_export/src/share_mem/w_shm_ctl.cpp:196-222 | reading gives exactly that slot, from index times block size on, for exactly the block length |
| ShmCtl.ShmCtl.GetPerBlockSize | transfer_export/src/share_mem/w_shm_ctl.cpp:274-277 | the division of the memory size gives the slot size |
| ShmCtl.CopyToSlot | transfer_export/src/share_mem/w_shm_ctl.cpp:189-192 | a copy to a slot's address changes that slot alone |
| ShmCtl.GuardedAccess | transfer_export/src/share_mem/w_shm_ctl.cpp:176-192 | an access that passes the signed guard stays inside the memory if and only if length and index are not negative and the index is not N (but for length 0) |
| ShmCtl.GuardAdmitsOverruns | transfer_export/src/share_mem/w_shm_ctl.cpp:176-192 | index N, index -1 and a negative length pass the guard and lead outside |
| ShmCtl.ModuloKeepsInside | transfer_export/src/share_mem/w_datarecv.cpp:94-101 | a number taken modulo N leads to an inside access whenever a guard lets it through |
| SemTable.SemTable.constructor | transfer_export/src/share_mem/w_sem_table.cpp:99-120 | creation leaves every count at 1 |
| SemTable.SemTable.ResetSem | transfer_export/src/share_mem/w_sem_table.cpp:122-141 | the loop sets every count to 1 |
| SemTable.SemTable.P | transfer_export/src/share_mem/w_sem_table.cpp:143-161 | it waits exactly for a count of 0; otherwise that count goes down by 1 and the others stay; a number outside the set has no effect |
| SemTable.SemTable.V | transfer_export/src/share_mem/w_sem_table.cpp:163-181 | one count goes up by 1, the others stay; a number outside the set has no effect |
| FifoCtl.AtoiOfItoa | transfer_export/src/share_mem/w_fifo_ctl.cpp:50-94 | parsing undoes printing for every integer, up to the first non-digit behind it |
| FifoCtl.AtoiOfMessage | transfer_export/src/share_mem/w_fifo_ctl.cpp:86-94 | the zero-padded message of every 32-bit integer is parsed to that integer |
| FifoCtl.MessageInjective | transfer_export/src/share_mem/w_fifo_ctl.cpp:48-51 | different integers have different messages |
| FifoCtl.ItoaFits | transfer_export/src/share_mem/w_fifo_ctl.cpp:48-50 | the text of a 32-bit integer has 1 to 11 characters, so it and its terminator fit the buffer |
| FifoCtl.PrintedIsCanonical | transfer_export/src/share_mem/w_fifo_ctl.cpp:50 | a text is the one printed for the number it is read as, if and only if it has no plus sign, no superfluous zero and a minus sign just for negatives |
| FifoCtl.MessageIsText | transfer_export/src/share_mem/w_fifo_ctl.cpp:48-51 | the message is that text and zeros behind it |
| FifoCtl.Fifo.FifoWrite | transfer_export/src/share_mem/w_fifo_ctl.cpp:25-61 | the pipe then holds the 32-byte message |
| FifoCtl.Fifo.FifoRead | transfer_export/src/share_mem/w_fifo_ctl.cpp:63-98 | the integer that was written comes out and the pipe is empty |
| ByteOrder.SentBigEndian | transfer_export/include/transfer.h:46-49 | after htobe64 the bytes in memory are the base-256 digits, the most significant first |
| ByteOrder.RoundTrip | transfer_export/include/transfer.h:46-54 | be64toh undoes htobe64 for every 64-bit number |
| Bfs.CrawledIsReachable | spider_lite/shell/spider_ctl.sh:20-54 | the reference search lists each reachable URL once and nothing else |
| Bfs.LinksAre | spider_lite/shell/s_search_urls.sh:10 | what is looked at for a URL are exactly the links of its page if that is text, and nothing otherwise |
| Bfs.NewInOrder | spider_lite/shell/s_uniq_url.sh:10-17 | the links that are not queued yet keep their order |
| Distance.NearestFirst | spider_lite/shell/spider_ctl.sh:20-54 | the search lists URLs in the order of their distance from the root over all paths of links |
| Bfs.SearchCloses | spider_lite/shell/spider_ctl.sh:34-46 | a finished search is closed under links |
| Bfs.SearchReaches | spider_lite/shell/spider_ctl.sh:34-46 | a search lists reachable URLs only |
| Crawler.Spider.Download | spider_lite/shell/s_download.sh:12-33 | a listed URL is not fetched; any other is fetched, logged, and its dump kept only if it is text |
| Crawler.Spider.UniqUrls | spider_lite/shell/s_uniq_url.sh:10-17 | the scratch file grows by the links that are not queued, in order, and comes into being with the first of them |
| Crawler.Spider.Expand | spider_lite/shell/spider_ctl.sh:34-50 | the queue gets the whole scratch file behind it, yet without repetitions only the new links; the failing `cat` is told apart and changes nothing |
| Crawler.Spider.Body | spider_lite/shell/spider_ctl.sh:21-53 | one pass keeps the invariant; the counter stays behind only if nothing is left to read; the files change only if a URL is fetched |
| Crawler.Spider.Crawl | spider_lite/shell/spider_ctl.sh:20-54 | the loop ends; fetched URLs and the de-duplicated queue are the reference search; the queue has at most 1 + n(n-1) lines; each text page is visited once with dump numbers 1 to k |
| Crawler.CrawlIsReachability | spider_lite/shell/spider_ctl.sh:20-54 | after a crawl the fetched URLs are distinct and, like the queued ones, exactly the reachable ones; the visited ones are the reachable text pages, with different paths |
| Crawler.FetchedNearestFirst | spider_lite/shell/spider_ctl.sh:20-54 | after a crawl, no page was fetched before one that is nearer to the root |
| Crawler.TextOnlyInOrder | spider_lite/shell/spider_ctl.sh:31 | the visited pages are in the order in which they were fetched |
| Crawler.AppendScratch | spider_lite/shell/spider_ctl.sh:40-46 | re-appending every link found so far leaves the de-duplicated queue the old one plus the new links |
| Crawler.NextInOrder | spider_lite/shell/spider_ctl.sh:21-26 | a queued URL that was not fetched is the next one of the search |
| Crawler.FetchWithoutLinks | spider_lite/shell/spider_ctl.sh:26-30 | a page that is already fetched or not text keeps the invariant and the counter |
| Crawler.FetchAndExpand | spider_lite/shell/spider_ctl.sh:31-50 | a text page keeps the invariant, and without a scratch file the queue is used up |
| Crawler.FirstLines | spider_lite/shell/stat_cnt_tool.sh:5-10 | the marking pass keeps exactly the first line of every URL |
| Dedup.FirstOccAppend | spider_lite/shell/stat_cnt_tool.sh:5-10 | appending known URLs and then new ones adds the new ones to the first occurrences |
| Dedup.FirstOccInOrder | spider_lite/shell/stat_cnt_tool.sh:5-10 | what is kept of a list stands at exactly the positions of first occurrences, in order |
| RingList.InsertBetween | transfer_export/include/list.h:21-29 | the ring of a and b becomes the ring of a, the new entry and b |
| RingList.ListAdd | transfer_export/include/list.h:31-35 | the abstract sequence gets the entry in front |
| RingList.ListAddTail | transfer_export/include/list.h:37-41 | the abstract sequence gets the entry at its end |
| RingList.ListDel | transfer_export/include/list.h:43-53 | the abstract sequence loses the entry, whose own pointers stay |
| RingList.AddThenDel | transfer_export/include/list.h:31-53 | deleting an entry just added in front restores every pointer of the ring |
| RingList.AddTailThenDel | transfer_export/include/list.h:37-53 | deleting an entry just added at the end restores every pointer of the ring |
| RingList.RingUnique | transfer_export/include/list.h:9-11 | a head has one abstract sequence, so these contracts determine the pointers |
| RingList.Rotate | transfer_export/include/list.h:21-29 | any entry of a ring can serve as its head |
| RingList.ListEmpty | transfer_export/include/list.h:55-58 | true exactly for the empty sequence |
| RingList.ListEmptyCareful | transfer_export/include/list.h:60-64 | true exactly for the empty sequence |
| RingList.ForEachSafe | transfer_export/include/list.h:72-75 | each entry is visited once, in order, whether the body deletes the current one or not, for whatever reason; the others remain |
| HashChain.PprevHoldsNode | transfer_export/include/list.h:92-98 | the cell that pprev names holds the node |
| HashChain.ChainUnique | transfer_export/include/list.h:92-98 | a head has one chain |
| HashChain.ChainsDisjoint | transfer_export/include/list.h:92-98 | chains of different heads share no node |
| HashChain.Unlink | transfer_export/include/list.h:120-127 | the chain loses the node, whose own pointers stay |
| HashChain.Del | transfer_export/include/list.h:129-134 | the chain loses the node, whose pointers are poisoned |
| HashChain.AddHead | transfer_export/include/list.h:136-144 | the chain gets the node in front |
| HashChain.AddBefore | transfer_export/include/list.h:147-154 | the chain gets the node right before the given one |
| HashChain.AddAfter | transfer_export/include/list.h:156-165 | the chain gets the node right after the given one |
| HashChain.MoveList | transfer_export/include/list.h:172-179 | the whole chain moves to another head, whatever that held, and the old head is empty |
| HashChain.ForEachSafe | transfer_export/include/list.h:187-188 | each node is visited once, in order, whether the body deletes the current one or not, for whatever reason; the others remain |
| HashChain.TableAddHead | transfer_export/include/list.h:136-144 | in a table of chains all other chains stay as they are |
| HashChain.TableDel | transfer_export/include/list.h:129-134 | in a table of chains all other chains stay as they are |
| HashChain.TableAddBefore | transfer_export/include/list.h:147-154 | in a table of chains all other chains stay as they are |
| HashChain.TableAddAfter | transfer_export/include/list.h:156-165 | in a table of chains all other chains stay as they are |
| HashChain.TableMoveList | transfer_export/include/list.h:172-179 | in a table of chains all other chains stay as they are, and what the target held is in no chain |
| DnsQuery.OneByte | dns_server/w_dnsclient.cpp:65-78 | one pass keeps: the encoding up to the current piece, the name from there on, and nothing else changed |
| DnsQuery.BackPatch | dns_server/w_dnsclient.cpp:63-80 | the in-place loop leaves the pure encoding of the name and no other byte changed |
| DnsQuery.BuildQuery | dns_server/w_dnsclient.cpp:56-85 | the whole buffer is header, question and zeros, and what is sent is read as the query for the name exactly for the names that can be asked for |
| DnsQuery.MessageIsExact | dns_server/w_dnsclient.cpp:56-83 | by sections 4.1.1 and 4.1.2 of RFC 1035 the message is a standard query with recursion desired and nothing else set, one question of type 1 and class 1 for the name and no other records, if and only if all labels have 1 to 63 bytes and the name takes at most 255 octets |
| DnsQuery.DotStep | dns_server/w_dnsclient.cpp:67-71 | filling in the length at a dot keeps the scanned part equal to the encoding of the labels behind it |
| DnsQuery.QuestionIsExact | dns_server/w_dnsclient.cpp:63-83 | reading the question by section 3.1 of RFC 1035 gives the name back if and only if all labels have 1 to 63 bytes and the name takes at most 255 octets |
| DnsQuery.QuestionInjective | dns_server/w_dnsclient.cpp:63-83 | two such names with the same question are equal |
| DnsQuery.TrailingDotMisread | dns_server/w_dnsclient.cpp:67-80 | every such name with a dot added is read back without the dot, with a stray zero byte behind |
| DnsQuery.LongNameRefused | dns_server/w_dnsclient.cpp:63-83 | a name with good labels that fits the buffer and that no resolver accepts |
| Pager.Awk | url_manager/cgi-bin/sh_cgi/get_show_urls.sh:36-47 | the two counters print a window of the file |
| Pager.ShowFile | url_manager/cgi-bin/sh_cgi/get_show_urls.sh:31-54 | the carried counters stay right from file to file |
| Pager.LineInBuckets | url_manager/cgi-bin/sh_cgi/get_show_urls.sh:26-29 | line k of file j of bucket i stands behind all lines of earlier buckets and of earlier files of its bucket |
| Pager.AllFilesLength | url_manager/cgi-bin/sh_cgi/get_show_urls.sh:26-31 | there are as many lines as all files have together |
| Pager.Show | url_manager/cgi-bin/sh_cgi/get_show_urls.sh:8-56 | for every layout, page number and page size: how many lines are printed, and of every line of every file whether it is printed and in which place |
| Pager.PageContents | url_manager/cgi-bin/sh_cgi/get_show_urls.sh:8 | a page from 1 on is the lines from its begin to the begin of the next page, clipped at the end |
| Pager.WhereShown | url_manager/cgi-bin/sh_cgi/get_show_urls.sh:8-56 | for every page number and page size, which lines are shown: from page 1 on each line but line 0 on its one page, before that the first lines |
| Pager.FirstLineShown | url_manager/cgi-bin/sh_cgi/get_show_urls.sh:8 | line 0 is shown on a page if and only if the page number is 0 or less |
| Pager.PagesInOrder | url_manager/cgi-bin/sh_cgi/get_show_urls.sh:8-56 | the first m pages in a row are the lines from line 1 to the end of page m |
| Pager.PagesFromOne | url_manager/cgi-bin/sh_cgi/get_show_urls.sh:8-56 | enough pages from page 1 on show, one after another, everything but line 0 |
| UrlStore.AddKeeps | url_manager/cgi-bin/sh_cgi/add_url.cgi:15-38 | an add keeps every record in its own file, once, and the counter as far off as it was |
| UrlStore.AddStores | url_manager/cgi-bin/sh_cgi/add_url.cgi:29-38 | an add stores its URL if and only if it is not blocked, and stores and loses nothing else |
| UrlStore.BlockedByStored | url_manager/cgi-bin/sh_cgi/add_url.cgi:29-33 | an add is blocked if and only if its text occurs in the line of a stored URL of the same file, which may be its own |
| UrlStore.AddThenSearch | url_manager/cgi-bin/sh_cgi/search_url.cgi:12-26 | after an add the search finds the URL exactly if it was stored or not blocked |
| UrlStore.PartOfStoredIsRefused | url_manager/cgi-bin/sh_cgi/add_url.cgi:29-33 | a new URL that is part of a stored one in the same file is refused and then not found |
| UrlStore.DeleteKeeps | url_manager/cgi-bin/sh_cgi/delete_url.cgi:13-35 | whatever plain text a delete is given, records stay in their files, and the counter stays right if and only if at most one line contains the text |
| UrlStore.DeleteTakes | url_manager/cgi-bin/sh_cgi/delete_url.cgi:13-35 | a URL is gone if and only if length and last two characters lead to its file and its line contains the text |
| UrlStore.RemoveInOrder | url_manager/cgi-bin/sh_cgi/delete_url.cgi:32 | of a file exactly the lines without the text remain, in their order |
| UrlStore.ShortTextMiscounts | url_manager/cgi-bin/sh_cgi/delete_url.cgi:18-35 | with two stored URLs in one file, a delete by the last two characters of their md5 makes the counter wrong |
| UrlStore.DeleteRemoves | url_manager/cgi-bin/sh_cgi/delete_url.cgi:13-35 | a delete by md5 takes out its URL if and only if the length is right modulo 50, takes out nothing else and keeps the counter |
| UrlStore.SearchIsExact | url_manager/cgi-bin/sh_cgi/search_url.cgi:12-26 | a search succeeds exactly for stored URLs |
| UrlStore.RunKeeps | url_manager/cgi-bin/sh_cgi/add_url.cgi:15-38 | over every run of adds and deletes by any plain texts placement and search stay right, and the counter does if and only if no delete meets two lines |
| UrlStore.Md5DeletesAreCareful | url_manager/cgi-bin/sh_cgi/delete_url.cgi:13-35 | deletes by the md5 of known URLs never meet two lines |
| UrlStore.TailIsName | url_manager/cgi-bin/sh_cgi/delete_url.cgi:18-23 | two texts lead to the same file of a bucket if and only if their last two characters are equal |
| UrlScripts.TwoPasses | url_manager/sh_script/cut_dump_md5.sh:21-39 | splitting by length and then by md5 is filing the URLs one by one |
| UrlScripts.LoadKeeps | url_manager/sh_script/md5_divide.sh:13-19 | a load of distinct URLs stores exactly these, each in its own file |
| UrlScripts.LoadInOrder | url_manager/sh_script/md5_divide.sh:13-19 | each file holds exactly the URLs that belong there, in the order of the input |
| UrlScripts.LoadDrift | url_manager/sh_script/cut_dump_md5.sh:13-39 | after a load the counter is off by what it held less the number of URLs |
| UrlScripts.LoadAndRun | url_manager/sh_script/cut_dump_md5.sh:13-39 | from a bulk load on, after any run, search is right; after a run whose deletes meet one line at most, the counter is right if and only if it held the number of loaded URLs |
| UrlScripts.Manager.AddUrl | url_manager/cgi-bin/sh_cgi/add_url.cgi:15-38 | in a store of known URLs: refused exactly for a text in a stored line of the same file, otherwise appended to its file, nothing else stored or lost, records in place, counter as right as it was |
| UrlScripts.Manager.DeleteUrl | url_manager/cgi-bin/sh_cgi/delete_url.cgi:13-35 | for any plain text: success exactly if anything changed, records in place, and the counter as right as it was exactly if at most one line contains the text |
| UrlScripts.Manager.SearchUrl | url_manager/cgi-bin/sh_cgi/search_url.cgi:12-26 | in a store of known URLs it succeeds exactly for a stored URL |
| UrlScripts.Manager.Md5Divide | url_manager/sh_script/md5_divide.sh:13-19 | one bucket's dump is split by the end of the md5, other buckets stay |
| UrlScripts.Manager.BulkLoad | url_manager/sh_script/cut_dump_md5.sh:13-39 | the two passes leave the files of the one-by-one load, and the counter untouched |
| UrlScripts.Manager.CalSum | url_manager/sh_script/cal_sum_of_url.sh:6-18 | the sum over all files is the number of stored lines |

## Left out

- ShmCtl.ShmCtl.Write: an access that passes the guard and leads out of the memory has no defined effect and is excluded; which these are is `GuardedAccess`.
- ShmCtl.ShmCtl.Read: the same accesses are excluded.
- DataRecv.DataRecv.WriteData: when it waits, the contract describes the call up to there; what other processes do meanwhile is in the step relation of `Protocol`.
- DataRecv.DataRecv.ReadData: the same, and numbers that lead out of the memory are excluded; no writer posts one.
- SemTable.SemTable.P: SEM_UNDO is not modelled.
- Framing.ThreadMain: a length field that makes the loop write behind its buffer is excluded.
- Framing.ReadFrame: the same.
- DnsQuery.BuildQuery: names longer than the buffer can take are excluded; the source copies them without a check.
- DnsQuery.BackPatch: the same bound on the name.
- UrlStore.DeleteKeeps: texts with characters that are special to sed are excluded.
- UrlScripts.Manager.DeleteUrl: the same texts are excluded.
- UrlScripts.Manager.BulkLoad: the second passes run one after another; the source starts them side by side on files they do not share.
- Sockets, accept, shmget, shmat, semget, mkfifo and their failures; process exit; threads of the transfer server beyond one connection.
- CScheduleManager, W_RouteCtl and W_ShmTable, which the live path does not use.
- HTTP server and client, the epoll example, make_file.
- DNS answers, configuration and the DNS server.
- FileID and PendingFile of the storage server beyond the lists they are built on.
- md5, wget, `file` and the extraction of links, which are functions or parameters here.
- The big-endian branch of transfer.h, in which both conversions are the identity.
- list_for_each without `_safe`, hlist_empty, hlist_unhashed and the entry macros: they would only add easy members.
- CGI tables, PHP, JavaScript, logging, dates, Makefiles, start and stop scripts.
