# Karmanet in Dafny

Karmanet is a peer-to-peer network with superpeers. A bootstrap server hands out superpeers in
turn; a superpeer indexes the files of its peers and floods their searches over an overlay of
superpeers; peers fetch files from each other chunk by chunk. This project models the stateful
cores of the program and proves what they are for.

- **File index** (`Memory`, `ChainedTable`, `FileIndex`, `NameTests`). The same records are
  threaded through three hash tables with pointers from each of a record's three nodes to the
  others. Nodes live in explicit pools, one per C struct, with `malloc`, `free`, and the pointer writes of the
  code, so a use after `free`, a leak or a stale back pointer would not verify. The tables
  behave as one set of records.
- **Search flood** (`Bytes`, `NearList`, `Requests`, `Flood`, `FloodCoverage`). The handler of
  one superpeer, and a network of superpeers with a bag of queries in flight, in which overlay
  links may change and records of queries expire. It terminates; each query is handled once
  while it is recorded; and although every superpeer skips its sender's neighbours, a finished
  flood on a quiet overlay has covered exactly the origin's component.
- **Share updates** (`ShareDiff`, `ShareFile`, `ShareDiffer`, `ShareMerge`, `ShareMoves`, `Streams`,
  `Shipping`, `Delivery`, `EndToEnd`). The recursive merge of the old index with the directory tree, the
  packing of the differences into packets, their parsing, and the superpeer's records at the far
  end, for one update and for any number of them.
- **Transfer** (`Upload`, `PartFile`, `Download`). Chunks and parts, the record of a download in
  progress, and sessions that break off anywhere.
- **Membership** (`DoublyLinked`, `PeerList`, `Membership`, `Promotions`, `SignsOfLife`),
  **retransmission** (`Retx`, `RetxRuns`), **formats** (`Bytes`, `Formats`), **bootstrap** (`Bootstrap`), **framing** (`Framing`) and **answers to searches** (`Paging`,
  `Answers`).

Where the code does not do what it is for, the model follows the code, and a lemma says exactly
when it does:

- The diff of a file that moved to a directory visited earlier announces the file and then
  withdraws it, and a superpeer keeps a set, so it forgets a file that is still shared
  (`EndToEnd.MovedFileIsForgotten` on a literal tree). With the same root the superpeer ends with the
  files of the new index if and only if no file is overtaken: the merge of the two lists of paths never comes to the
  new directory of a file before its old one (`EndToEnd.UpdateShare`,
  `ShareMoves.WithdrawnIffOvertaken`). Where the directories come in the order of their paths this
  says that no file has moved to a path that compares below (`ShareMoves.WithdrawnIffMovedUp`).
- `scandir` orders names and `diff` compares paths. The two orders agree if no octet of a name
  compares below the slash (`ShareMoves.TreeIsSorted`); with "a-b" next to "a" they do not, and a
  file that has not even moved can be overtaken (`ShareMoves.SiblingIsWithdrawn`).
- `copy_dir` insists on 21 octets before it looks at the tag (src/client/shared.c:380-387), so an
  unchanged directory right before a short last directory record fails. At the root
  `create_diff` fails; below it the failure is ignored and the directories below are lost
  (`ShareDiffer.UnchangedTreeCanFail`, `ShareDiffer.ReadAheadBoundary`,
  `ShareDiffer.NestedFailureLosesDirectories`). The new
  index is the listing of the tree if and only if the walk misses none (`ShareDiffer.CreateDiff`);
  with the directories in order, if and only if the first of them that is unchanged and directly
  before such a tail has none below it (`ShareMoves.CutIffMissed`). The superpeer's records agree
  with the new index all the same.
- If the first record of the old index compares below the root, `diff` starts again without its
  flag (src/client/shared.c:466-471) and what is left of the old index is never withdrawn
  (`ShareDiff.LeftOver`, `ShareDiffer.ChangedRootLeavesFiles`). The superpeer's records are right
  all the same if and only if each file that is left over is still shared (`EndToEnd.UpdateShare`).
- Replies to a search by md5 restart their pages at offset 17 instead of 16
  (src/client/client.c:792), so they are misread exactly when they need more than one page
  (`Paging.Md5ReplyReadBack`, `Paging.FourResultsAreMisread`).
- `sorted_insert_peer` alone lists an address twice if its old entry lies behind the place of the
  new rate (`PeerList.JoinedOneEach`, `PeerList.AddressOccursTwice`); the lookup in `join_handler`
  prevents it. A refreshed rate keeps the order only if it fits (`PeerList.RefreshSorted`).
- A download whose output file already existed and was longer than the source never completes
  (`Download.Complete`, `Download.OldFileIsTooLong`).
- `insert_file` and `remove_file` compare as many octets as the given name has, and `get_by_name`
  compares four, the size of a pointer (src/client/hashtable.c:53, 172, 178, 589). Each of them acts
  on the first name that passes the test, and as it is meant to if and only if no such name comes
  before the given one in its bucket, or in the list of the ip (`NameTests`; `FileIndex` compares
  whole names).
- All pages of a reply go out under the index of the query (src/client/client.c:734, 744, 777, 787),
  and an acknowledgement stops the packet of its index that was sent last
  (src/client/packet_list.c:52-66). So an acknowledgement of one page stops another, which is then
  lost without a report, while the first is sent again (`RetxRuns.TwoPages`). An acknowledgement
  stops the packet it is for if and only if no later one is watched under its index
  (`RetxRuns.AckStopsTheLatest`), and it silences its index if and only if at most one packet was
  watched under it (`Retx.SilentOnceStopped`, `RetxRuns.SilentOnceAcked`).
- While a promotion is open, whoever acknowledges anything becomes the child
  (src/client/client.c:457-458), so the promoted peer may be turned away and another be accepted
  (`Promotions.StrayAcknowledgement`). The promoted peer is accepted if and only if the last such
  acknowledgement is its own (`Promotions.PromotedRegisters`).
- A new child inherits the count of missed pongs (src/client/client.c:404-405) and may be given up
  at its first ping (`Membership.KeepChild`, `Membership.GivenUpAtOnce`).

Integers have the widths of the 32-bit target: `long` 4 octets, `short` 2, both little-endian. The
hash of a string is any function into the buckets; an md5 is any 16 octets. `dafny verify
dfyconfig.toml` checks the whole project.

## Model

| member | source | states |
|---|---|---|
| DoublyLinked.InsertNode | src/common/list.c:6-23 | A fresh node goes in front: the list of nodes and the list of data each gain exactly that head, links stay mutually inverse and no other node is live. |
| DoublyLinked.SortedInsertNode | src/common/list.c:28-52 | The new node lands right behind the given node, in front when that is null; everything else keeps its place and its data. |
| DoublyLinked.RemoveNode | src/common/list.c:57-87 | In each of the four cases (only, first, last, inner node) exactly that node is unlinked and freed and the rest is a well-linked list in the old order. |
| DoublyLinked.FreeList | src/common/list.c:92-101 | Every node is freed: nothing stays live. |
| DoublyLinked.GetListCount | src/common/list.c:106-115 | The count is the number of nodes. |
| ChainedTable.FindSlot | src/client/hashtable.c:172-178 | Walks the chain of the bucket of a key and stops at its node, or at the last node if the key is absent, or at null for an empty bucket. |
| ChainedTable.Find | src/client/hashtable.c:574-584 | Finds the node of a key if and only if the table has one. |
| ChainedTable.InsertAt | src/client/hashtable.c:153-216 | Files an item under a key: at the head of the list of its node, or in a new node appended to the chain of its bucket; every other key keeps its list, and the table stays well formed. |
| ChainedTable.RemoveItem | src/client/hashtable.c:328-428 | Unlinks and frees one item; if its list becomes empty its key node is unlinked and freed as well, so no key is left with an empty list; all other lists are untouched. |
| ChainedTable.PrependIsGood | src/client/hashtable.c:204-207 | Linking an item in front of the list of a live key keeps every chain and list well linked, each node in the bucket of its key and each item in the list of one key. |
| ChainedTable.AppendIsGood | src/client/hashtable.c:178-183 | Appending a key node to a bucket keeps all of that, with keys still unique. |
| ChainedTable.UnlinkIsGood | src/client/hashtable.c:362-394 | Unlinking one of several items of a key keeps all of that. |
| ChainedTable.FreeNodeIsGood | src/client/hashtable.c:431-462 | Freeing the node of a key together with its last item keeps all of that and drops exactly that key. |
| FileIndex.Index.constructor | src/client/hashtable.c:4-13 | The empty tables are coherent and hold the empty set of records. |
| FileIndex.Index.InsertFile | src/client/hashtable.c:153-216 | The three tables go from the set of records S to S with the record added, whether or not it was there. |
| FileIndex.Index.RemoveFile | src/client/hashtable.c:569-605 | S loses exactly that record, whether or not it was there. |
| FileIndex.Index.RemoveAllFile | src/client/hashtable.c:535-567 | S loses exactly the records of that ip and port. |
| FileIndex.Index.GetByName | src/client/hashtable.c:48-65 | The head of a well-linked list whose nodes stand, one for one, for the records of that name. |
| FileIndex.Index.GetByMd5 | src/client/hashtable.c:67-84 | The same for the records of that md5. |
| FileIndex.Index.ResultsByName | src/client/hashtable.c:16-28 | Walking the result reads exactly the records of that name, none twice, through the back pointers. |
| FileIndex.Index.ResultsByMd5 | src/client/hashtable.c:30-46 | Walking the result reads exactly the records of that md5, none twice, through the back pointers. |
| FileIndex.AddRecord | src/client/hashtable.c:162-212 | Adding one record edits all three tables and leaves them coherent with S plus that record, every back pointer at its own partner. |
| FileIndex.RemoveRecord | src/client/hashtable.c:600-602 | Removing one record follows its partners through all three tables and leaves them coherent with S minus that record. |
| FileIndex.RemoveAllOf | src/client/hashtable.c:547-564 | The loop over the list of one ip, with the successor saved before a node is freed, removes exactly the records with that port. |
| FileIndex.FindInfo | src/client/hashtable.c:586-598 | Finds the record of an ip with that port, md5 and name if and only if it is indexed. |
| FileIndex.IsListed | src/client/hashtable.c:193-202 | Tells exactly whether the record is indexed already. |
| FileIndex.RecordFacts | src/client/hashtable.c:204-211 | The three nodes of a record point at each other. |
| FileIndex.Run | src/client/hashtable.c:153-605 | Any run of insertions and removals acts on the tables as the same run acts on a set. |
| FileIndex.EmptiedIndex | src/client/hashtable.c:328-533 | Once S is empty every bucket is null and every node has been freed. |
| NameTests.ResolvedIsExact | src/client/hashtable.c:53-58 | Of the names along a chain, the first that passes the test is the one looked for if and only if no other that passes comes before it. |
| NameTests.SameStartIs | src/client/hashtable.c:53 | The test compares the first n octets of both names, or as many as there are. |
| NameTests.GetByName | src/client/hashtable.c:48-65 | Lists the records of the first name in the bucket that agrees in four octets; these are the records of the name looked for if and only if no such name comes before it in the bucket. |
| NameTests.InsertFile | src/client/hashtable.c:153-216 | Adds a record of the first name in the bucket that the given name begins; it acts as meant if and only if no such name comes before the given one in the bucket, or both records are there already. |
| NameTests.RemoveFile | src/client/hashtable.c:569-605 | Removes the first record in the list of the ip that has the port and the md5 and whose name the given name begins; it acts as meant if and only if no such record comes before the one that is meant. |
| NameTests.TestsCanMislead | src/client/hashtable.c:53 | Four octets do not tell "abcd1" from "abcd2", and "ab" passes for "abc". |
| NameTests.Run | src/client/hashtable.c:153-605 | As long as no name begins another in its bucket, or one of the same port and md5 in the list of an ip, any run of the operations with the tests of the code acts as the same run on a set. |
| Bytes.LongRoundTrip | src/common/ioutil.c:75-96 | Four octets carry an unsigned long there and back. |
| Bytes.ShortRoundTrip | src/common/ioutil.c:84-101 | Two octets carry an unsigned short there and back. |
| Bytes.AddrRoundTrip | src/common/inetutil.c:83-95 | The six octets of an address give the address back. |
| Bytes.DecodedEncoded | src/common/inetutil.c:71-87 | A list of addresses survives being written as octets and read again. |
| Bytes.StrToAddr | src/common/inetutil.c:71-81 | Reads exactly the first `dim` addresses. |
| Bytes.ContainsAddr | src/common/inetutil.c:110-126 | On a whole number of entries, true if and only if the address is one of them. |
| Formats.AddressIs | src/common/inetutil.c:83-95 | An address is six octets: the ip in four and the port in two, the lowest first. |
| Formats.PacketIs | src/common/packet_util.c:103-116 | Where each field of a packet stands and how its octets make up its value, a negative ttl modulo 2^16. |
| Formats.ChangeIs | src/client/shared.c:73-88 | A record of the diff is "+" or "-", the md5, the name and a newline. |
| Formats.RecordIs | src/client/shared.c:37-68 | A record of the index is "#", the time, the path and a newline, or "%", the time, the md5, the name and a newline. |
| Formats.EntryIs | src/client/client.c:716-798 | An entry of a reply is the address and the md5, or the address, the name and a newline. |
| Formats.PartIs | src/client/downloader.c:442-476 | Where each field of the record of a download stands and what its octets stand for. |
| NearList.Overlay.InsertNear | src/client/near_list.c:5-44 | A new connection becomes the second of the list, or the first of an empty one; a known connection changes nothing and succeeds only under the same address. |
| NearList.TwoInserted | src/client/near_list.c:5-44 | Of three neighbours that come one after the other the last stands second and the second last. |
| NearList.Overlay.UpdateNear | src/client/near_list.c:46-69 | Sets the advertisement of exactly the neighbour behind that connection. |
| NearList.Overlay.GetNearNode | src/client/near_list.c:71-84 | The first neighbour behind that connection, if any. |
| NearList.Overlay.GetNearByAddr | src/client/near_list.c:86-99 | Tells exactly whether the address is a neighbour. |
| NearList.Overlay.SetNear | src/client/superpeer.c:367-377 | The string becomes the addresses of the neighbours in list order, zeros behind them. |
| NearList.Overlay.AcceptConn | src/client/superpeer.c:274-344 | Accepts exactly when there is room; keeps nsock equal to the number of neighbours and the string an encoding of exactly their addresses. |
| NearList.Overlay.CloseConn | src/client/superpeer.c:346-365 | Drops exactly the neighbour behind that connection and keeps count and string in step. |
| NearList.Overlay.JoinOverlay | src/client/superpeer.c:8-110 | Adds, in order, the addresses that acknowledge and are no neighbours yet; the string grows to twice the list; count and string stay in step provided the result fits the string. |
| NearList.AcknowledgedHas | src/client/superpeer.c:8-110 | Whoever was a neighbour or acknowledges is one, nobody else, and none twice. |
| NearList.Overlay.FloodOverlay | src/client/superpeer.c:380-415 | A neighbour is sent to if and only if it is not behind the connection of the sender and no entry of that connection advertises its address; in list order. |
| NearList.TargetsAre | src/client/superpeer.c:380-415 | The same of the list of targets, over connections and advertised octets alone. |
| Requests.RequestList.InsertRequest | src/client/fifo_request.c:6-23 | Records the query in front with three sweeps to live, unless it is recorded already. |
| Requests.RequestList.GetRequestNode | src/client/fifo_request.c:60-75 | Tells exactly whether the query is recorded. |
| Requests.RequestList.Sweep | src/client/peer_list_checker.c:87-98 | One sweep drops the queries at 0 and ages the others by one. |
| Requests.SweptHolds | src/client/peer_list_checker.c:87-98 | A query is recorded with ttl t after a sweep if and only if it had t + 1 before. |
| Requests.SweptIsValid | src/client/peer_list_checker.c:87-98 | A sweep keeps queries unique and their ttl at most 3. |
| Requests.SweptForgets | src/client/peer_list_checker.c:87-98 | A query at 0 is forgotten by the next sweep. |
| Flood.SuperPeer.WhohasRequest | src/client/client.c:804-864 | Forwards and answers a query only if it is not recorded; takes one off the ttl of a query from the overlay; forwards only while ttl is left; never answers its own query. |
| Flood.AfterIsGood | src/client/client.c:804-864 | Every step keeps the network well formed: queries unique per superpeer and every message with ttl left. |
| Flood.CopiesOf | src/client/client.c:804-864 | What the handler puts in flight: with ttl left and a query not recorded, a copy for every neighbour but the sender and those it has advertised, and nothing else. |
| Flood.DeliverySkipsAdvertised | src/client/superpeer.c:393-396 | A delivery puts no copy in flight to an address that the entry of the sender advertises. |
| Flood.StepWeight | src/client/client.c:813-844 | A delivery takes weight from the flight whatever it forwards, even while records expire and neighbours change. |
| Flood.FloodTerminates | src/client/client.c:813-844 | In any run the number of deliveries is bounded by the weight of the first flight and of the injections. |
| Flood.StaysRecorded | src/client/fifo_request.c:6-23 | A handled query stays recorded, and so is not handled again, through three sweeps. |
| Flood.FourthSweepForgets | src/client/peer_list_checker.c:87-98 | The fourth sweep after it was handled forgets it. |
| Flood.HandledOnce | src/client/client.c:813-823 | Between two handlings of one query by one superpeer lie at least four sweeps. |
| Flood.NoQueryOutlivesItsTtl | src/client/client.c:825-844 | A query started with DEFAULT_TTL crosses at most six overlay links. |
| FloodCoverage.SkippedAreReached | src/client/superpeer.c:380-415 | Whoever a superpeer skips because its sender advertised it is visited already or has a copy on the way. |
| FloodCoverage.DeliverKeepsInv | src/client/client.c:804-864 | A delivery keeps the invariant that every neighbour of a visited superpeer is taken care of. |
| FloodCoverage.FloodCovers | src/client/superpeer.c:380-415 | On a static, symmetric overlay with truthful advertisements and a ttl of at least the number of superpeers minus one, a finished flood has visited exactly the connected component of its origin. |
| ShareDiff.ReplayBalances | src/client/shared.c:72-84 | If the old files account for every withdrawal, replaying a diff gives old + announced - withdrawn, whatever its order. |
| ShareDiff.BalancedReplay | src/client/shared.c:407-497 | Replaying the diff of any walk on the old files gives the new ones and those the walk never came to. |
| ShareDiff.StrCmpIs | src/client/shared.c:447 | The first octet that differs decides the order of two strings, and a proper beginning is below. |
| ShareFile.WriteDir | src/client/shared.c:37-50 | The record of a directory and its length. |
| ShareFile.WriteFile | src/client/shared.c:55-68 | The record of a file and its length. |
| ShareFile.ReadDir | src/client/shared.c:421-444 | Reads back the record of a directory at the cursor, and refuses exactly that of a file. |
| ShareFile.CopyDir | src/client/shared.c:376-402 | On octets: copies the files of the section, and succeeds if and only if the index ends behind them or goes on for at least 21 octets. |
| ShareFile.LenIsOctets | src/client/shared.c:37-68 | The length of an index is that of the octets it is written as. |
| ShareDiff.NothingIsCut | src/client/shared.c:376-402 | If no directory but the first lies within 21 octets of the end of the index, no visit fails and none is missed. |
| ShareDiff.ShortTailHasNoFile | src/client/shared.c:376-402 | The records lost to a failed read ahead are directories only. |
| ShareDiff.ListingIsFlat | src/client/shared.c:481-486 | The listing of a tree is that of its directories in preorder, one after the other. |
| ShareDiff.SeenUnlessCut | src/client/shared.c:481-486 | A walk that misses nothing comes to every directory in preorder, and any other to fewer. |
| ShareDiff.SeenIsPart | src/client/shared.c:481-486 | The files of the directories a walk comes to are files of the tree, each at most as often. |
| ShareDiff.UnchangedTree | src/client/shared.c:407-497 | An unchanged tree has an empty diff, always. |
| ShareDiff.TrackVisit | src/client/shared.c:407-497 | Along an index that lists the tree already no record is announced or withdrawn, and the cursor ends where the listing ends or has lost a short tail. |
| ShareDiffer.Differ.AddSharedFile | src/client/shared.c:89-115 | Writes the record and announces the file. |
| ShareDiffer.Differ.AddSharedFiles | src/client/shared.c:120-132 | Writes and announces the files from an index on, in order. |
| ShareDiffer.Differ.AddDir | src/client/shared.c:137-163 | Writes the directory and all its files and announces these. |
| ShareDiffer.Differ.UpdateFile | src/client/shared.c:168-193 | Withdraws the old md5 before it announces the new one, and writes the new record. |
| ShareDiffer.Differ.RemoveDir | src/client/shared.c:198-227 | Withdraws the files up to the next directory and stops there. |
| ShareDiffer.Differ.RemoveAllFiles | src/client/shared.c:232-273 | Withdraws every file that is left. |
| ShareDiffer.Differ.MergeFiles | src/client/shared.c:278-371 | The merge with its step back: terminates, and what it has written and what is still to come always make up the merge of the two lists. |
| ShareDiffer.Differ.UpdateDir | src/client/shared.c:278-371 | Writes exactly the records of the directory if equal times can be trusted, and the merge of the two lists as diff. |
| ShareDiffer.Differ.CopyDir | src/client/shared.c:376-402 | Copies the files of a directory; fails exactly when between 1 and 20 written octets are left behind them, and then loses these. |
| ShareDiffer.Differ.Diff | src/client/shared.c:407-497 | Terminates; keeps the books balanced (each old file kept or withdrawn, each new one kept or announced); writes exactly the records of the directories the walk comes to; fails exactly when the visit of this directory stalls. |
| ShareDiffer.CreateDiff | src/client/shared.c:502-557 | The new index lists the directories the walk comes to, and so the whole tree if and only if it misses none, for every old index; replaying the diff on the old files gives the new ones and those left over; a failure keeps the old index. |
| ShareDiffer.SameRootLeavesNothing | src/client/shared.c:466-471 | With the root the index began with nothing is left over. |
| ShareDiffer.UnchangedTreeCanFail | src/client/shared.c:376-402 | A concrete unchanged tree on which the read ahead fails at the root. |
| ShareDiffer.ReadAheadBoundary | src/client/shared.c:380-383 | With one empty subdirectory, all unchanged, the diff fails if and only if its path is at most 14 octets long. |
| ShareDiffer.NestedFailureLosesDirectories | src/client/shared.c:482-486 | A concrete tree in which a failure below the root is ignored and a directory is lost. |
| ShareDiffer.MovedFileIsWithdrawn | src/client/shared.c:407-497 | A literal tree: its one file moves from "/s/b" to "/s/a", and the diff is its announcement followed by its withdrawal. |
| ShareDiffer.ChangedRootLeavesFiles | src/client/shared.c:466-471 | A literal share that is narrowed to a subdirectory: the file beside it is never withdrawn. |
| ShareMerge.FileMergeSigns | src/client/shared.c:278-371 | The merge of a changed directory announces exactly the files it gains, withdraws exactly those it loses, and withdraws none after announcing it. |
| ShareMerge.MergeSettles | src/client/shared.c:407-497 | Of two lists of directories in any order: a file that changes its directory is both withdrawn and announced, in the order in which the merge comes to the two. |
| ShareMerge.OvertakenIsWithdrawn | src/client/shared.c:407-497 | The merge withdraws a file it has announced if and only if it comes to its new directory before its old one. |
| ShareMerge.OvertakenIsMovedUp | src/client/shared.c:447-475 | With both lists in the order of their paths: if and only if the path of the new directory compares below that of the old one. |
| ShareMoves.DiffIsMerge | src/client/shared.c:502-557 | The diff written along the recursion is the merge of the old directories with the ones the walk comes to, but for the withdrawals of what is left over. |
| ShareMoves.SeenIsReached | src/client/shared.c:407-497 | With the directories in order, the walk comes to exactly those not below the first guarded one: unchanged, and directly before a short tail of the index. |
| ShareMoves.CutIffMissed | src/client/shared.c:376-402 | With the directories in order, directories are missed if and only if the first guarded one has some below it, and the whole diff fails if and only if the root is guarded. |
| ShareMoves.MovedUpIsReached | src/client/shared.c:376-402 | Missed directories make no difference to which files have moved up, because nothing above a guarded directory has a file. |
| ShareMoves.WithdrawnIffOvertaken | src/client/shared.c:502-557 | For any index that lists directories, any tree and any file that is not left over: the diff withdraws a file it has announced if and only if the merge of the two lists of paths comes to its new directory before its old one. |
| ShareMoves.WithdrawnIffMovedUp | src/client/shared.c:502-557 | With the directories in order: if and only if the file is under a path of the old index and under a lower one in the tree. |
| ShareMoves.LeftOverIsBehind | src/client/shared.c:466-471 | With the directories in order: a file is left over if and only if the root compares above the one the index began with and the file is in a directory above all those of the tree. |
| ShareMoves.TreeIsSorted | src/client/shared.c:481-486 | If subdirectories come in the order of their names and no octet of a name compares below the slash, the directories of a tree come in the order of their paths. |
| ShareMoves.SiblingIsWithdrawn | src/client/shared.c:447-475 | A literal tree with "/s/a/x" and "/s/a-b": once "/s/a/x" is gone the unchanged file in "/s/a-b" is announced again and then withdrawn. |
| Streams.ReadLine | src/common/ioutil.c:29-73 | Reads up to the last octet or the room of the buffer; the count is right when the last octet is met and one too high otherwise. |
| Shipping.SendShare | src/client/client.c:570-652 | Terminates although it steps back; each packet holds whole records, fits 1024 octets with the port, and would have reached them with the next record; together they are the diff file. |
| Shipping.RecordReads | src/client/client.c:583-611 | The two reads of a record return exactly its octets, whatever octets the md5 has. |
| Delivery.AddFiles | src/client/superpeer.c:238-272 | Parses the octets of whole records back into them and carries them out on the file index, for md5 octets of any value, comparing whole names or as the code does. |
| Delivery.UpdateFileList | src/client/client.c:496-517 | Takes the port from the first two octets of the packet and carries out the rest. |
| Delivery.ShipShare | src/client/client.c:570-652 | Shipping a diff in order, each packet made into octets, read back and repeated at once any number of times, changes the index as the diff alone does. |
| Delivery.DeliveredHas | src/client/superpeer.c:260-266 | After any sequence of records the last one about a file decides; files of others are untouched. |
| Delivery.DeliveredTwice | src/client/hashtable.c:189-202 | Carrying out a packet twice in a row is the same as once. |
| Delivery.EndToEnd | src/client/client.c:570-652 | In order, the superpeer ends with exactly the new share if and only if no file is withdrawn after it was announced. |
| Delivery.EndToEndWithRest | src/client/client.c:570-652 | The same where files of the old share are left over: each of them must be one of the new share, and no other may be withdrawn after it was announced. |
| Delivery.AnyOrder | src/client/superpeer.c:238-272 | If no file carries both signs, any order with any repetition gives the same records. |
| Delivery.ShipInAnyOrder | src/client/client.c:570-652 | Where no file carries both signs the packets may come in in any order, any number of times each: the superpeer ends with exactly the new share. |
| EndToEnd.AllChangesSendable | src/client/shared.c:72-84 | Names that fit a line give diffs that fit the packets. |
| EndToEnd.UpdateShare | src/client/shared.c:502-557 | From the tree to the records, with trusted times and no file shared twice, names compared as in the code or whole: the superpeer ends with the files of the new index if and only if every file left over is one of them and no other is overtaken; with the directories in order this is decided by their paths, the update fails if and only if the root is unchanged and directly before a short tail, and the new index is the whole tree if and only if the first such directory has none below it. |
| EndToEnd.SameRootKeeps | src/client/shared.c:466-471 | With the root the index began with it is the overtaken files alone that decide. |
| EndToEnd.UpdateAgainAndAgain | src/client/shared.c:502-557 | Over any number of updates, failed and incomplete ones included, the superpeer has exactly the files of the index as long as no update overtakes a file or leaves one over that is shared no more. |
| EndToEnd.MovedFileIsForgotten | src/client/shared.c:278-371 | For a moved file the superpeer ends without the record although old and new share hold the file once. |
| Upload.GetFileInfo | src/client/uploader.c:177-184 | The least number of chunks that hold the file. |
| Upload.ChunksPartition | src/client/uploader.c:177-184 | Each octet of a file lies in exactly one chunk. |
| Upload.ChunkBounds | src/client/uploader.c:225-238 | Chunks follow each other, none is empty, all but the last are full, and no offset overflows an int. |
| Upload.GetPartNumber | src/client/uploader.c:225-238 | The number of parts of 1024 octets that make up the chunk. |
| Upload.SendChunk | src/client/uploader.c:186-223 | The parts concatenate to exactly the octets of the chunk, all but the last are 1024 octets long and only the last has NEXT_CHUNK clear; a chunk beyond the file fails before anything is sent. |
| PartFile.CreateInfoStr | src/client/uploader.c:240-256 | What is answered first tells everything about the file: no other name, md5 or size gives the same octets. |
| PartFile.FillFileInfo | src/client/downloader.c:409-426 | Reads them back, and refuses exactly another md5. |
| PartFile.CreateFilePart | src/client/downloader.c:442-476 | A record with no chunk. |
| PartFile.WriteFilePart | src/client/downloader.c:340-353 | The octets become those of the record with the new count and the chunk appended. |
| PartFile.LoadFilePart | src/client/downloader.c:478-531 | Accepts exactly a record of the same md5, size and number of chunks, and returns its name and counts. |
| PartFile.MissingIsComplement | src/client/downloader.c:683-696 | The missing chunks are exactly those not owned, increasing. |
| PartFile.MissingCount | src/client/downloader.c:663-702 | There are exactly as many as the number of chunks minus the owned ones. |
| PartFile.GetMissingChunk | src/client/downloader.c:663-702 | Reads the owned chunks and fills exactly the slots allocated with the missing ones. |
| Download.GetChunk | src/client/downloader.c:355-390 | Writes what arrives of a chunk at its place, and succeeds exactly when all of it has arrived. |
| Download.PartialChunk | src/client/downloader.c:355-390 | However little of a chunk arrives, every recorded chunk still matches the source. |
| Download.WholeChunk | src/client/downloader.c:145-160 | A whole chunk may be recorded. |
| Download.Complete | src/client/downloader.c:163 | With every chunk recorded, the size test passes if and only if the output file was not longer than the source to begin with, and then the output is the source. |
| Download.OldFileIsTooLong | src/client/downloader.c:163 | A literal file of two octets in the way of a source of one. |
| Download.Files.OpenFilePart | src/client/downloader.c:635-661 | Creates or loads the record; fails exactly on another size and then changes nothing. |
| Download.Files.Session | src/client/downloader.c:6-174 | A session that breaks off anywhere has written exactly the chunks it came to and the parts of the next that arrived, each at its place, and leaves the record right: distinct chunks in range, as many as counted, each matching the source; it completes exactly when it is not broken off and the output was not too long, and then the output is the source. |
| Download.Resume | src/client/downloader.c:6-174 | The same over any number of sessions; one unbroken session is enough. |
| PeerList.Peers.SortedInsertPeer | src/client/peer_list.c:27-55 | Inserts before the first smaller rate, unless the walk to that place comes across the address. |
| PeerList.Peers.GetNodePeer | src/client/peer_list.c:91-105 | Finds the peer of an address if and only if it is listed. |
| PeerList.Peers.RemovePeerNode | src/client/peer_list.c:110-120 | Exactly that peer goes, and the count with it. |
| PeerList.Peers.GetAddrHead | src/client/peer_list.c:137-146 | The address of the first peer, if any. |
| PeerList.Peers.UpdatePeerFlag | src/client/peer_list_checker.c:124-151 | Marks the peer alive and sets its rate in place. |
| PeerList.JoinedSorted | src/client/peer_list.c:27-55 | An insertion keeps the order by rate. |
| PeerList.JoinedOneEach | src/client/peer_list.c:27-55 | An insertion keeps addresses distinct if and only if a listed address is met on the way to the place. |
| PeerList.AddressOccursTwice | src/client/peer_list.c:27-55 | A literal list on which an insertion lists an address twice. |
| PeerList.RefreshSorted | src/client/peer_list_checker.c:136-140 | A new rate keeps the order if and only if it fits between those of the neighbours. |
| Membership.Members.constructor | src/client/superpeer.c:115-159 | A new superpeer has no peer and no record. |
| Membership.Members.PromotePeer | src/client/superpeer.c:196-218 | Promotes the head of the list: with the list in order, a peer of the highest rate. |
| Membership.Members.Join | src/client/client.c:1455-1538 | The whole decision: error, acknowledgement, insertion, silence, redirection or promotion, with the new state in each case. |
| Membership.Members.Leave | src/client/client.c:657-690 | The peer goes, and every record of its ip and port with it. |
| Membership.Members.Register | src/client/client.c:387-417 | Accepts exactly the recorded child address: it leaves the list with its records and becomes the child. |
| Membership.Members.Ping | src/client/client.c:317-341 | A ping marks the peer it comes from alive and sets its rate, and changes no other. |
| Membership.Members.PromoteFailed | src/client/client.c:1710-1723 | Promotes again exactly while the list is full. |
| Membership.Members.Sweep | src/client/peer_list_checker.c:63-114 | Peers without a sign of life go with their records, the others wait for a new one; a promotion times out. |
| Membership.RemainingHas | src/client/peer_list_checker.c:67-74 | A record is left exactly if no swept peer has its ip and port. |
| Membership.KeptWell | src/client/peer_list_checker.c:63-80 | A sweep keeps addresses distinct and the order by rate. |
| Membership.WaitOut | src/client/peer_list_checker.c:104-113 | A promotion holds the superpeer up for at most six sweeps. |
| Membership.KeepChild | src/client/pinger.c:77-107 | The child is kept if and only if no ping finds the three before it unanswered, counting those that an earlier child has missed. |
| Membership.GivenUpAtOnce | src/client/client.c:387-417 | A new child that starts with three missed pongs is given up at its first ping. |
| SignsOfLife.PingKeepsAlive | src/client/peer_list_checker.c:124-151 | Over any events between two sweeps: a listed peer that neither leaves nor registers is kept by the second if and only if it has pinged; without a ping all records of its ip and port are gone, with one they are all there if it alone has these. |
| SignsOfLife.NewPeerIsKept | src/client/peer_list_checker.c:63-80 | A peer that has joined since the last sweep is kept by the next. |
| SignsOfLife.RecordsStay | src/client/peer_list_checker.c:63-80 | Between two sweeps nobody else touches the records of a peer that stays, if it alone has its ip and port. |
| SignsOfLife.SixthSweepCloses | src/client/peer_list_checker.c:104-113 | A promotion opened after a sweep outside one stays open through five sweeps and is closed by the sixth. |
| Membership.Run | src/client/client.c:1455-1538 | In every run the count equals the length of the list, at most 100 peers belong and no address twice; without new rates the list stays in order. |
| Promotions.Follow | src/client/client.c:387-417 | Any run of events acts on everything the superpeer knows, peers, records and promotion, as one function of it, and is answered as that function says. |
| Promotions.ChildIsLastToAcknowledge | src/client/client.c:457-458 | In any run the child is whoever sent the last acknowledgement that came in while a promotion was open, whatever it acknowledged. |
| Promotions.PromotedRegisters | src/client/client.c:387-417 | A promoted peer is accepted as a superpeer if and only if the last acknowledgement that came in while the promotion was open is its own, or none came and it was the child before. |
| Promotions.RegistrationIs | src/client/client.c:387-417 | A registration that is accepted makes the superpeer active and the peer its child, off the list, with the old count of missed pongs; any other changes nothing. |
| Promotions.StrayAcknowledgement | src/client/client.c:457-458 | A second peer that acknowledges anything while the promotion is open takes the place of the promoted one. |
| Promotions.SettlePromotion | src/client/peer_list_checker.c:104-113 | An open promotion stays open if and only if there are no more sweeps than its timeout, the child neither registers nor aborts, and it was delivered; once closed it leaves the superpeer active. |
| Retx.GivenUpOnce | src/client/retx.c:25-57 | An unacknowledged packet is reported exactly once: at tick 27 if no send fails, between ticks 14 and 57 in any case, after at most five retransmissions. |
| Retx.Schedule | src/client/retx.c:25-57 | Without failures it is sent again at ticks 2, 5, 9, 14 and 20 and reported at tick 27, and nothing after. |
| Retx.AttemptsAre | src/client/retx.c:28-57 | The exact ticks under any failures: the first attempt is at tick 2; after a failed one at tick t with n sends so far the next is at t + n + 1, after a successful one at t + n + 2; and nothing in between. |
| Retx.ReportedAt | src/client/retx.c:37-48 | The report comes at tick 27 and what the failures have cost, each one tick more than the sends so far; or, after six failures, when the next attempt was due. |
| Retx.PacketList.RetxSend | src/client/retx.c:67-88 | Exactly a packet that could be sent is watched, in front of the others. |
| Retx.PacketList.Tick | src/client/retx.c:25-57 | Each packet ticks for itself, once; what is sent and reported are the packets whose turn it is, in list order. |
| Retx.PacketList.GetPacketNode | src/client/packet_list.c:52-66 | The first packet of that index, if any. |
| Retx.PacketList.RetxStop | src/client/retx.c:90-117 | Removes exactly the first packet of that index, if any. |
| Retx.SilentOnceStopped | src/client/retx.c:90-117 | After an acknowledgement nothing is watched under its index if and only if at most one packet was; and then none is ever sent again. |
| RetxRuns.Run | src/client/retx.c:25-117 | Over any run of sends, ticks and acknowledgements each watched packet is where its own history since its first send has led it, and what is sent again and reported is what these histories say. |
| RetxRuns.ReportedOnce | src/client/retx.c:25-57 | Among any other packets, one that stays unacknowledged is reported exactly once, between its ticks 14 and 57, at 27 if no send of it has failed, after at most five retransmissions. |
| RetxRuns.AckStopsTheLatest | src/client/packet_list.c:52-66 | An acknowledgement of a packet stops that packet if and only if no packet sent later is still watched under the same index; otherwise it stops that one. |
| RetxRuns.AckClearsIndex | src/client/retx.c:90-117 | In any run: after an acknowledgement nothing is watched under its index if and only if at most one packet was. |
| RetxRuns.GoneForGood | src/client/retx.c:90-117 | A packet that is watched no more is never sent again and never reported, whatever follows. |
| RetxRuns.SilentOnceAcked | src/client/retx.c:90-117 | Once 57 ticks have passed since an acknowledgement, with no other of its index and no new packet of it: something of the index was sent again or reported if and only if a packet is still watched under it that had not been given up before. |
| RetxRuns.TwoPages | src/client/client.c:734-744 | A literal reply of two pages: acknowledging the first forgets the second, and the first is sent again. |
| Bootstrap.SpList.GetNodeSp | src/bootstrap/sp_list.c:70-83 | Finds the entry of an address if and only if it is listed. |
| Bootstrap.SpList.InsertSp | src/bootstrap/sp_list.c:6-29 | A new superpeer goes in front, a known one is marked alive; the iterator stays at its node. |
| Bootstrap.SpList.RemoveSp | src/bootstrap/sp_list.c:34-49 | Exactly that entry goes; an iterator at it moves to the next node, or the one before, or to null, and otherwise stays. |
| Bootstrap.SpList.UpdateSpFlag | src/bootstrap/sp_list_checker.c:70-109 | Marks exactly that superpeer alive and sets its room; fails exactly if it is not listed. |
| Bootstrap.SpList.Sweep | src/bootstrap/sp_list_checker.c:42-56 | Exactly the superpeers without a sign of life go, the others keep their order and wait for a new sign; the count stays right and the iterator live, and in place unless its own superpeer goes. |
| Bootstrap.AfterSweepHas | src/bootstrap/sp_list_checker.c:42-56 | An entry stays if and only if it has given a sign of life, which it must give again. |
| Bootstrap.SpList.GetAddr | src/bootstrap/sp_list.c:89-100 | The address at the iterator, which moves on and around. |
| Bootstrap.SpList.SetStrAddrlist | src/bootstrap/bootstrap.c:83-110 | Writes the next addresses in turn, as many as there are but at most two, and moves the turn on by one. |
| Bootstrap.SpList.GetAddrSp | src/bootstrap/sp_list.c:111-136 | The first superpeers with room, at most two, last found first. |
| Bootstrap.SpList.SetStrAddrlistSp | src/bootstrap/bootstrap.c:111-140 | Writes exactly those; fails exactly if nobody has room. |
| Bootstrap.SpJoin | src/bootstrap/bootstrap.c:174-228 | The first client and the only superpeer are told to promote themselves; every other client gets a list if it is a peer or somebody has room, and no reply otherwise; a superpeer is told of the first two with room. |
| Bootstrap.FairRotation | src/bootstrap/bootstrap.c:83-110 | Over n replies of k turns among n entries each entry is handed out exactly k times. |
| Bootstrap.Round | src/bootstrap/bootstrap.c:174-228 | As many peers join as there are superpeers: each is told a list without repeats, and every superpeer is handed out twice, or once if it is the only one. |
| Framing.PckToB | src/common/packet_util.c:103-116 | The octets of a packet, which begin with those of no other packet. |
| Framing.BToHeader | src/common/packet_util.c:118-130 | Reads back the header of any packet. |
| Framing.BToPck | src/common/packet_util.c:132-147 | Reads back the whole packet. |
| Framing.WriteN | src/common/ioutil.c:10-27 | Whatever the single writes take, the stream gains a prefix of the buffer, all of it exactly on success, and success unless a write fails. |
| Framing.ReadN | src/common/ioutil.c:130-154 | Whatever the single reads return, the buffer is filled unless the stream ends, and the result is what is missing. |
| Framing.SendPacketTcp | src/common/packet_util.c:204-213 | The stream gains the octets of the packet. |
| Framing.RecvPacketTcp | src/common/packet_util.c:167-190 | Returns the packet the stream goes on with; a stream that ends inside a packet reads as closed. |
| Framing.ReceiveAll | src/common/packet_util.c:167-190 | A stream of packets is read back as exactly those packets, under any pattern of short reads. |
| Framing.SendAll | src/common/packet_util.c:204-213 | Any sequence of packets is written as their octets one after the other, under any pattern of short writes. |
| Paging.Reply | src/client/client.c:716-798 | Pages of at most 1024 octets holding whole entries, in order, none with room for the entry after it; ends for every list of results. |
| Paging.FullPages | src/client/client.c:729-787 | A page is closed only when there is no room for the next entry, 22 octets by name, 6 and the name by md5. |
| Paging.ReadPage | src/client/client.c:866-928 | Reads what the entries of a page say, and fails exactly when they are cut short or a newline is missing. |
| Paging.PagesReadBack | src/client/client.c:866-928 | Pages that restart right behind their header are read back as exactly the results, in order. |
| Paging.Md5ReplyReadBack | src/client/client.c:792 | Replies to a search by md5 are read back as the results if and only if pages restart at 16 or everything fits on one page. |
| Paging.FourResultsAreMisread | src/client/client.c:792 | Four results with the longest names take two pages, and their reply is not read back. |
| Answers.Answer | src/client/client.c:716-798 | The pages list exactly the matching records of the index, none twice, and are read back so under that same condition. |
| Answers.AnswerQuery | src/client/client.c:716-798 | With the key behind the address in the payload and the pages restarting one octet behind it, a reply by name is read back always and one by md5 if and only if it fits 1024 octets. |

## Left out

- FileIndex.Index.InsertFile: compares whole names; `NameTests.InsertFile` has the test of the code and says exactly when the two agree.
- FileIndex.Index.RemoveFile: compares whole names; `NameTests.RemoveFile` has the test of the code and says exactly when the two agree.
- FileIndex.Index.GetByName: compares whole names; `NameTests.GetByName` has the test of the code and says exactly when the two agree.
- FileIndex.FindInfo: compares whole names, see `NameTests.RemoveFile`.
- FileIndex.Index.RemoveAllFile: as `FileIndex.RemoveAllOf`, which it calls.
- FileIndex.Run: takes the hash of an ip as unsigned; `iphash` takes a `long`, which is negative for addresses of 2^31 and above, and then indexes in front of its array (src/client/hashtable.c:100-102).
- Delivery.AddFiles: with the tests of the code it is stated among records that these tell apart (`NameTests.ToldApart`); what each of them does otherwise is in `NameTests`.
- FileIndex.RemoveAllOf: reads the successor of a node before it is freed; the code reads it after (src/client/hashtable.c:563).
- NearList.Overlay.JoinOverlay: requires that the acknowledged connections fit `near_str`; the code writes behind the string otherwise (src/client/superpeer.c:71).
- NearList.Overlay.InsertNear: a new neighbour has advertised nothing yet; the code leaves the count of advertised addresses uninitialised (src/client/near_list.c:101-113).
- PartFile.WriteFilePart: the two writes of the count and of the chunk are one step; a session breaks off before or after them.
- Upload.SendChunk: chunk numbers whose offset overflows an `int` are not requested.
- FloodCoverage.FloodCovers: assumes a static, symmetric overlay with truthful advertisements and no expiry during the query; without them a skipped neighbour can be missed.
- ShareDiffer.CreateDiff: the tree does not change during a run, equal times mean equal contents, and the index is a sequence of records that starts with a directory.
- EndToEnd.UpdateShare: which directories are missed is stated on the inputs only for directories in the order of their paths; otherwise by the walk (`ShareDiff.Seen`). The peer's address stays the same and no other peer of the same ip and port writes to the index in between.
- Flood.SuperPeer.WhohasRequest: the payload of a query, with the address the first superpeer puts in front of it, is not modelled.
- Paging.ReadPage: fails on an entry that is cut short; the code tests no entry length and reads on behind the page (src/client/client.c:884-893, 911-925).
- Retx.PacketList.RetxSend: a failed send leaves the mutex locked in the code (src/client/retx.c:75-78), which a sequential model cannot show.
- Membership.Members.Sweep: the sweep of the recorded queries in the same loop is `Requests.RequestList.Sweep`.
- Neighbours and recorded queries are sequences; the pointers of near_list.c and fifo_request.c, and the splitting of a shared query record into fields, are not modelled.
- Locked regions and handlers are single steps: no interleaving of threads inside them, no error path of a mutex, a pipe or a socket.
- Octets a superpeer appends to a query before it forwards it, and the packet indices it draws.
- The join of a client itself (bootstrap and superpeer lists, redirects, promotion of itself) and `add_sp_file`, which loads the superpeer's own diff into its index with the same records.
- `remove_filepart` and the list of downloads by md5; `get_filepath`; `transfer_list.c`.
- The computation of an md5, `scandir` and `lstat`: digests and directory trees are inputs, in the order `scandir` gives.
- Keyboard commands, configuration, printing, rates (`peerrate.c`), timers and thread management.
- Failure of `malloc`, buffers too small for a name, and malformed packets.
