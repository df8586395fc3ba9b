# StarStruck kernel: models and proofs

This project models the parts of the starlet kernel whose correctness is hardest to see by
reading one function, and proves properties of them that span functions, calls and whole runs.
Each area is a few modules; methods are the code, functions and predicates are what it is
measured against, lemmas are what follows.

* **FAT volume** (`FatTypes`, `SectorWindow`, `FatTable`, `ClusterChains`, `FileBytes`,
  `FatVolume`, `FatDirectory`, `FatFile`, `FatSession`, `FatSharing`, `FatLayout`). FatFs as it is built here: one 512-byte
  sector size, one shared sector window, no long names. The medium is a sequence of sectors, and
  everything is measured against the *view*: the medium as it would be after writing a dirty
  window back. In four layers: the window never changes the view by moving; the first FAT of the
  view is a table of 12-, 16- or 28-bit entries; chains in that table stay chains over every run
  of allocations and releases; an open file is the byte string its chain spells in the view,
  and two files open at once are each what their own calls make of them. `FatLayout` says where all
  of it lies on the medium, byte by byte.
* **Messages between the two processors** (`MessageQueues`, `IpcRing`, `IpcProtocol`,
  `IpcProgress`, `MessagePool`). The queue and ring classes are the code; the protocol is a machine
  whose steps are the points where interrupts, resource managers and the PowerPC can come in
  between. The PowerPC is assumed to send a request only when the one before was acknowledged, and to ask for
  another reply only when it took the last one.
* **Generation counter** (`NandCounter`), **NAND ECC** (`NandEcc`), **heap** (`Heap`),
  **keyring** (`Keyring`), **SHA-1 and HMAC** (`Sha`, `ShaLaws`, `ShaEngine`), **page tables**
  (`PageTables`, `PageRanges`, `PageRounds`, `Mapping`) and **formatted output** (`Format`,
  `FormatLaws`, `Printf`), each with one main theorem.

Where the code does not do what its purpose suggests, the code is kept and the exact condition is
proved:

* `f_read` fetches whole sectors past the window, so it returns stale bytes exactly if the first
  run it fetches contains a sector that still waits, changed, in the window (`FatFile.File.Read`,
  with `FatSession.StaleReadExample` as an instance). A synchronisation in between rules it out
  (`FatSession.WriteSyncRead`).
* A request from the PowerPC whose address is refused keeps its place in the ring for good. In
  every reachable state the PowerPC can still be acknowledged if and only if fewer than 48 were
  refused (`IpcProgress.AcknowledgeableExactly`), and there are runs that refuse 48
  (`IpcProgress.RunOfLeaks`). Until then every request is acknowledged, whatever the order of
  steps, after a number of them that is bounded beforehand (`IpcProgress.AlwaysAcknowledged`).
* `ResourceReply` recognises a reply by the message and the process alone, so a process that answers
  a message twice has the second answer accepted exactly if the message was claimed anew for it and
  its caller still waits with it (`MessagePool.AcceptedExactly`); then the message is given back
  twice if the send fails (`MessagePool.StaleReplyBreaks`). In all states of a run the counts are
  right and each message is in one place, if and only if no such answer was accepted
  (`MessagePool.RunsKeepInvExactly`).
* `MapMemory` compares the remaining size with 0xFFFFF where a megabyte is 0x100000. Its loop never
  ends if and only if the range comes down to 0xFFFFF bytes at a megabyte boundary and nothing is
  in the way of the pages before its first whole megabyte (`PageRounds.NeverEndsExactly`).
* `f_lseek` and `dir_next` mask with the cluster size less one; mounting does not check that this
  is a power of two. Seeking from the current cluster lands in the right sector if and only if the
  mask rounds the old position down (`FatFile.ShortcutExactly`), which it always does if and only if
  the cluster size is a power of two (`FatFile.ShortcutAlways`, `FatDirectory.TurnsSeen`).
* The entries of a static root directory are walked to the end of its last sector, past their
  number if that is no multiple of 16 (`FatDirectory.Directory.Next`).
* `put_cluster` writes all 32 bits of an entry: the four reserved bits survive if and only if they
  were zero (`FatVolume.ReservedBits`).
* Releasing a chain from a cluster that another links to leaves that link dangling: the table is
  one of chains afterwards if and only if the release starts at a first cluster
  (`ClusterChains.ReleasedInside`).
* `nand_correct` restores a flipped data bit even together with a flipped bit of the stored word if
  that bit is one of the eight that carry no parity, and reports every other pair
  (`NandEcc.DataAndEccBit`).
* `vsnprintf` prints `0` for zero with precision zero, where ISO C99 prints nothing
  (`FormatLaws.IntegerConversion` says exactly when), and does not pad `%c`
  (`FormatLaws.CharacterConversion`). With the grouping flag a number comes out short of its width
  exactly if something is grouped and the precision asks for zeros (`FormatLaws.GroupedFills`).

`dafny verify dfyconfig.toml` checks everything.

## Model

| member | source | states |
|---|---|---|
| SectorWindow.PatchCopies | kernel/source/ff.c:225-235 | after a dirty FAT sector is flushed, every copy of it on the medium has the window's content |
| SectorWindow.PatchMirrors | kernel/source/ff.c:225-235 | if all FAT copies were equal, they are equal after flushing any dirty sector, FAT or not |
| FatLayout.MirroredIs | kernel/source/ff.c:225-235 | that equality in plain terms: sector s of the FAT is the same in each of its copies |
| SectorWindow.PatchFrame | kernel/source/ff.c:225-235 | a flush changes nothing but the sector shown and the later FAT copies |
| FatVolume.Volume.MoveWindow | kernel/source/ff.c:213-245 | moving the window never changes the view of the volume; afterwards the window shows the sector asked for, or is clean if 0 was asked for; an unchanged window writes nothing |
| FatVolume.Volume.WriteBack | kernel/source/ff.c:225-236 | writing back makes the medium equal to the view, with all FAT copies |
| FatVolume.Volume.WriteToCopies | kernel/source/ff.c:230-234 | the loop over the copies writes exactly copies 1 to n_fats - 1 of the sector |
| FatVolume.Volume.Retarget | kernel/source/ff.c:1813-1817 | taking a clean window for another sector without reading it keeps the view |
| FatVolume.Volume.DiskWrite | kernel/source/ff.c:1793-1802 | a transfer past the window changes the view on its sectors only, to the data; a window inside it takes its content and is clean, one outside keeps its content and stays to be written |
| FatVolume.Volume.Sync | kernel/source/ff.c:255-281 | afterwards medium and view are equal; the view changes in the FSInfo sector at most, which records the counters if they changed |
| FatVolume.InfoRoundTrip | kernel/source/ff.c:264-273 | the counters a synchronisation records are those the next mount reads |
| FatLayout.ViewSector | kernel/source/ff.c:213-245 | the view sector by sector: a dirty window stands for its sector and, in the first FAT, for that sector of every copy; all else is the medium |
| FatLayout.TableEntry | kernel/source/ff.c:293-325 | an entry is the 12 bits at bit 12 * c of the FAT, or the 16 at 16 * c, or the low 28 of the 32 at 32 * c, lowest byte first |
| FatLayout.InfoLayout | kernel/source/ff.c:264-273 | the FSInfo sector written: signatures, the counters at 488 and 492 lowest byte first, the mark 0xAA55, and zeros |
| FatLayout.InfoRead | kernel/source/ff.c:1458-1470 | mounting takes the counters from there exactly if mark and signatures are right |
| FatTable.EntryPlace12 | kernel/source/ff.c:307-311 | the 16-bit arithmetic on the cluster number finds the right byte for every FAT12 cluster |
| FatTable.EntryPlace16 | kernel/source/ff.c:315-317 | the same for 16-bit entries, of any cluster number, and the entry lies in one sector |
| FatTable.EntryPlace32 | kernel/source/ff.c:319-321 | the same for 32-bit entries |
| FatTable.StoreLoad | kernel/source/ff.c:335-386 | an entry read after it was set is the value modulo 2^12, 2^16 or 2^28; for the top four bits see `FatVolume.ReservedBits` |
| FatTable.StoreOther | kernel/source/ff.c:335-386 | setting an entry leaves every other entry alone, also the FAT12 neighbour that shares a byte with it |
| FatVolume.ReservedBits | kernel/source/ff.c:372-375 | a 28-bit value stored in a 32-bit entry is the whole double word there; the four bits above it are what they were if and only if they were zero |
| FatVolume.Volume.GetCluster | kernel/source/ff.c:293-325 | the entry of the table for a cluster number, 1 for any other number; the view stays |
| FatVolume.Volume.PutCluster | kernel/source/ff.c:335-386 | the table of the view gets the value, cut to the entry width, at that cluster and nowhere else; nothing but the FAT and its copies changes; a number that is no cluster changes nothing |
| FatVolume.Volume.PutCluster12 | kernel/source/ff.c:353-366 | the same for an entry whose two bytes may lie in two sectors, with a flush between them |
| FatVolume.Volume.RemoveChain | kernel/source/ff.c:397-427 | on any table whatever, cyclic ones included, the call ends and leaves what releasing step by step leaves; a known free count stays right |
| ClusterChains.ReleaseSuffix | kernel/source/ff.c:411-423 | released from a cluster of a chain, exactly the clusters from there on become free, and are counted |
| ClusterChains.ReleaseOnlyFrees | kernel/source/ff.c:411-423 | on any table, releasing changes entries to free and does nothing else |
| FatVolume.Volume.FindFree | kernel/source/ff.c:458-470 | the circular scan finds the first free cluster after its start; on any table without an entry of 1 it reports none if and only if no entry is zero |
| FatVolume.Volume.CreateChain | kernel/source/ff.c:438-486 | follows a link that is there; otherwise links the first free cluster; on any table without an entry of 1 it fails if and only if no entry is zero, and then changes nothing; a known free count stays right |
| FatLayout.FirstFreeIs | kernel/source/ff.c:458-470 | the cluster found is free, and none between the start of the search and it is, going round behind the last |
| FatLayout.FreeCountIs | kernel/source/ff.c:458-470 | the free count is the number of zero entries from 2 on; the table is full if none is zero, and has no broken entry if none is 1 |
| FatLayout.EndMarkIs | kernel/source/ff.c:472-472 | the mark of a chain's end has ones in all bits of the entry |
| ClusterChains.ChainDistinct | kernel/source/ff.c:438-486 | a chain never visits a cluster twice |
| ClusterChains.ChainUnique | kernel/source/ff.c:438-486 | the first cluster determines the chain |
| FatLayout.ChainIs | kernel/source/ff.c:438-486 | a chain in plain terms: clusters of the table, each linked to the next, the last to none |
| ClusterChains.OnePredecessor | kernel/source/ff.c:438-486 | in a table made of disjoint chains no cluster has two predecessors |
| ClusterChains.Acyclic | kernel/source/ff.c:438-486 | and following links from a cluster in use never leads back to it |
| ClusterChains.StepKeepsChains | kernel/source/ff.c:397-486 | an allocation, or a release from the first cluster of a chain, keeps the table a set of disjoint chains, moves the free count by exactly its effect and changes no other entry in use |
| ClusterChains.RunsKeepChains | kernel/source/ff.c:397-486 | so does every run of them |
| ClusterChains.RunsNoOnes | kernel/source/ff.c:462-470 | in all their tables no entry is 1, so the search for a free cluster never stops for a broken entry |
| ClusterChains.ReleasedInside | kernel/source/ff.c:397-427 | released from any cluster in use, the table is one of disjoint chains afterwards if and only if no other cluster links to it |
| FileBytes.FileSectorDistinct | kernel/source/ff.c:497-505 | no two sectors of a file lie on the same sector of the medium |
| FileBytes.GrowFile | kernel/source/ff.c:1763-1776 | a cluster appended to a file's chain keeps what the file and all others hold and costs one free cluster |
| FileBytes.OtherFileKept | kernel/source/ff.c:1739-1845 | a file on a chain disjoint from the one written keeps its chain and every byte |
| FileBytes.PutRun | kernel/source/ff.c:1789-1807 | whole sectors replaced on the medium are a stretch of the file's bytes replaced |
| FileBytes.RunBytes | kernel/source/ff.c:1689-1698 | sectors fetched are a stretch of the file exactly if each is the file's sector |
| FatLayout.FileByte | kernel/source/ff.c:497-505 | byte i of sector j of the k-th cluster of an open file's chain lies at i of sector database + (chain[k] - 2) * csize + j |
| FatDirectory.Directory.Seek | kernel/source/ff.c:515-549 | stands at entry idx of the table, found by the chain from its first cluster; fails exactly if the table has no such entry or its start is no cluster |
| FatDirectory.Directory.Next | kernel/source/ff.c:559-618 | goes to the next entry; past the last one of a sector of the root directory that holds its last entry, or of a chain, it says so, or if asked to stretches the chain by a cleared cluster, leaving all entries before and all other files as they were |
| FatDirectory.TurnsSeen | kernel/source/ff.c:582-582 | the mask finds every cluster boundary if and only if the cluster size is a power of two; if it is not, the first one is missed |
| FatDirectory.Directory.Stretch | kernel/source/ff.c:586-606 | the stretch alone: the new sectors are zero, no others change, and failure changes nothing |
| FatDirectory.SameSeat | kernel/source/ff.c:515-618 | seeking and stepping to the same entry leave the directory object the same |
| FatLayout.SeatIs | kernel/source/ff.c:515-549 | where a directory object stands: the entry's place in its sector, and the sector in the static table or in its cluster of the chain |
| FatFile.File.Open | kernel/source/ff.c:1631-1640 | opening takes first cluster and size from the entry and stands at the start |
| FatFile.File.Write | kernel/source/ff.c:1739-1845 | takes exactly as many bytes as the chain and the free clusters have room for: none if the size would pass 32 bits, and fewer than asked for only if then no cluster is free and the pointer is behind the last of the chain; the file is its old bytes with the data put over or behind them at the pointer, and as long as it was or as the pointer reaches; everything outside the chain is kept; it fails only on a table with an entry of 1 |
| FatLayout.FullIs | kernel/source/ff.c:1763-1776 | that end in plain terms: no zero entry in the table, and the pointer at the end of the last cluster |
| FatFile.File.WriteLoop | kernel/source/ff.c:1761-1838 | the loop: a short count means that no cluster is free and the chain is full |
| FatFile.File.StartSector | kernel/source/ff.c:1813-1827 | the shortcut at the growing edge, where the sector is not read first, keeps the view |
| FatFile.File.Read | kernel/source/ff.c:1652-1729 | as many bytes as asked for and left; they are the file's bytes exactly if no sector of the first run fetched past the window waits, changed, in it |
| FatLayout.StaleIs | kernel/source/ff.c:1686-1699 | that condition in plain terms: the window is dirty and differs from its sector, and shows one of the whole sectors read first, up to the end of their cluster, none at the start of a later cluster |
| FatFile.File.ReadDirect | kernel/source/ff.c:1686-1699 | the same for one run of whole sectors, clipped at the cluster |
| FatFile.File.Seek | kernel/source/ff.c:1928-2018 | ends at the target, or for a reader at the end of the file, and short of that only where no cluster is free and the chain ends; a writer's file grows to it and keeps its bytes; seeking inside the file never fails and writes nothing |
| FatFile.File.Walk | kernel/source/ff.c:1972-1991 | the walk along the chain reaches the cluster of the target, as `FatFile.WalkFrom` counts, or the last one if no cluster is free |
| FatFile.File.SeekStart | kernel/source/ff.c:1951-1970 | starting at the current cluster or at the first, the walk starts on the chain at a cluster boundary not behind the target |
| FatTypes.ClearBelowRounds | kernel/source/ff.c:1953-1955 | x & ~(n - 1) for a power of two n is x rounded down to a multiple of n |
| FatTypes.ClearBelowExactly | kernel/source/ff.c:1953-1955 | it is that for every x if and only if n is a power of two |
| FatFile.ShortcutExactly | kernel/source/ff.c:1952-1993 | seeking from the current cluster, walked with the code's 32-bit difference, ends in the sector of the byte before the target if and only if the masked pointer is the start of the current cluster |
| FatFile.ShortcutAlways | kernel/source/ff.c:1952-1955 | that holds for all positions if and only if the cluster size is a power of two; otherwise seeking again to one byte past the first cluster goes astray |
| FatFile.File.SyncFile | kernel/source/ff.c:1854-1891 | a changed file's entry gets the archive bit, size, first cluster and time, and the medium equals the view; no other byte of that sector and no other sector but FSInfo changes |
| FatFile.NewEntryKeeps | kernel/source/ff.c:1876-1882 | the name, the other attributes and the creation time of the entry survive |
| FatFile.EntryRoundTrip | kernel/source/ff.c:1876-1882 | opening finds the size and the first cluster that synchronising recorded |
| FatLayout.EntryLayout | kernel/source/ff.c:1631-1640 | an entry's first cluster is the 16 bits at 26 with those at 20 above them, its size the 32 bits at 28, lowest byte first |
| FatLayout.NewEntryLayout | kernel/source/ff.c:1876-1882 | and there, with the time at 22 and the archive bit at 11, synchronising records them |
| FatSession.WriteSync | kernel/source/ff.c:1739-1891 | a write and a synchronisation; the write fails only on a table with an entry of 1, otherwise the file is spliced, the directory entry right, the window clean, and every file on a disjoint chain apart from the directory sector the same in links and bytes; a short count means a full volume |
| FatSession.WriteSyncRead | kernel/source/ff.c:1652-2018 | write, synchronise, seek back, read; if the write does not fail on an entry of 1, the read returns exactly what was written, the size and first cluster are recorded, and every file on a disjoint chain apart from the directory sector is the same in links and bytes; fewer bytes than asked for are written only if the size would pass 32 bits or the volume is full |
| FatLayout.FilesKeptIs | kernel/source/ff.c:1739-1891 | what keeping the other files means: each link and each sector of a chain that shares no cluster and no directory sector is as before |
| FatLayout.OthersKeptIs | kernel/source/ff.c:1739-1891 | what keeping everything outside a chain means: reserved and directory sectors, and the entry and sectors of every other cluster in use |
| FatSession.SyncReopen | kernel/source/ff.c:1554-1891 | opening the entry of a synchronised file again gives the same bytes |
| FatSession.SyncRemount | kernel/source/ff.c:1458-1476 | so does mounting the medium anew and opening the entry there; recorded counters are found again |
| FatSharing.CallOn | kernel/source/ff.c:1652-2018 | with two files open on disjoint chains, a write, seek, read or synchronisation of one has its effect on that one, even if it fails leaves the other valid with the same bytes and position, and keeps the two apart |
| FatSharing.Interleave | kernel/source/ff.c:1652-2018 | calls on two files in any order: until one fails, each file is at every moment what its own calls make of it; a write or seek falls short only if the file then has every cluster the other leaves it; on a table without an entry of 1 none fails |
| FatSharing.Writers | kernel/source/ff.c:1739-1845 | two writers interleaved in any way, as long as the volume does not fill: each file has what was written to it, in order, over or behind what it had |
| FatSession.PositionFormula | kernel/source/ff.c:1676-1725 | with a file pointer above 0 the current cluster is element (fptr - 1) / bcs of the chain and csect the sector in it plus one; inside a sector dsect is the sector of the file that holds fptr |
| FatSession.SamePosition | kernel/source/ff.c:1951-2009 | two objects open on one file at one position agree in cluster and sector, however each got there |
| FatSession.StaleReadExample | kernel/source/ff.c:1652-2018 | a concrete medium and file: write one byte, seek to 0, read the sector; what comes back is not the file |
| MessageQueues.MessageQueue.SendMessageToQueue | kernel/source/messaging/messageQueue.c:157-199 | puts the message behind all those waiting, which stay as they are, unless the queue is full; full, it refuses or makes the sender wait |
| MessageQueues.MessageQueue.JamMessage | kernel/source/messaging/messageQueue.c:74-131 | puts the message before all others |
| MessageQueues.MessageQueue.ReceiveMessageFromQueue | kernel/source/messaging/messageQueue.c:231-267 | takes the oldest message |
| MessageQueues.MessageQueue.EnqueueEventHandler | kernel/source/interrupt/irq.c:216-238 | puts the registered message behind all those waiting; nothing if the queue is full |
| MessageQueues.MessageQueue.Serve | kernel/source/messaging/messageQueue.c:157-267 | over any sequence of sends and receives, what was received and what still waits are together what was sent and taken, in order |
| IpcRing.CircularBuffer.SendIpcRequest | kernel/source/messaging/ipc.c:99-114 | sends the oldest ready reply if the PowerPC asked for one, and the acknowledgement with it exactly if the number waiting falls to 47 |
| IpcRing.CircularBuffer.FlushAndSendRequest | kernel/source/messaging/ipc.c:141-146 | puts a reply behind all others, then sends |
| IpcRing.RingIs | kernel/source/messaging/ipc.c:99-146 | the ring of the protocol does what the buffer does, and 48 requests fill it |
| IpcRing.CircularBuffer.Vacant | kernel/source/messaging/ipc.c:141-142 | the slot a reply is put into holds none that is still to be sent |
| IpcProtocol.StepKeepsInv | kernel/source/messaging/ipc.c:180-227 | every step of handler, interrupt, resource managers and PowerPC keeps the invariant |
| IpcProtocol.RunsKeepInv | kernel/source/messaging/ipc.c:161-390 | the invariant holds in every state of every run |
| IpcProtocol.BackPressure | kernel/source/messaging/ipc.c:203-223 | ready <= waiting <= 48; the PowerPC is unacknowledged exactly while its request is pending or 48 wait, one cleared and not yet counted among them; each request is acknowledged at most once |
| IpcProtocol.NothingDropped | kernel/source/messaging/ipc.c:82-82 | the handler's queue of 50 never fills and refuses nothing, no reply is sent twice, and the branch for an unknown interrupt is never taken |
| IpcProtocol.NeverFull | kernel/source/messaging/ipc.c:426-461 | replies under way and the one masked interrupt together stay below the queue's size |
| IpcProtocol.HandlerBelowLimit | kernel/source/filedesc/calls_inner.c:31-63 | a request about to be handed on finds the handler below its limit of 48 messages |
| IpcProtocol.RepliesInOrder | kernel/source/messaging/ipc.c:99-146 | the PowerPC receives replies in the order they were made ready, each before the next is written |
| IpcProtocol.TakenInOrder | kernel/source/messaging/ipc.c:180-227 | in every run the handler takes messages in the order they were posted, by interrupt, resource managers and itself |
| IpcProtocol.LatchedRight | kernel/source/messaging/ipc.c:184-223 | the message register, read before the cause of the interrupt is known, holds the request that is then taken on |
| IpcProtocol.AtRest | kernel/source/messaging/ipc.c:180-227 | when nothing on this side can move, every request held is a reply waiting for the PowerPC's turn or was refused for its address |
| IpcProtocol.LeaksStay | kernel/source/messaging/ipc.c:226-228 | a request refused for its address holds its place in every later state |
| IpcProtocol.LeaksBlock | kernel/source/messaging/ipc.c:220-228 | after 48 of them the PowerPC is unacknowledged and sends nothing in every later state |
| IpcProgress.InternalWork | kernel/source/messaging/ipc.c:180-228 | every step of this side lowers a measure |
| IpcProgress.InternalPathsEnd | kernel/source/messaging/ipc.c:180-228 | from every reachable state, no sequence of this side's steps alone is longer than that measure, so it always comes to rest |
| IpcProgress.AlwaysAcknowledged | kernel/source/messaging/ipc.c:99-228 | from every reachable state, whatever steps both sides take, a request that waits is acknowledged within a bounded number of them, unless the steps end with 48 requests refused |
| IpcProgress.AcknowledgeableExactly | kernel/source/messaging/ipc.c:99-228 | in every state of every run some continuation acknowledges the PowerPC if and only if fewer than 48 requests were refused for their addresses |
| IpcProgress.RunOfLeaks | kernel/source/messaging/ipc.c:220-228 | there is a run in which 48 are refused, and after which nothing acknowledges |
| MessagePool.Messages.GetFreeFromExtra | kernel/source/filedesc/calls_inner.c:31-63 | claims the first unused message unless the thread is at its limit, and counts it |
| MessagePool.Messages.Release | kernel/source/filedesc/calls_inner.c:201-206 | gives a message back and uncounts it in 32 bits, whatever state it is in |
| MessagePool.Messages.Address | kernel/source/messaging/ipc.c:463-467 | names the process a message is sent to |
| MessagePool.Messages.ResourceReply | kernel/source/messaging/ipc.c:426-461 | gives a message back if it is in use and was sent to the replying process; any other reply changes nothing |
| MessagePool.RunsKeepInv | kernel/source/filedesc/calls_inner.c:211-251 | with replies of any process to any message at any time, each used message is with one caller or one resource manager and the counts are right, as long as no reply found a message with its caller |
| MessagePool.PoolConserved | kernel/source/messaging/ipc.c:438-451 | in such a run a thread's count is the number of messages it uses, within its limit; what a move gives back was in use and counted, so nothing is given back twice and no count underflows |
| MessagePool.SecondReplyRefused | kernel/source/messaging/ipc.c:436-439 | after a reply was accepted, every further reply to that message by any process is refused and changes nothing until it is claimed again |
| MessagePool.AcceptedExactly | kernel/source/messaging/ipc.c:436-439 | a reply is accepted if and only if the message was sent to its process, and is there unanswered or still with the caller that claimed it |
| MessagePool.StaleReplyBreaks | kernel/source/messaging/ipc.c:426-461 | accepted while its caller has it, the message is given back again when the send fails: the count is one lower than the messages in use |
| MessagePool.RunsKeepInvExactly | kernel/source/messaging/ipc.c:426-461 | in all states of a run the counts are right and each message is in one place, if and only if no reply was accepted that way |
| MessagePool.StaleReplyExample | kernel/source/messaging/ipc.c:426-461 | a run of five moves in which one is |
| MessagePool.ClaimRefused | kernel/source/filedesc/calls_inner.c:31-63 | a claim is refused exactly at the limit or when all messages are in use |
| MessagePool.QuietPool | kernel/source/filedesc/calls_inner.c:201-206 | with no caller under way the messages in use are those the resource managers hold |
| NandCounter.MixNeverTorn | kernel/source/crypto/nand.c:16-24 | a valid record partly written over by a valid one is, if its checksum fits, one of the two |
| NandCounter.Seeprom.GetCounter | kernel/source/crypto/seeprom.c:428-490 | finds the highest valid value and the slot to overwrite: an invalid one, else the lowest; fails exactly if there is none |
| NandCounter.TargetIs | kernel/source/crypto/seeprom.c:428-490 | that slot in plain terms: the last invalid one; if all are valid the first of those with the lowest value; none only if all are at 0xFFFFFFFF |
| NandCounter.Seeprom.Layout | kernel/source/crypto/seeprom.c:428-513 | three records of three words from byte 0x5C on: high word, low word and their sum in 16 bits |
| NandCounter.Seeprom.UpdateCounter | kernel/source/crypto/seeprom.c:491-513 | writes the record word by word as far as the power lasts, and no other word of the device |
| NandCounter.Seeprom.GetGen | kernel/source/crypto/nand.c:26-36 | the highest valid value |
| NandCounter.Seeprom.UpdateGen | kernel/source/crypto/nand.c:37-51 | one attempt at the successor, guarded at the end of the range |
| NandCounter.NotTheOnly | kernel/source/crypto/seeprom.c:428-490 | the slot chosen for overwriting is never the only one holding the highest value |
| NandCounter.AttemptKeepsInv | kernel/source/crypto/nand.c:37-51 | an update cut off after any number of words leaves the old value or its successor readable, and the next for certain if complete |
| NandCounter.NeverBack | kernel/source/crypto/seeprom.c:428-513 | over any sequence of updates, each cut off anywhere, the value read never falls and each update raises it by at most one |
| NandCounter.CompleteUpdatesCount | kernel/source/crypto/nand.c:37-51 | n complete updates raise the value by n, up to the end of the range |
| NandCounter.Readable | kernel/source/crypto/iosc.c:554-575 | there is always a generation to read, and a slot to write unless all three are valid at the end of the range |
| NandEcc.DataBitRestored | kernel/source/nand_mini.c:252-272 | one flipped data bit of any chunk is found and flipped back |
| NandEcc.EccBitHarmless | kernel/source/nand_mini.c:256-258 | one flipped bit of the stored word leaves the data alone |
| NandEcc.TwoDataBits | kernel/source/nand_mini.c:259-267 | two flipped data bits are reported uncorrectable, the chunk unchanged |
| NandEcc.TwoEccBits | kernel/source/nand_mini.c:259-267 | so are two flipped bits of the stored word |
| NandEcc.DataAndEccBit | kernel/source/nand_mini.c:259-272 | and one of each, except that with an ECC bit that carries no parity the data bit is restored |
| NandEcc.NothingToDo | kernel/source/nand_mini.c:253-255 | no error, or an unformatted page, changes nothing |
| NandEcc.HalvesLayout | kernel/source/nand_mini.c:256-270 | which bits of the word make the two halves of the syndrome |
| NandEcc.OddNumbers | kernel/source/nand_mini.c:268-270 | the lowest three bits of the odd half number the bit, the others the byte |
| NandEcc.IndexAdds | kernel/source/nand_mini.c:268-270 | and that byte number is binary: numbers without a common bit add up |
| NandEcc.IndexPowers | kernel/source/nand_mini.c:268-270 | and each bit stands for its power of two |
| NandEcc.NandCorrect | kernel/source/nand_mini.c:241-284 | each of the four chunks of the page becomes what the rules above make of it; the answer is uncorrectable if any chunk is, else corrected if any was |
| Heap.HeapInfo.MergeNextBlockIfUnused | kernel/source/memory/heaps.c:197-217 | joins a free block with the next exactly if they touch, with links and sizes right |
| Heap.HeapInfo.FindBefore | kernel/source/memory/heaps.c:250-263 | the scan ends at the last free block that starts at or before the one freed, or at the first |
| Heap.HeapInfo.Insert | kernel/source/memory/heaps.c:265-282 | the block is linked in at its place, all other headers' links right in both directions |
| Heap.HeapInfo.MergeAround | kernel/source/memory/heaps.c:284-286 | merging on both sides leaves no two touching blocks and covers the same bytes |
| Heap.HeapInfo.FreeOnHeap | kernel/source/memory/heaps.c:219-290 | from a sorted, disjoint, doubly linked list without touching blocks: again such a list, covering exactly the old bytes and the block's; other blocks in use untouched; a pointer that is no block in use, also one freed twice, is refused and changes nothing |
| Heap.LinkedIs | kernel/source/memory/heaps.c:265-282 | the list in plain terms: sizes, links in both directions, and blocks in rising order and apart |
| Heap.InsertedLinked | kernel/source/memory/heaps.c:265-282 | putting a span into a linked list at its place gives a linked list |
| Heap.JoinedLinked | kernel/source/memory/heaps.c:202-216 | so does joining two touching neighbours |
| Keyring.Keyring.ClaimParts | kernel/source/crypto/keyring.c:114-135 | the loop links free entries in rising order until the size is reached or none is left |
| Keyring.Keyring.GetKeyIndexFitSize | kernel/source/crypto/keyring.c:109-154 | claims exactly the first entries a key of that size needs, or restores the table |
| Keyring.Keyring.Rollback | kernel/source/crypto/keyring.c:136-150 | giving a claimed chain back clears exactly its entries |
| Keyring.Keyring.GetHandleFitSize | kernel/source/crypto/keyring.c:155-183 | the first unused handle gets a chain of its own of the right length; failure leaves all entries; all other keys keep their bytes |
| Keyring.Keyring.SetKey | kernel/source/crypto/keyring.c:367-395 | stores the bytes over the key's, as far as the chain reaches; every other key is untouched; fails exactly if the handle names no key |
| Keyring.Keyring.GetKey | kernel/source/crypto/keyring.c:396-424 | fetches the first bytes of the key |
| Keyring.ByteOfChain | kernel/source/crypto/keyring.c:367-424 | byte i of a key is byte i % 32 of entry i / 32 of its chain |
| Keyring.SetThenGet | kernel/source/crypto/keyring.c:367-424 | a key fetched is the key stored |
| Keyring.Keyring.DeleteKeyringEntry | kernel/source/crypto/iosc.c:320-351 | deletion clears exactly the entries of one chain and its handle |
| Keyring.Keyring.DeleteCustomKey | kernel/source/crypto/iosc.c:352-364 | the fixed keys and the root key handle are refused, any other handle in use is deleted |
| Keyring.LastLink | kernel/source/crypto/keyring.c:114-135 | links only lead upwards, so the link 0 ends a chain and nothing else does |
| Keyring.GoodAdd | kernel/source/crypto/keyring.c:155-183 | a new chain keeps all chains disjoint and every entry in use owned by one |
| Keyring.GoodRemove | kernel/source/crypto/iosc.c:320-351 | so does removing one |
| Sha.FinalizeDigest | kernel/source/crypto/sha.c:53-169 | finalizing gives the digest of everything absorbed and the last input, or says that the input is too long |
| ShaLaws.DigestIs | kernel/source/crypto/sha.c:53-169 | that digest is the one of FIPS 180-4 and no other: the last of the hash values chained block by block (section 6.1.2) over the message followed by 0x80, the fewest zeros and eight bytes whose value, highest first, is the length in bits modulo 2^64 (section 5.1.1) |
| ShaLaws.LengthBytes | kernel/source/crypto/sha.c:124-125 | the two words stored are the 64-bit length, highest byte first |
| ShaLaws.AnswerIs | kernel/source/crypto/sha.c:53-169 | what a call answers, by command, size of the input and error bit alone |
| Sha.RunAbsorbs | kernel/source/crypto/sha.c:53-169 | after any calls on any contexts in any order, failed ones among them, a context stands for the message it was fed since it was initialised |
| Sha.StreamedDigest | kernel/source/crypto/sha.c:53-169 | so finalizing it gives the digest of its own message, whatever was called on other contexts in between; if the engine reports an error the context is as it was |
| Sha.AnySplit | kernel/source/crypto/sha.c:53-169 | any way of cutting a message into pieces of whole blocks and a rest gives the digest of the message |
| Sha.HmacInitKeys | kernel/source/crypto/sha.c:250-267 | initialising absorbs the inner key pad and the input, unless the engine reports an error |
| Sha.HmacContributeKeys | kernel/source/crypto/sha.c:270-287 | contributing absorbs both inputs, unless the engine reports an error |
| Sha.HmacStreamed | kernel/source/crypto/sha.c:290-320 | finalizing gives the HMAC of all that was taken in, for 20-byte keys, unless the engine reports an error |
| ShaLaws.HmacIs | kernel/source/crypto/sha.c:214-320 | that HMAC is the one of section 2 of RFC 2104 and no other: the digest under the outer pad of the 20 bytes of the digest under the inner pad |
| ShaLaws.KeyPadIs | kernel/source/crypto/sha.c:239-247 | the pads are the key, filled up with zeros, with bits 1, 2, 4 and 5, or 2, 3, 4 and 6, of every byte turned, and nothing else is |
| ShaEngine.Engine.GenerateSha | kernel/source/crypto/sha.c:53-169 | one call on the shared registers and buffer is the call on the context alone, whatever they held before, with the error bit looked at where the code does |
| ShaEngine.Engine.PadLast | kernel/source/crypto/sha.c:110-126 | the buffer holds the rest, 0x80, the fewest zeros, and eight bytes whose value, highest first, is the length in bits |
| ShaEngine.Engine.DerivedKeyPad | kernel/source/crypto/sha.c:214-242 | the key pad of RFC 2104 for a key of 20 bytes |
| ShaEngine.Engine.GenerateHmacInit | kernel/source/crypto/sha.c:250-267 | the HMAC calls on shared buffers are the functions the laws are about |
| ShaEngine.Engine.GenerateHmacContribute | kernel/source/crypto/sha.c:270-287 | the same |
| ShaEngine.Engine.GenerateHmacFinalize | kernel/source/crypto/sha.c:290-320 | the same, with the inner digest hashed under the outer pad |
| PageTables.SectionDecodes | kernel/source/memory/memory.c:275-306 | a section entry as packed gives back the megabyte, the access rights, the domain and the cache bits it was made of |
| PageTables.PageDecodes | kernel/source/memory/memory.c:309-375 | a page entry gives back its page, its cache bits and its access rights in each of the four fields, and is never the empty entry |
| PageTables.CourseDecodes | kernel/source/memory/memory.c:333-343 | so does a first-level entry of its table and its domain |
| PageTables.EntryExamples | kernel/source/memory/memory.c:275-375 | the entries written out in the comments of the code come out of the packing |
| PageTables.FrameIs | kernel/source/memory/memory.c:460-473 | what the tables mean, as the MMU walks them: megabyte or page, rights and cacheability of every page |
| Mapping.Mmu.KmallocMemorySection | kernel/source/memory/memory.c:241-273 | memory from the bump allocator is aligned, zero and new |
| Mapping.Mmu.MapMemoryAsSection | kernel/source/memory/memory.c:275-306 | maps the 256 pages of the megabyte an address is in, with the rights, the domain and the cacheability asked for, and changes no other page |
| Mapping.Mmu.MapMemoryAsCoursePage | kernel/source/memory/memory.c:309-375 | maps one page, with the rights and the cacheability asked for and in the domain if its table is new, and changes no other; succeeds if and only if the page is not mapped and its megabyte has a table or there is memory for one |
| Mapping.Mmu.MapMemory | kernel/source/memory/memory.c:378-412 | for every range whose loop ends, wrapping ones too: the result is that of the rounds; the pages mapped are a first part of the range, all of it on success, each to base plus offset with the rights and the cacheability asked for, and no other page changes; it succeeds whenever the range is aligned, unmapped and its tables fit |
| Mapping.Mmu.MapNext | kernel/source/memory/memory.c:387-406 | one pass of the loop is one round, in 32-bit arithmetic, for every section and all tables |
| PageTables.RoundShifts | kernel/source/memory/memory.c:387-406 | a round maps the megabyte or the page it takes and no others, or nothing |
| PageRanges.Translates | kernel/source/memory/memory.c:460-480 | an address in the pages mapped translates to the base plus its offset, with the rights and the cacheability of the range, every other as before |
| PageRanges.FitsIs | kernel/source/memory/memory.c:378-412 | when the mapping is sure to succeed, in plain terms: an aligned range, all its pages unmapped, and 0x400 bytes for every megabyte it touches |
| Mapping.Mmu.VirtualToPhysical | kernel/source/memory/memory.c:460-480 | the translation the tables stand for, with the alias of the internal memory at the top |
| PageTables.AliasIs | kernel/source/memory/memory.c:475-479 | the alias: the top 64 kilobytes are 0x0D400000, those below 0x0D410000 |
| PageTables.TableAdded | kernel/source/memory/memory.c:333-343 | a new second-level table keeps tables aligned, disjoint and all translations as they were |
| PageTables.PageRound | kernel/source/memory/memory.c:309-375 | a page round succeeds if and only if the page is not mapped and its megabyte has a table or room for one; failing, it changes no translation |
| PageRounds.HeadRounds | kernel/source/memory/memory.c:378-412 | the page rounds before the first whole megabyte of a range that runs away succeed if and only if these pages are not mapped and their one megabyte has a table or room for one |
| PageRounds.RunsForever | kernel/source/memory/memory.c:387-394 | once the rest is at a megabyte boundary, 0xFFFFF bytes more than whole megabytes, every later round takes a megabyte and gets there again |
| PageRounds.RoundsBound | kernel/source/memory/memory.c:378-412 | any other range takes no more rounds than it has pages, and one |
| PageRounds.NeverEndsExactly | kernel/source/memory/memory.c:378-412 | for all tables and ranges the loop goes on after every number of rounds if and only if the range runs away and nothing is in the way of the pages before its first whole megabyte |
| PageRounds.UnusedNeverEnds | kernel/source/memory/memory.c:378-412 | for unmapped ranges whose tables fit: if and only if it runs away |
| PageRounds.RunsAwayExample | kernel/source/memory/memory.c:378-412 | the first megabyte less one byte: whatever the tables, the loop goes on after every number of rounds |
| Printf.Vsnprintf | core/source/vsprintf.c:206-548 | for every format and size the buffer holds the unbounded output cut to size - 1 characters and the terminator, nothing else is written, the stores of %n are those of the unbounded output, and the result is the unbounded length, or -1 for overflow; the parser ends |
| Printf.Sink.OutChar | core/source/vsprintf.c:193-198 | a character goes into the buffer only below size - 1, and is counted in any case |
| Printf.Sink.OutStr | core/source/vsprintf.c:550-582 | puts out the string in its field |
| Printf.Sink.OutInt | core/source/vsprintf.c:584-683 | puts out the number in its field |
| Printf.Convert | core/source/vsprintf.c:699-712 | the digits of the number, lowest first, and the buffer of 43 never cuts them off |
| Format.WordDigits | core/source/vsprintf.c:699-712 | no 32-bit number has 43 digits in a base from 2 to 16 |
| Format.NextRound | core/source/vsprintf.c:240-537 | each round moves on in the format, or stays there in a state of lower rank |
| FormatLaws.WrittenReadsBack | core/source/vsprintf.c:699-712 | a number's digits stand for the number, without a leading zero |
| FormatLaws.ReversedIsWritten | core/source/vsprintf.c:673-678 | the reversed digits put out from the end are the number as it is written |
| FormatLaws.DigitsAre | core/source/vsprintf.c:584-678 | the digits C99 asks for are unique: those of the base, of that value, at least as many as the precision, with a zero in front only to make up for it or for alternative octal |
| FormatLaws.DigitValues | core/source/vsprintf.c:699-712 | what each character stands for, by its code |
| FormatLaws.IntegerConversion | core/source/vsprintf.c:584-683 | a conversion without grouping is what section 7.19.6.1 of ISO C99 asks for, in sign, prefix, digits and padding, if and only if it is not zero with precision zero outside alternative octal |
| FormatLaws.IntegerDirective | core/source/vsprintf.c:370-446 | so is each of d and i in base 10, u in base 10, o in base 8, x and X in base 16, with the value of the argument word in 8, 16 or 32 bits, in two's complement for d and i, under the same condition |
| FormatLaws.FieldLength | core/source/vsprintf.c:636-658 | a number fills its field exactly, and has at least the digits asked for |
| FormatLaws.GroupedDirective | core/source/vsprintf.c:584-683 | with the grouping flag there is a comma before every three digits from the right, zeros make up the precision together with the commas, and the commas come off the width |
| FormatLaws.GroupedFills | core/source/vsprintf.c:636-658 | so such a number fills its field if and only if nothing is grouped, the precision asks for no zeros, or it is as long as the field |
| FormatLaws.PointerDirective | core/source/vsprintf.c:456-480 | p puts out (nil) for 0 and otherwise the number in hexadecimal with 0x, in its field |
| FormatLaws.StringDirective | core/source/vsprintf.c:451-455 | s puts out the characters before the end of the string, as many as the precision allows, in their field, and (null) for the null pointer |
| FormatLaws.StringConversion | core/source/vsprintf.c:550-582 | a string fills its field and keeps as many of its first characters as the precision allows |
| FormatLaws.OtherDirective | core/source/vsprintf.c:447-531 | % puts out a per cent sign, c the low eight bits of its argument, n and other characters nothing |
| FormatLaws.CharacterConversion | core/source/vsprintf.c:447-450 | a character is padded as C99 asks for exactly if the width is at most one |
| FormatLaws.WidthRead | core/source/vsprintf.c:280-303 | a width is the decimal number written, and overflows exactly above INT_MAX |
| FormatLaws.PrecisionRead | core/source/vsprintf.c:311-334 | so is a precision, 0 if no digits follow the point |
| FormatLaws.FlagsRead | core/source/vsprintf.c:249-279 | any number of flag characters in any order sets exactly the flags that occur |
| FormatLaws.FlagsAre | core/source/vsprintf.c:249-279 | which character sets which flag |
| FormatLaws.ModifierRead | core/source/vsprintf.c:335-367 | each length modifier, doubled ones too, is read as its type |
| FormatLaws.LengthIs | core/source/vsprintf.c:335-367 | which text names which type |
| FormatLaws.StarsAre | core/source/vsprintf.c:280-334 | a star takes the next argument in two's complement; a negative width is its size, a negative precision none |
| FormatLaws.PlainText | core/source/vsprintf.c:242-248 | a format without directives is put out as it is |
| FormatLaws.Directive | core/source/vsprintf.c:240-537 | a directive of flags, a width or star, a precision or star, a length modifier and any conversion puts out that conversion with what was read and the arguments the stars leave, or overflows exactly for a number above INT_MAX; parsing goes on behind it |
| FormatLaws.ConversionDone | core/source/vsprintf.c:370-537 | which conversions take an argument, what n stores where, and that nothing of the directive stays |

## Left out

* Errors of the disk, and the retries and error returns for them: the medium is an array that can
  always be read and written.
* `f_open` up to its last lines, `f_close`, `f_mount`, path names, creating and finding directory
  entries, and the directory functions other than `dir_seek` and `dir_next`.
* Corrupt chains under an open file: a file's chain is a chain when it is opened. The table
  functions (`RemoveChain`, `CreateChain`, `FindFree`) are proved for every table.
* Locking, time stamps (a parameter) and the mount parser (`Geometry.Valid` is what it checks and
  what the FAT specification demands).
- ClusterChains.StepKeepsChains: releases start at the first cluster of a chain, as they do where the code calls `remove_chain`; `ClusterChains.ReleasedInside` says what any other does.
- FatFile.File.Open: the chain of the entry must be one and long enough for the recorded size; the code opens any entry.
- FatDirectory.Directory.Seek: the chain of the table must be one; a corrupt chain, on which the code answers an internal error when it meets it, is not followed.
- FatDirectory.Directory.Next: the same holds here, and the mask must tell the cluster boundary right at this entry; `FatDirectory.TurnsSeen` says when it does.
- FatFile.File.Write: after an internal error the object is marked aborted and only what lies outside the chain is promised.
- FatFile.File.Seek: where the shortcut is taken, the masked pointer must be the start of the current cluster; `FatFile.ShortcutExactly` says that the code lands elsewhere otherwise.
- FatFile.File.SeekStart: the same holds here.
- FatSession.WriteSyncRead: the same holds for the seek back.
- FatSharing.Interleave: the cluster size must be a power of two, so that every seek is right.
- FatFile.File.Read: corrupt chains and the error code they cause are not part of the contract.
* Waking and scheduling threads: waiting is an answer of the queue methods and a step that cannot
  be taken in the protocol machine.
* Synchronous calls, and replies to messages that were never claimed, which leave the pool alone.
  Requests are not looked into: command dispatch is the choice between `Reject`, `Refuse` and
  `Submit`.
- MessagePool.Messages.ResourceReply: the branch for synchronous messages, and the send to the caller's queue (a move of its own, which can fail), are left out.
- MessagePool.RunsKeepInv: a message sent by a caller whose message was taken by a stale reply is followed no further than `MessagePool.StaleReplyBreaks` does.
* Read and write errors of the SEEPROM, and the BOOT2 counter. The record's tag and the other
  fields of a slot that the counter does not use are not modelled.
* How the flash controller computes its parity: the odd and even Hamming parity the decoder
  presumes, with an arbitrary constant in the unused bits.
- NandEcc.NandCorrect: the statistics line printed is left out.
* Allocating from the heap (`MallocateOnHeap`), creating and destroying heaps, and the check of the
  heap number.
- Keyring.Keyring.GetKeyIndexFitSize: with no free entry at all the code rolls back from index -1, so at least one free entry is required for a key of any size.
- Keyring.Keyring.DeleteKeyringEntry: a fixed handle without a key whose index is 0 is excluded, as the code would clear entry 0; `DeleteCustomKey`, its caller, excludes it.
* Key metadata, owners and kinds, and the tables of key and signature sizes.
* The compression function of SHA-1 is any function; input that is no whole number of blocks is
  modelled as the code cuts it, but the laws about pieces ask for whole blocks.
- ShaEngine.Engine.DerivedKeyPad: looking the signer's key up in the keyring, and the errors of that, are left out.
- Mapping.Mmu.MapMemoryAsCoursePage: only mode 0, which `MapMemory` uses; the other mode overwrites entries.
- Mapping.Mmu.MapMemory: a method has to end, so the ranges of `PageRanges.Endless` are excluded; what the loop does with them is in `PageRounds`. Domains of 16 or more are excluded: the MMU has 16, and the code shifts larger numbers into the bits beside them.
- Mapping.Mmu.MapNext: domains of 16 or more are excluded here too.
- Mapping.Mmu.MapMemoryAsSection: domains of 16 or more are excluded here too.
* Flushing caches and the table of first-level entries as memory of the bump allocator.
- Printf.Vsnprintf: the output must be shorter than 2^32 characters, since the 32-bit count wraps; signed overflow (a `*` width of INT_MIN, or a precision near INT_MAX together with a sign, prefix or separators) is computed without overflow.
- FormatLaws.IntegerConversion: the grouping flag is excluded, since C99 does not have it; `FormatLaws.GroupedConversion` says what it makes.
- FormatLaws.IntegerDirective: the same; `FormatLaws.GroupedDirective` has the flag.
- FormatLaws.PointerDirective: the grouping flag is excluded here too.
