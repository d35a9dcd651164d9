# Ion Core: a verified model of its core data structures

This project models, in Dafny, the self-contained stateful algorithms of Ion Core and proves what they
promise: every statement below is proved for all inputs, all runs and all interleavings it ranges over.

| component | Dafny files | what is proved |
|---|---|---|
| Layered coin cache (`CCoinsViewCache`) | `Coins.dfy` | any stack of caches refines a plain map from outpoints to coins |
| Address manager (`CAddrMan`) | `AddrMan.dfy`, `AddrManEffects.dfy`, `AddrManTables.dfy` | five redundant structures and two counters agree after every run; what each operation does to every entry |
| Check queue (`CCheckQueue`) | `CheckQueue.dfy` | exact accounting, verdicts and progress on every interleaving |
| Partial Merkle trees | `MerkleTree.dfy`, `MerkleBlock.dfy`, `MerkleLevels.dfy`, `MerkleSize.dfy` | soundness and completeness up to an exhibited hash collision; exactly when the documented size bounds hold |
| Database transactions | `DbKeys.dfy`, `DbTransaction.dfy`, `DbIterator.dfy` | the merging iterator enumerates exactly the overlaid map, also when nested |
| Cuckoo cache | `Cuckoo.dfy`, `CuckooEffects.dfy`, `CuckooCache.dfy`, `ByteBits.dfy`, `Uint32.dfy` | what one insertion keeps and drops, and the bound on the current epoch |
| 256-bit arithmetic, compact targets, block work | `Arithmetic.dfy`, `Powers.dfy`, `Limbs.dfy`, `LimbShifts.dfy`, `LimbBits.dfy`, `Arith256.dfy`, `CompactTarget.dfy` | limb loops compute integer arithmetic modulo 2^256 |
| Block index and chains | `SkipHeights.dfy`, `SkipWalk.dfy`, `Chain.dfy`, `BlockTree.dfy` | the skip list refines walking the predecessors, within 110 rounds up to height 2^18 |
| Rolling Bloom filter | `RollingBloom.dfy` | the last two generations of keys are always reported |
| Compact blocks (BIP 152) | `CompactBlocks.dfy`, `CompactEffects.dfy`, `PartialBlock.dfy`, `BlockRequest.dfy`, `BlockRelay.dfy` | a block announced, requested and answered is reassembled exactly, up to the exact size at which it is |
| Base58 | `Radix.dfy`, `Base58.dfy` | encoding and decoding are mutually inverse and the buffers always suffice |
| Bech32 (section "Bech32" of BIP 173) | `Bech32Checksum.dfy`, `Field1024.dfy`, `Bech32Distance.dfy`, `Bech32.dfy`, `Bech32Vector.dfy` | decoding accepts exactly the encodings; up to three changed values among 1023, and any changes within six consecutive values, are detected |

Hash functions are arbitrary functions, and so are the clock, random draws, memory-pool contents and the
block check: they are parameters of the operations or fields of the objects.  Where the code relies on a
hash having no collisions, the result says that the property holds or that a named search returns two
different inputs with equal hash.  Objects whose methods update fields are classes; an operation is proved
against a function of the old state, and the properties are lemmas about that function.  Asserts of the
source are assertions or preconditions of the model, so that none of them can fail.

Where the code and its own comments disagree, the model follows the code:

- The comment in `src/cuckoocache.h` says that the first displacement uses the first location.  It uses the
  second one, which is the first location if and only if the two coincide (`Cuckoo.FirstVictim`).  The same
  comment says that the element just put in is not moved; it is displaced again exactly when the next
  location is the same slot (`Cuckoo.VictimAgain`).  `Cuckoo.VictimWitness` is a run of three insertions in
  which both happen and the new element is lost.
- The flags of `src/cuckoocache.h` are promised for every size, but the rounded size wraps within 7 of 2^32:
  there is room for the flags if and only if the size is at most 0xFFFFFFF8
  (`CuckooFlags.BitPackedFlags.constructor`).
- The comment in `src/cuckoocache.h` sets the epoch size to 45% of the slots.  The product is computed in 32
  bits, so that this holds if and only if 45 times the size is below 2^32 (`CuckooEffects.EpochSizeExactly`);
  at 95443718 slots an epoch is one entry (`CuckooEffects.EpochSizeWrapped`).
- The comment in `src/merkleblock.h` bounds the flag bits by 2N - 1 for N hashes; nodes without a right
  child break it (`MerkleBlock.BitBoundBroken`), and `MerkleBlock.BitBound` says, level by level, exactly when
  it holds.  Its "hard guarantee" of at most 10 + ceil(32.25 * N) bytes fails for 1025 matched transactions
  (`MerkleSize.SizeBroken`), and `MerkleSize.SizeGuarantee` says exactly when it holds.
- `operator*=` on 256-bit numbers gives 0 when a number is multiplied by itself in place
  (`Arith256.Uint256.Multiply`).
- The reader of `BlockTransactionsRequest` does not always yield increasing indexes
  (`BlockRequest.WrappedRequest`); it does if and only if the distances of the message, each counted with the
  index it leads to, add up to at most 65536 (`BlockRequest.ReadIncreasing`).
- Compact blocks of more than 65536 transactions are accepted, but positions are stored in 16 bits.  They are
  right if and only if there are at most 65536 transactions (`CompactBlocks.PositionsFit`), and so is the
  reassembled block (`CompactBlocks.ReconstructsExactly`, `CompactBlocks.ReconstructionBroken`).  With exactly
  65536 prefilled transactions and a short id, the search for a free position has no end (`PartialBlock.ScanEndless`;
  `PartialBlock.EndlessWitness` is such a message).

## Model

| member | source | states |
|---|---|---|
| `Coins.AddedIsWrite` | src/coins.cpp:70-89 | adding to a sound layer writes the coin into the visible map and keeps the layer sound if and only if an overwrite was allowed or the view had no such coin |
| `Coins.SpentIsErase` | src/coins.cpp:103-117 | spending (dropping a FRESH entry, or leaving a cleared DIRTY one) removes exactly that coin from the visible map and keeps the layer sound |
| `Coins.MergedIsWrite` | src/coins.cpp:150-204 | merging one dirty child entry writes or erases exactly that coin in the parent's view and keeps the parent sound against the grandparent |
| `Coins.PushedStep` | src/coins.cpp:150-204 | pushing the child's entries one by one, clean ones included, builds up the child's view |
| `Coins.UsagePut` | src/coins.cpp:44-60 | the usage total changes by exactly the replaced and the new coin |
| `Coins.UsageLeast` | src/memusage.h:47-59 | a script of more than 28 bytes is counted with the least multiple of 16 that leaves 16 bytes for the allocator |
| `Coins.WithOutputsAt` | src/coins.cpp:91-101 | after the first n outputs, each one whose script does not begin with OP_RETURN and has at most 10000 bytes is found under its own index with its value, height and kind, and every other outpoint is as before |
| `Coins.CoinsViewDB.BatchWrite` | src/coins.h:121-133 | a map-like base takes over exactly the dirty entries |
| `Coins.CoinsViewCache.OnDatabase` | src/coins.cpp:38 | a new cache is sound and shows what its base shows |
| `Coins.CoinsViewCache.OnCache` | src/coins.cpp:38 | likewise on top of another cache |
| `Coins.CoinsViewCache.FetchCoin` | src/coins.cpp:44-60 | pulls an entry from below without changing any view in the stack; finds it exactly when cached or visible below |
| `Coins.CoinsViewCache.GetCoin` | src/coins.cpp:61-69 | returns exactly what the view holds, and changes no view |
| `Coins.CoinsViewCache.HaveCoin` | src/coins.cpp:130-133 | true exactly when the view holds the coin, and changes no view |
| `Coins.CoinsViewCache.AddCoin` | src/coins.cpp:70-89 | exactly when the logic error is raised; otherwise the view gains the coin, and the stack stays sound exactly when the caller's promise about overwriting was true |
| `Coins.CoinsViewCache.SpendCoin` | src/coins.cpp:103-117 | the view loses exactly that coin and hands it out; nothing below changes |
| `Coins.CoinsViewCache.Uncache` | src/coins.cpp:213-220 | drops only unmodified entries and changes no view |
| `Coins.CoinsViewCache.BatchWrite` | src/coins.cpp:150-204 | a sound child's entries turn this view into the child's view; the "FRESH flag misapplied" error is never raised |
| `Coins.CoinsViewCache.Flush` | src/coins.cpp:206-211 | the view just below becomes this view, this view and everything further down stay, the cache is empty and sound |
| `Coins.CoinsViewCache.FlushAll` | src/coins.cpp:206-211 | flushing from the top down writes the view into every layer and the database |
| `Coins.CoinsViewCache.AddCoins` | src/coins.cpp:91-101 | with `check` the caller owes nothing about the view; OutPoint(txid, i) then holds exactly output i for every spendable one, and every other outpoint is as before |
| `Coins.CoinsViewCache.Run` | src/coins.cpp:44-220 | any run of reads, adds, spends, uncaches and flushes shows what the same run does to a plain map |
| `AddrMan.EmptyInv` | src/addrman.h:463-482 | the cleared manager satisfies the invariant |
| `AddrMan.FindExactly` | src/addrman.cpp:69-85 | a lookup yields an id if and only if that id is an entry for the address, ports told apart or not, and nothing if and only if there is no such entry |
| `AddrMan.CreateSound` | src/addrman.cpp:87-102 | a new entry is indexed, listed and counted, and lacks only its references |
| `AddrMan.DropSound` | src/addrman.cpp:124-141 | deleting an entry without references keeps everything else in agreement |
| `AddrMan.ClearNewSound` | src/addrman.cpp:143-156 | emptying a position takes one reference and deletes the entry exactly when it was the last |
| `AddrMan.MakeTriedSound` | src/addrman.cpp:158-204 | moving an entry to the tried table, with the eviction this may cause, keeps the whole invariant |
| `AddrMan.GoodInv` | src/addrman.cpp:206-258 | Good_ keeps the invariant |
| `AddrMan.GoodEffect` | src/addrman.cpp:206-258 | the address ends up in the tried table with fresh statistics |
| `AddrMan.GoodOthers` | src/addrman.cpp:158-258 | another entry is lost only if it had a single reference, and leaves the tried table only from the same slot |
| `AddrMan.AddInv` | src/addrman.cpp:260-331 | Add_ keeps the invariant |
| `AddrMan.AddUnknownEffect` | src/addrman.cpp:260-331 | a new address is entered with one reference exactly when its position is free or may be taken; otherwise the entries are as before |
| `AddrMan.AddUnknownOthers` | src/addrman.cpp:260-331 | an entry is lost only if it was terrible and had its only reference in that position |
| `AddrManEffects.TerribleExactly` | src/addrman.cpp:34-52 | an entry is terrible exactly if it was not tried in the last minute and is from the future, missing a time, a month old, or failed three times without success or ten times without one in a week |
| `AddrManEffects.SlotFormulas` | src/addrman.cpp:13-32 | bucket and position of both tables from the hashes |
| `AddrManEffects.FindExactOnly` | src/addrman.cpp:69-85 | the entry that operations on a known address act on is the one with exactly that address and port |
| `AddrManEffects.AttemptEffect` | src/addrman.cpp:333-353 | only that entry changes: its last try, and one more failure exactly if asked for and none was counted since the last success |
| `AddrManEffects.ConnectedEffect` | src/addrman.cpp:501-519 | only that entry changes: a time more than 20 minutes old is renewed |
| `AddrManEffects.SetServicesEffect` | src/addrman.cpp:521-537 | only that entry changes: its services |
| `AddrManEffects.EnterExactly` | src/addrman.cpp:320-323 | a reference goes in, whoever held the slot loses one and is deleted exactly if it was its last, and nothing else changes |
| `AddrManEffects.AddKnownEffect` | src/addrman.cpp:271-323 | the new time and services of a known entry; one more reference exactly if there is news, the entry is untried and below eight, the draw hits one in 2^references and the slot is empty or held by another terrible entry; otherwise both tables stay |
| `AddrManEffects.AddUnknownEntry` | src/addrman.cpp:298-329 | the whole new entry and the tables, exactly when the slot is empty or held by an entry that is terrible or has another reference; otherwise only an id is used up |
| `AddrManEffects.AddCases` | src/addrman.cpp:260-331 | nothing for addresses that are not routable; new exactly if there was no entry; no penalty for an address that announces itself |
| `AddrManEffects.MakeTriedExactly` | src/addrman.cpp:158-204 | the tried slot, the references that go, and where the entry that held the slot goes, at whose cost |
| `AddrManEffects.GoodEntry` | src/addrman.cpp:206-258 | the whole entry afterwards and its tried slot; without one only the time of the last success |
| `AddrManEffects.NodesExactly` | src/addrman.cpp:482-484 | a reply holds at most 23% of the entries, rounded down, and 2500 |
| `AddrManEffects.GatherPlaces` | src/addrman.cpp:486-498 | exactly the entries read that are not terrible, in order, with address, services and time |
| `AddrManEffects.ShuffleReaches` | src/addrman.cpp:491-492 | every selection of entries, in every order, can be drawn |
| `AddrMan.SwapReorders` | src/addrman.cpp:480-499 | a swap changes the order of vRandom and nothing else |
| `AddrMan.GatherKept` | src/addrman.cpp:480-499 | later swaps do not change what was gathered |
| `AddrMan.ReorderedInv` | src/addrman.cpp:480-499 | reordering keeps the invariant |
| `AddrManTables.AddrManager.constructor` | src/addrman.h:463-490 | a new manager is empty and valid |
| `AddrManTables.AddrManager.Clear` | src/addrman.h:463-482 | every structure is emptied and both counters are zero |
| `AddrManTables.AddrManager.Find` | src/addrman.cpp:69-85 | on a valid manager, yields exactly the one entry for the address, and nothing exactly when there is none |
| `AddrManTables.AddrManager.Create` | src/addrman.cpp:87-102 | the new id, index entry and vRandom place |
| `AddrManTables.AddrManager.SwapRandom` | src/addrman.cpp:104-122 | both places and both nRandomPos are exchanged |
| `AddrManTables.AddrManager.Delete` | src/addrman.cpp:124-141 | the entry leaves the map, the index and vRandom, and nNew counts down |
| `AddrManTables.AddrManager.ClearNew` | src/addrman.cpp:143-156 | the position is emptied and an entry without further references deleted |
| `AddrManTables.AddrManager.RemoveFromNew` | src/addrman.cpp:158-173 | the bucket loop removes every reference and its count reaches 0, as the source asserts |
| `AddrManTables.AddrManager.MakeTried` | src/addrman.cpp:158-204 | computes the move to the tried table; none of its asserts can fail |
| `AddrManTables.AddrManager.FindBucket` | src/addrman.cpp:235-250 | some bucket always refers to an untried entry, so the "no bucket" exit is unreachable |
| `AddrManTables.AddrManager.Good` | src/addrman.cpp:206-258 | computes Good_ and keeps the invariant |
| `AddrManTables.AddrManager.Attempt` | src/addrman.cpp:333-353 | computes Attempt_ and keeps the invariant |
| `AddrManTables.AddrManager.Connected` | src/addrman.cpp:501-519 | computes Connected_ and keeps the invariant |
| `AddrManTables.AddrManager.SetServices` | src/addrman.cpp:521-537 | computes SetServices_ and keeps the invariant |
| `AddrManTables.AddrManager.Wants` | src/addrman.cpp:284-302 | the stochastic test for a further reference, with an arbitrary draw |
| `AddrManTables.AddrManager.PlaceEntry` | src/addrman.cpp:309-329 | finds a place or drops an entry without references |
| `AddrManTables.AddrManager.Add` | src/addrman.cpp:260-331 | computes Add_, with its two readings of the clock, and keeps the invariant |
| `AddrManTables.AddrManager.GetAddr` | src/addrman.cpp:480-499 | vRandom is shuffled by the draws as far as it is read; returned are the entries read that are not terrible, each at its own reading of the clock, within the limit; stops early only when full |
| `AddrManTables.Run` | src/addrman.cpp:69-537 | from an empty manager, every run of the operations keeps the invariant |
| `CheckQueue.InitInv` | src/checkqueue.h:135 | the initial state satisfies the invariant |
| `CheckQueue.InvNext` | src/checkqueue.h:70-128 | every step of the master or a worker keeps the invariant |
| `CheckQueue.InvRun` | src/checkqueue.h:70-162 | so does every run |
| `CheckQueue.EveryRun` | src/checkqueue.h:70-162 | on every interleaving, nTodo is the queued checks plus the batches not yet accounted, each added check is taken exactly once, each returned Wait reported true exactly when all its checks ran and succeeded, and a sleeping master has a working worker |
| `CheckQueue.SleepingMasterHasWorker` | src/checkqueue.h:70-128 | a blocked master always has a worker that holds an unfinished batch |
| `CheckQueue.NeverStuck` | src/checkqueue.h:70-128 | in every state of every run in which the master is inside Wait, some thread in Loop can take the mutex or run a check |
| `CheckQueue.Progress` | src/checkqueue.h:70-128 | every step but a spurious wake-up decreases a measure until the master returns |
| `CheckQueue.SpuriousCost` | src/checkqueue.h:70-128 | a spurious wake-up adds exactly one to that measure and does not let the master out |
| `CheckQueue.SpuriousCountIs` | src/checkqueue.h:99-104 | the wake-ups counted are exactly the spurious ones among the steps |
| `CheckQueue.WaitReturns` | src/checkqueue.h:144-147 | hence on every schedule, spurious wake-ups included, Wait has returned once the other steps outnumber the measure at its start plus the spurious wake-ups |
| `CheckQueue.BatchExactly` | src/checkqueue.h:106-111 | a batch is the largest within nBatchSize and the share of nTotal + nIdle + 1 takers, or one check |
| `CheckQueue.TakesFromBack` | src/checkqueue.h:112-120 | a batch is taken off the back of the queue, last check first, with the verdict so far |
| `CheckQueue.RunsUntilFailure` | src/checkqueue.h:122-125 | after a failure that the thread knows of, checks are skipped |
| `CheckQueue.AccountsBatch` | src/checkqueue.h:80-86 | a finished batch is counted off and its verdict added; the master is woken exactly by the worker that finishes the last one |
| `CheckQueue.AddWakes` | src/checkqueue.h:150-162 | new checks go to the end of the queue; one wakes one sleeping worker, more wake all, none wakes nobody |
| `CheckQueue.AnySleeperWakes` | src/checkqueue.h:158-159 | any sleeping worker may be the one |
| `MerkleTree.WidthFormula` | src/merkleblock.h:67-69 | the shifted expression counts the nodes of each level |
| `MerkleTree.MatchedExactly` | src/merkleblock.cpp:94-110 | the matched leaves below a node are exactly the masked positions of its range, in order |
| `MerkleTree.ExtractSound` | src/merkleblock.cpp:112-148 | for arbitrary bits and hashes, a subtree that extracts to the true hash of its node reports only true leaves in order, or a collision is found |
| `MerkleTree.ExtractBuilt` | src/merkleblock.cpp:94-148 | an encoded subtree without equal siblings decodes to its hash and matched leaves, using exactly its own bits and hashes |
| `MerkleTree.TwinsRejected` | src/merkleblock.cpp:132-138 | an encoded subtree with two equal siblings under a node that is descended into is marked bad |
| `MerkleTree.TwinsCollide` | src/merkleblock.cpp:132-138 | over distinct leaves, equal hashes of two nodes of one level yield a collision |
| `MerkleTree.SiblingsCollide` | src/merkleblock.cpp:132-138 | what the search for equal siblings finds is a collision |
| `FlagBytes.PackingRoundTrip` | src/merkleblock.h:88-106 | unpacking packed bits gives them back, followed by fewer than eight zeros |
| `FlagBytes.Pack` | src/merkleblock.h:100-104 | the bytes hold the bits low bit first, padded with zeros |
| `FlagBytes.UnpackBytes` | src/merkleblock.h:93-99 | the bits of all bytes in order |
| `ByteBits.BitWeight` | src/merkleblock.h:93-104 | bit k is the one of weight 2^k |
| `MerkleBlock.ParentOfMatchRange` | src/merkleblock.cpp:95-98 | a node is the parent of a match exactly when a leaf of its shifted range is matched |
| `MerkleBlock.StoredBounds` | src/merkleblock.h:37-41 | at most min(n, 1 + matched * height) hashes, and at least as many bits |
| `MerkleBlock.BitCount` | src/merkleblock.h:48 | the exact number of bits: 2N - 1 plus the descended nodes without a right child |
| `MerkleBlock.UnpairedCount` | src/merkleblock.h:48 | the descended nodes without a right child are counted by levels: one for each level over an odd number of nodes with a match under its last node |
| `MerkleBlock.BitBound` | src/merkleblock.h:48 | the documented bound of 2N - 1 bits holds if and only if at every level the level below has an even number of nodes or nothing under the last node is matched |
| `MerkleBlock.BitBoundBroken` | src/merkleblock.h:48 | three transactions with the last matched break it |
| `MerkleSize.SizeGuarantee` | src/merkleblock.h:32-48 | for every list and mask, the documented bound of 10 + ceil(32.25 * N) bytes holds if and only if N is below 65536 and the flag bits, 2N - 1 plus the unpaired levels, fit ceil(N / 4) bytes and what the two counts in front leave over |
| `MerkleSize.SizeOfAccepted` | src/merkleblock.h:32-48 | up to the number of transactions that extraction accepts: if and only if there are at most 2016 flag bits or they fit ceil(N / 4) bytes |
| `MerkleSize.SizeAllMatched` | src/merkleblock.h:32-48 | with all n transactions matched there are n hashes and 2n - 1 bits plus one for each level with an odd number of nodes, so that the condition is on n alone |
| `MerkleSize.SizeBroken` | src/merkleblock.h:32-35 | 1025 transactions, all matched, take 33068 bytes where the documentation allows 33067 |
| `MerkleBlock.RejectedIsNull` | src/merkleblock.cpp:166-197 | a rejected tree yields the null hash, so any other root was accepted |
| `MerkleBlock.Soundness` | src/merkleblock.cpp:166-197 | if extraction accepts and yields the root of a transaction list, what it reports is in the list at the increasing indices it reports, or a collision is found |
| `MerkleBlock.Completeness` | src/merkleblock.cpp:150-197 | build, pack, unpack and extract gives the root and exactly the masked ids with their indices, or a collision is found |
| `MerkleBlock.Transfer` | src/merkleblock.cpp:150-197 | building, serializing, deserializing and extracting with the objects gives the root and exactly the masked ids with their indices, or a collision is found |
| `MerkleLevels.LevelIs` | src/merkleblock.cpp:74-92 | the recursive hash is that of the tree built level by level, a last node without a neighbour being hashed with itself |
| `MerkleLevels.RootIsLast` | src/merkleblock.cpp:74-92 | the last level is the root alone |
| `MerkleLevels.SizeLimit` | src/merkleblock.cpp:167-179 | what is accepted has 1 to 33333 transactions, no more hashes than those, and a bit for every hash |
| `MerkleLevels.BuiltAccepted` | src/merkleblock.cpp:132-197 | what the code builds is accepted if and only if no two siblings in it have the same hash |
| `MerkleLevels.NothingLeftOver` | src/merkleblock.cpp:185-195 | an accepted tree with one more hash, or one more byte of flags, is rejected |
| `MerkleBlock.PartialMerkleTree.Build` | src/merkleblock.cpp:150-162 | the object holds the encoding of the list and mask |
| `MerkleBlock.PartialMerkleTree.constructor` | src/merkleblock.cpp:164 | the default object is empty and bad |
| `MerkleBlock.PartialMerkleTree.CalcTreeWidth` | src/merkleblock.h:67-69 | the shifted expression is the level's width |
| `MerkleBlock.PartialMerkleTree.TreeHeight` | src/merkleblock.cpp:155-158 | the loop finds the first level with one node |
| `MerkleBlock.PartialMerkleTree.AnyMatch` | src/merkleblock.cpp:95-98 | the loop over the shifted range decides whether the node has a match |
| `MerkleBlock.PartialMerkleTree.TraverseAndBuild` | src/merkleblock.cpp:94-110 | appends exactly the subtree's bits and hashes |
| `MerkleBlock.PartialMerkleTree.TraverseAndExtract` | src/merkleblock.cpp:112-148 | computes the extraction of the subtree, cursors, reports and failure flag |
| `MerkleBlock.PartialMerkleTree.ExtractMatches` | src/merkleblock.cpp:166-197 | computes the whole extraction with all its rejections |
| `MerkleBlock.PartialMerkleTree.Serialize` | src/merkleblock.h:84-106 | count, hashes and packed bits |
| `MerkleBlock.PartialMerkleTree.Deserialize` | src/merkleblock.h:84-106 | takes over count, hashes and unpacked bits |
| `DbKeys.Trichotomy` | src/dbwrapper.h:565-575 | byte-wise lexicographic comparison is a strict total order |
| `DbKeys.LessExactly` | src/dbwrapper.h:565-575 | a key is smaller exactly if it ends, or has the smaller byte, at the first difference |
| `DbKeys.MeetsExactly` | src/dbwrapper.h:431-467 | what the four bounds of an iteration admit |
| `DbKeys.FindNext` | src/dbwrapper.h:431-448 | finds the smallest key of an ordered container that meets a bound |
| `DbKeys.MergedNext` | src/dbwrapper.h:541-553 | the smaller of two cursors over disjoint sets is the next key of the union |
| `DbKeys.CollectOne` | src/dbwrapper.h:454-467 | one more step of an iteration keeps the collected keys exact and ascending |
| `DbTransaction.WriteOverlaid` | src/dbwrapper.h:619-632 | a buffered write is a write to the overlaid map |
| `DbTransaction.EraseOverlaid` | src/dbwrapper.h:680-689 | a buffered delete is an erase of the overlaid map |
| `DbTransaction.WritesUsageRemove` | src/dbwrapper.h:619-632 | the usage sum loses exactly the removed key and value |
| `DbTransaction.Transaction.OnDatabase` | src/dbwrapper.h:611 | a new transaction shows its parent |
| `DbTransaction.Transaction.OnTransaction` | src/dbwrapper.h:611 | likewise when the parent is a transaction |
| `DbTransaction.Transaction.Write` | src/dbwrapper.h:619-632 | the view gains the pair, the parent is untouched and the usage stays exact |
| `DbTransaction.Transaction.Erase` | src/dbwrapper.h:680-689 | the view loses the key, the parent is untouched and the usage stays exact |
| `DbTransaction.Transaction.Read` | src/dbwrapper.h:640-656 | returns what the overlaid view holds, through any number of layers |
| `DbTransaction.Transaction.Exists` | src/dbwrapper.h:663-673 | true exactly for the keys of the overlaid view |
| `DbTransaction.Transaction.Clear` | src/dbwrapper.h:691-695 | the view is the parent's again |
| `DbTransaction.CleanExactly` | src/dbwrapper.h:707-709 | nothing is buffered if and only if the overlay leaves every map as it is |
| `DbTransaction.Transaction.IsClean` | src/dbwrapper.h:707-709 | true exactly when the transaction would show every possible parent unchanged |
| `DbTransaction.Transaction.GetMemoryUsage` | src/dbwrapper.h:711-722 | the exact sum of buffered keys and values, never negative |
| `DbTransaction.Transaction.Run` | src/dbwrapper.h:619-689 | any run of writes and erases shows what it does to a plain map |
| `DbTransaction.Transaction.Commit` | src/dbwrapper.h:697-705 | a target that showed the parent's map shows the overlay; when the target is the parent this view does not change |
| `DbIterator.TransactionIterator.constructor` | src/dbwrapper.h:423-429 | a new iterator is not positioned |
| `DbIterator.TransactionIterator.SkipDeletedAndOverwritten` | src/dbwrapper.h:531-539 | the parent cursor stops at the first key that is neither deleted nor overwritten |
| `DbIterator.TransactionIterator.DecideCur` | src/dbwrapper.h:541-553 | the flag selects the cursor with the smaller key |
| `DbIterator.TransactionIterator.SeekToFirst` | src/dbwrapper.h:431-436 | stands at the smallest key of the view |
| `DbIterator.TransactionIterator.Seek` | src/dbwrapper.h:443-448 | stands at the smallest key of the view not below the given one |
| `DbIterator.TransactionIterator.Next` | src/dbwrapper.h:454-467 | moves to the next larger key of the view, or to the end |
| `DbIterator.TransactionIterator.IsValid` | src/dbwrapper.h:450-452 | true exactly when there is a current key |
| `DbIterator.TransactionIterator.GetKey` | src/dbwrapper.h:496-505 | the current key, or the empty one |
| `DbIterator.TransactionIterator.GetValue` | src/dbwrapper.h:519-528 | the view's value at the current key |
| `DbIterator.TransactionIterator.CollectUntil` | src/llmq/quorums_blockprocessor.cpp:411-446 | a client's loop with a limit and a test to stop at sees exactly the view's entries from the bound up to where it stops, once each, in ascending order; it stops early only at the limit or the test |
| `DbIterator.TransactionIterator.Collect` | src/dbwrapper.h:431-467 | a loop to the end sees exactly the view's entries from the bound on, once each, in ascending order |
| `Cuckoo.Locate` | src/cuckoocache.h:243-253 | the scaled hash is a slot of the table |
| `Cuckoo.FirstVictim` | src/cuckoocache.h:416-431 | the first displacement uses the second location, which is the first if and only if they coincide |
| `Cuckoo.VictimAgain` | src/cuckoocache.h:416-431 | the slot just written is displaced again if and only if the next of the element's locations is the same slot |
| `Cuckoo.VictimWitness` | src/cuckoocache.h:340-440 | a run from a new cache of four slots in which the third insertion passes over its first location, displaces what it has just put in, and loses the new element |
| `Cuckoo.InsertHome` | src/cuckoocache.h:392-440 | every slot that is not discardable keeps holding an element at one of its eight locations |
| `Cuckoo.LookupHome` | src/cuckoocache.h:467-477 | lookups keep that too |
| `Cuckoo.InsertEffect` | src/cuckoocache.h:392-440 | the element was present and the table unchanged, or it went in and exactly one element went out, which was discardable unless the depth limit was reached |
| `Cuckoo.InsertKeeps` | src/cuckoocache.h:392-440 | the inserted element and every kept element is kept afterwards, but for one dropped at the depth limit |
| `Cuckoo.LookupFinds` | src/cuckoocache.h:467-477 | a lookup finds every kept element, and only what is in the table |
| `CuckooEffects.LookupEffect` | src/cuckoocache.h:467-477 | a lookup finds exactly what one of its locations holds; only an erasing one that finds it changes anything, and that is the flag of one such location |
| `CuckooEffects.ErasedStillFound` | src/cuckoocache.h:445-447 | what was erased is still found by every later lookup, and so is everything else |
| `CuckooEffects.InsertEraseFind` | src/cuckoocache.h:448-456 | the documented law of insert, contains(x, true) and contains(x, false) |
| `CuckooEffects.EpochEffect` | src/cuckoocache.h:289-321 | no element moves; when a full epoch ends, its entries stay kept and become old and everything older may be discarded; otherwise the counter alone changes, to the stated value |
| `CuckooEffects.InsertFlags` | src/cuckoocache.h:392-440 | an element that is there is kept and joins the current epoch; otherwise it goes in with the current epoch, every other keeps its own, and no flag changes but that of the slot given up |
| `CuckooEffects.InsertDirect` | src/cuckoocache.h:408-414 | the first location that may be discarded takes the element, and nothing is moved |
| `CuckooEffects.VictimNext` | src/cuckoocache.h:421-423 | further displacements take the next of the eight locations, cyclically |
| `CuckooEffects.EpochSizeExactly` | src/cuckoocache.h:347-348 | the epoch size is 45% of the slots, at least one, if and only if 45 times the size is below 2^32 |
| `CuckooEffects.EpochSizeWrapped` | src/cuckoocache.h:347-348 | at 95443718 slots it is 1 |
| `CuckooEffects.SetUpEffect` | src/cuckoocache.h:340-353 | size, contents, flags and counters after set-up |
| `Cuckoo.DisplaceLive` | src/cuckoocache.h:406-439 | displacement adds at most one entry to the current epoch |
| `Cuckoo.EpochRoom` | src/cuckoocache.h:289-321 | after the epoch check there is room for one more entry within the bound |
| `Cuckoo.InsertBounded` | src/cuckoocache.h:289-440 | insertions keep live entries of the epoch plus the counter within epoch_size + max(1, epoch_size / 16) |
| `Cuckoo.LookupBounded` | src/cuckoocache.h:467-477 | so do lookups, erasing or not |
| `Cuckoo.SetUpOk` | src/cuckoocache.h:340-353 | a set-up cache satisfies both invariants |
| `Cuckoo.EveryRun` | src/cuckoocache.h:340-477 | after set-up, every run of inserts and lookups keeps both, so the live entries of the current epoch stay within epoch_size + max(1, epoch_size / 16) |
| `CuckooFlags.BitPackedFlags.constructor` | src/cuckoocache.h:61-69 | all flags are set, padding included; there is one for every position up to size 0xFFFFFFF8, and none beyond, where the rounded size wraps |
| `CuckooFlags.BitPackedFlags.Setup` | src/cuckoocache.h:79-83 | all flags are set, for the new size, with the same wrap |
| `CuckooFlags.BitPackedFlags.BitSet` | src/cuckoocache.h:92-95 | sets that flag and no other |
| `CuckooFlags.BitPackedFlags.BitUnset` | src/cuckoocache.h:103-106 | clears that flag and no other |
| `CuckooFlags.BitPackedFlags.BitIsSet` | src/cuckoocache.h:113-116 | yields the flag as the sets and unsets of that position left it, whatever else shares its byte |
| `CuckooCache.Cache.constructor` | src/cuckoocache.h:327-330 | an empty cache |
| `CuckooCache.Cache.Setup` | src/cuckoocache.h:340-353 | computes the set-up state, with the 32-bit product, up to size 0xFFFFFFF8; beyond there is no room for flags |
| `CuckooCache.Cache.CountUnused` | src/cuckoocache.h:297-300 | the loop counts the live entries of the current epoch |
| `CuckooCache.Cache.EpochCheck` | src/cuckoocache.h:289-321 | computes the epoch check |
| `CuckooCache.Cache.Insert` | src/cuckoocache.h:392-440 | computes the insertion |
| `CuckooCache.Cache.Contains` | src/cuckoocache.h:467-477 | computes the lookup |
| `Limbs.MulAddFits` | src/arith_uint256.cpp:71-84 | the widest intermediate of a multiplication fits 64 bits |
| `LimbShifts.ShlCorrect` | src/arith_uint256.cpp:25-39 | limb-wise shifting left multiplies modulo the width, for every shift count |
| `LimbShifts.ShrCorrect` | src/arith_uint256.cpp:42-56 | limb-wise shifting right divides, rounding down, for every shift count |
| `LimbBits.SetBitAt` | src/arith_uint256.cpp:101-104 | setting a bit of the quotient adds its power of two |
| `Arith256.Uint256.Assign` | src/arith_uint256.h:95-102 | the value is the 64-bit number |
| `Arith256.Uint256.Add` | src/arith_uint256.h:142-152 | the sum modulo 2^256, also when both operands are the same object |
| `Arith256.Uint256.Complement` | src/arith_uint256.h:76-82 | 2^256 - 1 minus the value |
| `Arith256.Uint256.Negate` | src/arith_uint256.h:84-91 | minus the value modulo 2^256 |
| `Arith256.Uint256.Subtract` | src/arith_uint256.h:154-158 | the difference modulo 2^256 |
| `Arith256.Uint256.Increment` | src/arith_uint256.h:180-187 | plus one modulo 2^256 |
| `Arith256.Uint256.Decrement` | src/arith_uint256.h:197-204 | minus one modulo 2^256 |
| `Arith256.Uint256.Scale` | src/arith_uint256.cpp:59-68 | the product with a 32-bit number modulo 2^256 |
| `Arith256.Uint256.Multiply` | src/arith_uint256.cpp:71-84 | the product modulo 2^256 for another operand, and 0 for the number itself |
| `Arith256.Uint256.ShiftLeft` | src/arith_uint256.cpp:25-39 | the value times 2^shift modulo 2^256 |
| `Arith256.Uint256.ShiftRight` | src/arith_uint256.cpp:42-56 | the value divided by 2^shift, rounded down |
| `Arith256.Uint256.CompareTo` | src/arith_uint256.cpp:113-122 | -1, 0 or 1 as the values compare |
| `Arith256.Uint256.EqualTo` | src/arith_uint256.cpp:125-136 | equality with a 64-bit number |
| `Arith256.Uint256.Bits` | src/arith_uint256.cpp:175-187 | the length of the value in bits |
| `Arith256.Uint256.GetLow64` | src/arith_uint256.h:279-283 | the value modulo 2^64 |
| `Arith256.Uint256.Divide` | src/arith_uint256.cpp:87-110 | raises an error exactly for divisor 0, and otherwise ends with the floor quotient |
| `CompactTarget.OverflowExact` | src/arith_uint256.cpp:220-223 | the overflow flag is set exactly when the denoted magnitude is at least 2^256 |
| `CompactTarget.DecodeEncoded` | src/arith_uint256.cpp:227-248 | the encoded fields fit, and denote the number cut off below its top 23 bits by whole bytes |
| `CompactTarget.CompactRoundsDown` | src/arith_uint256.cpp:207-248 | decoding an encoding rounds down, by less than the exponent's power, and never overflows |
| `CompactTarget.CompactMonotone` | src/arith_uint256.cpp:207-248 | encoding is monotone |
| `CompactTarget.CompactLossless` | src/arith_uint256.cpp:207-248 | numbers that came from a compact form survive the round trip |
| `CompactTarget.CompactSign` | src/arith_uint256.cpp:207-248 | the negative flag comes back if and only if it was given and the number is not 0 |
| `CompactTarget.CompactKept` | src/arith_uint256.cpp:207-248 | value and sign of a compact form that does not overflow both survive decoding and encoding |
| `CompactTarget.CompactVectors` | src/test/arith_uint256_tests.cpp:430-540 | values, signs and overflow of the test vectors |
| `CompactTarget.CompactVectorsBack` | src/test/arith_uint256_tests.cpp:490-492 | 0x80 is encoded as 0x02008000 |
| `CompactTarget.ProofFormula` | src/chain.cpp:135-139 | ~t / (t + 1) + 1 is 2^256 / (t + 1) |
| `CompactTarget.TargetBelowTop` | src/chain.cpp:127-140 | no valid target is the largest 256-bit number |
| `CompactTarget.Reciprocal` | src/chain.cpp:135-139 | the four 256-bit operations of the formula leave 2^256 / (target + 1) |
| `CompactTarget.SetCompact` | src/arith_uint256.cpp:207-225 | the value modulo 2^256 and both flags |
| `CompactTarget.GetCompact` | src/arith_uint256.cpp:227-248 | the encoding; its two asserts never fail |
| `CompactTarget.GetBlockProof` | src/chain.cpp:127-140 | 0 for invalid targets and 2^256 / (target + 1) for others; the division never fails |
| `SkipHeights.GetSkipHeight` | src/chain.cpp:75-83 | the skip height is strictly lower |
| `SkipWalk.WalkWithin` | src/chain.cpp:78-109 | walking between two heights below 2^k takes at most a bound that depends on k only |
| `SkipWalk.WalkBoundSquare` | src/chain.cpp:78-109 | that bound is at most (k^2 + 10k) / 4: the walk is quadratic in the number of bits |
| `SkipWalk.WalkOf110` | src/chain.cpp:79-81 | at most 110 rounds between any two heights up to 2^18, as the source says |
| `Chain.BlockIndex.GetAncestor` | src/chain.cpp:85-109 | walking with skips ends at the ancestor that walking predecessors ends at, or null for a height out of range; where the skips were built it takes at most 110 rounds up to height 2^18 |
| `Chain.BlockIndex.BuildSkip` | src/chain.cpp:116-120 | the skip leads to the ancestor at the skip height, and the line stays sound |
| `BlockTree.NewBlock` | src/validation.cpp:3269-3285 | a new block has its line linked with sound skips, its work is the sum of the line's proofs and its nTimeMax the line's largest time |
| `BlockTree.Index.AddToBlockIndex` | src/validation.cpp:3260-3303 | a known hash is returned untouched; a new block is entered under its predecessor, every line stays sound, the predecessor map lists exactly the children, and the best header has the most work of all headers added as valid |
| `Chain.ActiveChain.ContainsLine` | src/chain.h:606-616 | the chain contains exactly the tip and its ancestors, and Next inverts the predecessor |
| `Chain.ActiveChain.SetTip` | src/chain.cpp:13-23 | despite its early stop, the chain is exactly the tip's ancestors |
| `Chain.TimesRise` | src/chain.cpp:64-69 | nTimeMax does not decrease along a line, whatever the times are |
| `Chain.ActiveChain.FindEarliestAtLeast` | src/chain.cpp:64-69 | the halving search over nTimeMax finds the first block of the chain whose own time is at least the given one, and null exactly when there is none |
| `Chain.ActiveChain.FindFork` | src/chain.cpp:53-62 | the highest block common to the chain and the block's line, or null when there is none |
| `Chain.ActiveChain.GetLocator` | src/chain.cpp:25-51 | ancestors at the exact stepped heights, strictly descending, ending at height 0, at most 12 + bits(height) |
| `Chain.OffsetSteps` | src/chain.cpp:26-48 | the steps of a locator: one each for the first eleven, then doubling |
| `Chain.LastCommonAncestor` | src/chain.cpp:161-176 | the highest common block; null exactly when the first blocks differ; the final assert never fails |
| `Marks.MarkWritten` | src/bloom.cpp:367-369 | writing a generation marks that position only |
| `Marks.MarkWiped` | src/bloom.cpp:350-358 | the masked wipe clears exactly the positions of the reused generation |
| `RollingBloom.Older` | src/bloom.cpp:344-359 | marks of the last two generations are never those being reused |
| `RollingBloom.FastMod` | src/bloom.cpp:338-340 | the index is the hash scaled down: index * 2^32 <= hash * n < (index + 1) * 2^32 |
| `RollingBloom.SeedsDiffer` | src/bloom.cpp:330-332 | no two hash functions of a key have the same seed |
| `RollingBloom.PlaceExactly` | src/bloom.cpp:362-366 | bit and pair of words of each hash |
| `RollingBloom.GenerationsCycle` | src/bloom.cpp:344-349 | generations are numbered 1, 2, 3 in turn |
| `RollingBloom.RollingBloomFilter.constructor` | src/bloom.cpp:302-327 | an empty filter |
| `RollingBloom.RollingBloomFilter.Reset` | src/bloom.cpp:399-407 | nothing is marked and nothing remembered |
| `RollingBloom.RollingBloomFilter.Wipe` | src/bloom.cpp:350-358 | the loop wipes exactly the current generation number |
| `RollingBloom.RollingBloomFilter.Insert` | src/bloom.cpp:342-371 | the marks of every position after an insertion, the generation counters, and that everything remembered stays so |
| `RollingBloom.RollingBloomFilter.Contains` | src/bloom.cpp:379-391 | true exactly when every position of the key is marked |
| `RollingBloom.RollingBloomFilter.Retains` | src/bloom.h:121-122 | each of the last 2 * nEntriesPerGeneration keys, and those of the current generation besides, is reported |
| `RollingBloom.RetainsElements` | src/bloom.h:121-122 | hence at least the last nElements keys |
| `CompactBlocks.FreeCount` | src/blockencodings.cpp:66-93 | after the prefilled transactions are laid out, exactly as many positions are free as there are short ids |
| `CompactEffects.FitExactly` | src/blockencodings.cpp:66-85 | a message passes the checks exactly if no prefilled transaction is null and the distances up to each leave it a 16-bit position within the block |
| `CompactEffects.LayoutExactly` | src/blockencodings.cpp:66-85 | the j-th prefilled transaction is at place j plus the distances up to it |
| `CompactEffects.CompactOfExactly` | src/blockencodings.cpp:20-35 | the transactions sent whole and the short ids of a block's own compact form |
| `CompactEffects.FilledExactly` | src/blockencodings.cpp:112-171 | in every position: as laid out without matches, empty after two in the pool, otherwise the first match unless an extra one of another hash came; and exactly where the two loops stop |
| `CompactBlocks.NoneLost` | src/blockencodings.cpp:89-110 | if the map has as many entries as there are ids, they differ and the i-th id has the i-th free position |
| `CompactBlocks.PositionsFit` | src/blockencodings.cpp:89-93 | the 16-bit positions are the free positions if and only if there are at most 65536 transactions; beyond, position 65536 is stored as 0 |
| `CompactBlocks.OthersKept` | src/blockencodings.cpp:112-171 | prefilled positions are never touched by the pool |
| `CompactBlocks.AllSourced` | src/blockencodings.cpp:112-171 | a filled position holds a transaction with the short id of that position |
| `CompactBlocks.OwnFits` | src/blockencodings.cpp:20-35 | a block's own compact form passes the prefilled checks |
| `CompactBlocks.OwnPositions` | src/blockencodings.cpp:20-35 | each of its short ids gets the position of its transaction |
| `CompactBlocks.OwnFilled` | src/blockencodings.cpp:55-171 | without clashes every position is empty or holds the block's transaction |
| `CompactBlocks.AssembledIsBlock` | src/blockencodings.cpp:184-206 | such positions and the missing transactions in order assemble to the block |
| `CompactBlocks.Reconstruction` | src/blockencodings.cpp:20-206 | the compact form of a block of up to 65536 transactions, filled without clashes and completed with what is missing, is exactly the block, coinstake included |
| `CompactBlocks.ReconstructionBroken` | src/blockencodings.cpp:89-131 | in any larger block a pool that holds its transaction 65536 puts it at position 0 |
| `CompactBlocks.ReconstructsExactly` | src/blockencodings.cpp:20-206 | hence, with distinct short ids, every pool reconstructs the block if and only if it has at most 65536 transactions |
| `PartialBlock.BuildCompact` | src/blockencodings.cpp:20-35 | computes the compact form |
| `PartialBlock.PartiallyDownloadedBlock.LayOut` | src/blockencodings.cpp:66-85 | accepts exactly the messages whose prefilled transactions all fit, and lays them out |
| `PartialBlock.PartiallyDownloadedBlock.AssignPositions` | src/blockencodings.cpp:89-107 | the scan stays in range and gives the i-th short id the low 16 bits of the i-th free position; fails exactly when a bucket is full |
| `PartialBlock.ScanEndless` | src/blockencodings.cpp:89-93 | a message that the scan cannot get through has exactly 65536 prefilled transactions and a short id, and after any number of increments of the wrapping 16-bit offset the position in hand is filled |
| `PartialBlock.EndlessWitness` | src/blockencodings.cpp:55-93 | 65536 prefilled transactions in a row and one short id pass every check before the scan, and the scan does not end on them |
| `PartialBlock.PartiallyDownloadedBlock.TakeFrom` | src/blockencodings.cpp:112-171 | the pool and extra loops, early exit included |
| `PartialBlock.PartiallyDownloadedBlock.InitData` | src/blockencodings.cpp:55-176 | exactly when a message is invalid; success means distinct short ids and the computed positions |
| `PartialBlock.SettledExactly` | src/blockencodings.cpp:178-206 | a position is filled if and only if any two sufficient lists of missing transactions assemble to the same transaction there |
| `PartialBlock.PartiallyDownloadedBlock.IsTxAvailable` | src/blockencodings.cpp:178-182 | true exactly when what FillBlock puts there does not depend on the missing transactions |
| `PartialBlock.PartiallyDownloadedBlock.FillBlock` | src/blockencodings.cpp:184-217 | the assembled block and the status in every case; with too few transactions it stops at the first position they do not reach and has moved out what comes before, otherwise the object is used up |
| `BlockRequest.RequestRoundTrip` | src/blockencodings.h:42-67 | increasing lists of 16-bit indexes survive the differential coding |
| `BlockRequest.ReadExactly` | src/blockencodings.h:42-61 | exactly when a message is read, and each index in closed form from the distances |
| `BlockRequest.ReadIncreasing` | src/blockencodings.h:55-61 | what is read is increasing if and only if the distances, each plus one, add up to at most 65536 |
| `BlockRequest.WrappedRequest` | src/blockencodings.h:55-61 | a request in which the offset wraps |
| `BlockRequest.EncodeIndexes` | src/blockencodings.h:62-67 | the distances between indexes |
| `BlockRequest.DecodeIndexes` | src/blockencodings.h:42-61 | the indexes, or failure where the source throws |
| `BlockRelay.RequestMissing` | src/net_processing.cpp:2740-2744 | asks for exactly the empty positions |
| `BlockRelay.SendBlockTransactions` | src/net_processing.cpp:1448-1462 | answers exactly the readable requests within the block, with the transactions at the requested indexes |
| `BlockRelay.Relay` | src/blockencodings.cpp:20-217 | compact form, InitData, request, answer and FillBlock together: refused exactly when over the size limit, and a received block is exactly the block that was sent |
| `Radix.EnoughDigits` | src/base58.cpp:35 | if D digits fit in N of another radix, n digits fit in n * N / D + 1 |
| `Radix.EncodeRatio` | src/base58.cpp:82 | 100 bytes fit in 138 digits of base 58 |
| `Radix.DecodeRatio` | src/base58.cpp:35 | 1000 digits of base 58 fit in 733 bytes |
| `Base58.DecodeEncode` | src/base58.cpp:22-110 | decoding an encoding gives the bytes back, leading zeros included |
| `Base58.EncodeDecode` | src/base58.cpp:22-110 | encoding a decoding gives the text back |
| `Base58.DecodesExactly` | src/base58.cpp:22-70 | a Base58 text with spaces around it decodes |
| `Base58Alphabet.AlphabetExactly` | src/base58.cpp:20 | the digits are the alphanumeric characters but 0, I, O and l, in the order of their codes |
| `Base58Alphabet.SpaceExactly` | src/base58.cpp:25 | the six characters that are skipped around the text |
| `Base58.EncodeVector` | src/test/data/base58_encode_decode.json:4 | the bytes 62 62 62 are encoded as a3gV |
| `Base58.DecodedIsPadded` | src/base58.cpp:22-70 | and only such a text does |
| `Base58.MultiplyAdd` | src/base58.cpp:43-52 | the carry loop multiplies and adds within the buffer; the carry is 0 at its assert |
| `Base58.EncodeBase58` | src/base58.cpp:72-110 | computes the encoding |
| `Base58.DecodeBase58` | src/base58.cpp:22-70 | computes the decoding, or fails |
| `Base58.EncodeBase58Check` | src/base58.cpp:122-129 | the encoding of the bytes and the first four of their hash |
| `Base58.DecodeBase58Check` | src/base58.cpp:131-146 | the bytes, if the last four decoded bytes are the start of the hash of the others |
| `Base58.CheckRoundTrip` | src/base58.cpp:122-146 | with any hash, the checked form round-trips |
| `Base58.CheckedIsEncoding` | src/base58.cpp:122-146 | what decodes is the checked encoding of the result |
| `Bech32Checksum.TimesLinear` | src/bech32.cpp:80-91 | the step is linear over exclusive or |
| `Bech32Checksum.TimesInjective` | src/bech32.cpp:80-91 | and sends only zero to zero |
| `Bech32Checksum.BurstDetected` | src/bech32.cpp:37-94 | changing values within six consecutive places changes the remainder, for any length |
| `Bech32Checksum.ChecksumMakesOne` | src/bech32.cpp:128-139 | appending the created checksum makes the remainder 1 |
| `Bech32Checksum.PolyMod` | src/bech32.cpp:37-94 | the loop computes the remainder |
| `Field1024.NotFixed` | src/bech32.cpp:47-51 | in the field of 1024 elements, multiplication by a power of the generator between 1 and 1022 fixes only zero |
| `Field1024.ThreeTerms` | src/bech32.cpp:47-51 | three terms at different powers below 1023 that vanish at three consecutive powers are all zero |
| `Bech32Roots.PowerNext` | src/bech32.cpp:44-51 | each entry of the tables is the previous one times its root, the 24th, 25th or 26th power of the generator |
| `Bech32Distance.EvalStep` | src/bech32.cpp:80-91 | these powers are roots of the generator polynomial: a step of the loop multiplies the remainder's value there |
| `Bech32Distance.ThreeErrors` | src/bech32.cpp:47-51 | changing any values at three places of a window of 1023 changes the remainder, for any text around it |
| `Bech32Alphabet.RevExactly` | src/bech32.cpp:13-25 | the reverse table maps a character to a value exactly when its lower case is the value's character |
| `Bech32Alphabet.CharClasses` | src/bech32.cpp:161-168 | the characters allowed, and upper and lower case |
| `Bech32.ChecksumVerifies` | src/bech32.cpp:118-139 | the checksum of any prefix and values verifies |
| `Bech32.BurstFails` | src/bech32.cpp:118-125 | a change within six consecutive values of a verified sequence does not verify |
| `Bech32.SingleErrorFails` | src/bech32.cpp:118-125 | in particular a change of one value |
| `Bech32.UpToThreeFail` | src/bech32.cpp:47-51 | a verified sequence of up to 1023 values, changed at one to three places, does not verify |
| `Bech32.ChecksumUnique` | src/bech32.cpp:118-139 | the last six values of a verified sequence are the checksum of the others |
| `Bech32.ExpandHRP` | src/bech32.cpp:103-114 | place by place: the high bits of each character, a zero, the low bits of each |
| `Bech32.VerifyChecksum` | src/bech32.cpp:118-125 | true exactly when the remainder is 1 |
| `Bech32.CreateChecksum` | src/bech32.cpp:128-139 | the six groups of the remainder |
| `Bech32.Encode` | src/bech32.cpp:147-156 | prefix, separator, data and checksum |
| `Bech32.Decode` | src/bech32.cpp:159-189 | succeeds exactly on the strings that are, in either case, an encoding within the limits, with what was encoded |
| `Bech32.StandsUnique` | src/bech32.cpp:159-189 | a string is the encoding of at most one prefix and data |
| `Bech32.RoundTrip` | src/bech32.cpp:147-189 | decoding an encoding returns what was encoded, for nonempty printable prefixes without upper case and at most 90 characters |
| `Bech32Vector.Vector` | src/bech32.cpp:147-156 | the prefix "a" without data is encoded as a12uel5l, as in section "Test vectors" of BIP 173 |

## Left out

- `CAddrMan::Select_` and `GetChance`: floating-point probabilities and an unbounded random search.
- `CAddrMan::Serialize` and `Unserialize`: reloading with `discriminatePorts` off indexes by the unstripped address, so the index invariant is not re-established.
- `Check_`: its own lookup of the unstripped address is not modelled; the invariant is stated directly.
- AddrManTables.AddrManager.Create: ids are unbounded integers, so the wrap-around of the 32-bit id counter is not modelled.
- Coins.CoinsViewCache.SpendCoin: its return value is not an existence test (an already spent dirty entry also reports true); the effect on the view is stated instead.
- Best-block propagation and zerocoin value sums of the coin cache.
- The interrupt flag of the check queue, the destructor of `CCheckQueueControl` and thread creation.
- CuckooCache.Cache.Setup: beyond size 0xFFFFFFF8 it states only that there are no flags; later accesses are then outside their array and are not modelled.
- Memory order of the atomic flags in the cuckoo cache; its element type is a number, because elements are only compared and hashed.
- Floating-point sizing: hash counts, filter sizes and the depth limit are arbitrary parameters; `getdouble` is not modelled.
- `GetBlockProofEquivalentTime`, whose product can wrap.
- Merkle trees of 2^31 or more transactions, where the shifts on 32-bit numbers would wrap; extraction rejects more than 33333 transactions.
- MerkleBlock.PartialMerkleTree.Build: the mask has exactly one bit per transaction, as both callers build it.
- Types of database values: values are byte strings, so the error for reading with another type does not arise; modifying a transaction while an iterator stands on it is not modelled.
- DbTransaction.Transaction.Commit: a batch as commit target is modelled by the map it is later written to.
- PartialBlock.PartiallyDownloadedBlock.InitData: the messages of `PartialBlock.ScanEndless`, on which the source does not return; the bucket test and the size limit are arbitrary, and `extra_count`, which is only logged, is not kept.
- PartialBlock.PartiallyDownloadedBlock.AssignPositions: likewise not called where the search has no end.
- RollingBloom.RollingBloomFilter.Insert: words are sequences of 64 bits, with the bitwise operators applied bit by bit.
- BlockTree.Index.AddToBlockIndex: headers whose predecessor hash is their own hash; the block's proof is any number and chain work is unbounded, and status flags, sequence ids and the set of changed entries are not kept.
- Chain.ActiveChain.GetLocator: heights are unbounded, so the doubling step does not overflow 32 bits.
- Strings with embedded null characters passed to the Base58 decoder, and text lengths at which 32-bit sizes overflow.
- Detection of four scattered errors within 89 values by Bech32: the generator was selected for it among the codes with the same roots, which is an enumeration and not a consequence of the roots.
- The other containers (`CacheMultiMap`, `CacheMap`, `limitedmap`), transaction compression, SipHash, mnemonics, address and script encoding, wallet, networking, RPC and consensus code.
