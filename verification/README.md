# A verified model of dnscache

dnscache is a DNS cache server with a client library.  Its server keeps names in a
double-array trie (and in a hash table when they are not in the trie), hands out memory
from its own chunk allocator, and answers a request in two partial replies which the
client puts together.  This project models these parts in Dafny and proves what they are
for.

| file | what it models |
|---|---|
| FreeList.dfy, CellTree.dfy, DArray.dfy | the double array: cells, the free list threaded through them, the tree of nodes, inserting, relocating, pruning (`darray.c`) |
| Tail.dfy | the pool of key suffixes (`tail.c`) |
| AlphaRanges.dfy, AlphaMap.dfy | the alphabet: what it means, and the linked list of ranges that is edited in place (`alpha-map.c`) |
| TrieContents.dfy, Trie.dfy, TrieRuns.dfy | the trie as a finite map, its operations, whole runs of them (`trie.c`) |
| TrieEnumeration.dfy | showing all keys in order (`trie.c`, `darray.c`) |
| FileBytes.dfy, TrieFormat.dfy | the bytes of a trie file and where everything lies in them (`fileutils.c` and the write functions) |
| TrieFile.dfy, TrieChecks.dfy | saving and loading, and exactly which files are refused (`trie.c` and the read functions) |
| TrieReader.dfy | looking a key up in the numbers of a file alone |
| SList.dfy, DcMm.dfy | the list with preallocated nodes and the chunk allocator (`slist.c`, `dc_mm1.c`) |
| ServReply.dfy, InPlace.dfy | the first reply, built in the buffer of the request while the request is read from it (`serv_thread_make.c`, `udp_server.c`) |
| DnsThreads.dfy, DnsRuns.dfy, DnsExamples.dfy | the job ring, the steps of the lookup threads, all their runs and the second reply, two particular runs (`dns_thread_make.c`, `serv_thread_make.c`) |
| DcClient.dfy, TcpSearch.dfy, TcpRequest.dfy | the client, what it makes of two replies, and a request from end to end (`dc_client.c` with the above) |
| DlKache.dfy | the cache (`dl_kache.c`, `hash.c`) |

## How the trie is described

The cells are a sequence that the methods of `DArray` reassign.  Two ghost maps name the
nodes: `path` gives for an index the labels that lead there from the root, `node` is its
inverse.  `IsTree` says that CHECK is the parent and that the offset from the parent's
BASE is the last label; `Placed` that every node lies where its parent's BASE puts it;
`IsFreeList` that the free cells form one ascending doubly linked circle.  The *shape*
maps each path to its kind: inner, or a leaf with its tail block.  Relocation changes
`path` and `node` and leaves the shape as it is; all reasoning about keys is about shapes.
`IsTrie`, `NoDeadEnds` and `Represents` connect a shape and a tail pool with the finite
map `contents` that every operation of `Trie` is specified by.

What a trie file means is said twice: `Lies` says where each number lies in its bytes, and
`Read` looks a key up in these numbers as they are, without paths or shapes.  `LiesIff`
and `ReadFromRoot` connect them with what `Save` writes and with `contents`.

Where the code does not do what its documentation says, the code is followed:

- A fresh node keeps a stale negative BASE; callers rely on it.  `InsertBranch` says so.
- Freeing tail block 0 drops the chain of free blocks, since 0 also ends the chain.  The
  pool then forgets these blocks; it never hands out one that is in use.
- The reply overwrites the request it is made from.  It is right whatever is cached exactly
  if every name but the last leaves room for an address before the next name and all the
  addresses fit the buffer (`RightIffRoom`).  Room between the names is `Roomy`; given it,
  the loop stores outside the buffer exactly if the addresses do not fit
  (`RightIfItFits`), which over TCP, where the buffer is as long as the request, depends on
  the last name.  Names of three bytes or more satisfy both; `ShortNamesSpoiled` is a
  request with a wrong reply.
- A name cached with the address that marks a miss is lost when another name of the
  request is missed; `OnceEachIff` gives the exact condition.
- The header file says the error byte of a request is 0 if there was an error and 1 if all
  is right.  A thread never resets its error mark, so a reply is flagged exactly if a lookup
  of the request failed or was done by a thread marked when it took the job
  (`RepliesAreComplete`, `MarkRecorded`); `MarkSticks` is a run in which a request without
  any failed lookup is flagged.
- A thread that sees the counter of a request at zero when the reply has been sent frees
  memory a second time.  The model records this; what is promised of replies is for runs
  without it.  After a reply is sent it can happen exactly if another thread is past its countdown for the request at
  that moment (`LateIff`), and `LateLook` is a run in which it does.
- The counters of an extra list of chunks wrap at 16 bits.  The list stays sound exactly
  while it has at most 65535 chunks (`GrowthIff`, `DcAlloc`); `WrapLoses` is how a list with
  more goes while tens of thousands of its chunks are held, and `GoneIff` says when a list
  goes.
- The trie can tell a key from all other strings exactly if the key is over the alphabet
  (`UniqueIffOverAlphabet`), since all other characters have the same code.
- A name in the bucket of another one finds that one's record if it begins like it
  (`Store`, `SharedTagIff`).
- The empty name is always found in the hash table (`EmptyNameIsFound`).

## Model

| member | source | states |
|---|---|---|
| FreeList.LinkFrees | src/server/darray.c:748-765 | giving a used cell back at the place the search finds keeps the list one strictly ascending circle through cell 1 that holds exactly the old free cells and this one, and touches no other used cell |
| FreeList.UnlinkUses | src/server/darray.c:735-746 | taking a free cell off the list keeps the list ascending and circular over exactly the other free cells |
| FreeList.ExtendedIsFreeList | src/server/darray.c:658-693 | a pool extended by a run of new cells again has all its free cells on one ascending list |
| FreeList.LinksInCells | src/server/darray.c:735-765 | minus CHECK of the head or of a free cell is the next free cell or the head again, minus BASE leads back, and no free cell lies between |
| CellTree.ChildAt | src/server/darray.c:378-390 | for each label the cell at BASE + label has the node as its CHECK exactly if the tree has that branch, and then it is that branch |
| CellTree.MoveKeepsTree | src/server/darray.c:620-648 | moving one child with its own children re-parented keeps the tree, with only that child renamed |
| CellTree.ScanFindsNone | src/server/darray.c:469-486 | a scan of all labels below 255 that meets no child proves there is none |
| CellTree.DetachKeepsTree | src/server/darray.c:705-733 | removing a childless node keeps the tree and all other names |
| DoubleArray.DArray.constructor | src/server/darray.c:151-176 | a new double array is valid and consists of the root alone |
| DoubleArray.SymbolsAdd | src/server/darray.c:88-114 | inserting by binary search keeps the list strictly ascending and adds exactly the symbol |
| DoubleArray.NoFreeBlocks | src/server/darray.c:549-588 | the bases that the search skips cannot hold the symbols, because their first symbol meets no free cell |
| DoubleArray.DArray.ExtendPool | src/server/darray.c:658-693 | makes an index usable exactly if it is in 1..TRIE_INDEX_MAX-1, adding only free cells and changing no used one |
| DoubleArray.DArray.CheckFreeCell | src/server/darray.c:463-467 | true exactly if the cell is free, the pool being extended to reach it |
| DoubleArray.DArray.FitSymbols | src/server/darray.c:590-606 | true if every symbol meets a free cell, false only if one meets a used cell or the last index |
| DoubleArray.DArray.FirstListed | src/server/darray.c:555-562 | the first free cell beyond the first symbol, or the head if there is none |
| DoubleArray.DArray.FirstMade | src/server/darray.c:563-572 | the first such cell made by extending the pool; fails only at the largest size |
| DoubleArray.DArray.NextFree | src/server/darray.c:577-584 | the next free cell, the pool being extended before the list is exhausted, so the head is never reached |
| DoubleArray.DArray.FindFreeBase | src/server/darray.c:549-588 | first fit: terminates, returns the least base from 3 at which all symbols meet free cells, and fails only when the pool has its largest size and every base is blocked |
| DoubleArray.DArray.TakeCell | src/server/darray.c:735-746 | the cell leaves the free list, becomes a child and keeps its stale BASE |
| DoubleArray.DArray.InsertionPoint | src/server/darray.c:753-756 | the first link of the list behind the cell |
| DoubleArray.DArray.FreeCell | src/server/darray.c:748-765 | the cell joins the free list in order, no used cell but it changes |
| DoubleArray.DArray.HasChildren | src/server/darray.c:469-486 | true exactly if some branch leads on from the node |
| DoubleArray.DArray.OutputSymbols | src/server/darray.c:489-507 | the labels of exactly the branches of the node, strictly ascending |
| DoubleArray.DArray.ReparentChildren | src/server/darray.c:636-646 | exactly the cells in the window of the moved node that have it as CHECK get the new parent |
| DoubleArray.DArray.MoveCells | src/server/darray.c:620-648 | one turn of the relocation: the child moves to its new cell, its children get the new parent, and nothing else of the tree changes |
| DoubleArray.DArray.RelocateBase | src/server/darray.c:608-656 | every path and kind of the tree is unchanged, exactly the children of the node change their index, and the node itself stays |
| DoubleArray.DArray.RelocateFor | src/server/darray.c:428-438 | the children go to the first base that also has room for the new label; paths and kinds are unchanged |
| DoubleArray.DArray.FirstBase | src/server/darray.c:446-455 | a node without children gets the first base with room for the label |
| DoubleArray.DArray.Attach | src/server/darray.c:457-460 | exactly one new node, with a stale negative BASE |
| DoubleArray.DArray.InsertBranch | src/server/darray.c:405-461 | returns the branch if it is there, else adds exactly it; other paths and kinds stay, as do the indices of all nodes but the node's children; fails only with the pool at its largest size and no base with room, and then the tree is unchanged |
| DoubleArray.DArray.Walk | src/server/darray.c:378-390 | follows the branch exactly if it exists |
| DoubleArray.DArray.Detach | src/server/darray.c:729-731 | exactly the childless node goes, and its parent is returned |
| DoubleArray.DArray.SetLeafBase | src/server/trie.c:40 | only the kind of the leaf changes |
| DoubleArray.DArray.PruneUpto | src/server/darray.c:722-733 | removes the node and exactly those ancestors that are left childless, up to the given one |
| DoubleArray.DArray.GetStateKey | src/server/darray.c:509-547 | the upward trace, reversed in place, is the path of labels between the two nodes |
| DoubleArray.ReverseInPlace | src/server/darray.c:535-544 | swapping from both ends reverses the buffer |
| TailPool.ChainAscends | src/server/tail.c:339-350 | following the free chain visits blocks in strictly ascending order |
| TailPool.InsertedIsChain | src/server/tail.c:339-350 | linking a block between its neighbours keeps the chain ascending; freeing block 0 leaves an empty chain |
| TailPool.Tail.AllocBlock | src/server/tail.c:299-320 | hands out the head of the free chain, or a new block if there is none; it was not allocated, and every allocated block keeps its suffix and data |
| TailPool.Tail.FreeBlock | src/server/tail.c:322-350 | exactly this block stops being allocated; the others keep their contents and the chain stays ascending and free of allocated blocks |
| TailPool.Tail.ChainPosition | src/server/tail.c:339-342 | the two neighbours on the chain between which the block belongs |
| TailPool.Tail.AddSuffix | src/server/tail.c:288-297 | a new block with the suffix; all other blocks unchanged |
| TailPool.Tail.SetSuffix | src/server/tail.c:257-273 | only the suffix of this block changes, and only if the block exists |
| TailPool.Tail.SetData | src/server/tail.c:380-390 | only the data of this block changes, and only if the block exists |
| TailPool.Tail.WalkChar | src/server/tail.c:465-483 | matches exactly the next character of the suffix, and moves on unless at its end |
| AlphaRanges.CodingIsBijective | src/server/alpha-map.c:337-377 | coding is a strictly increasing bijection between the alphabet and 1..N, decoding is its inverse, and every other non-zero character gets 255 |
| AlphaMaps.AddedIsUnion | src/server/alpha-map.c:219-335 | adding a range makes the list cover the union, sorted and disjoint |
| AlphaMaps.AddedLast | src/server/alpha-map.c:98-118 | a range beyond all others is appended, so re-adding ranges in order rebuilds the list |
| AlphaMaps.AlphaMap.AddRange | src/server/alpha-map.c:229-335 | in place, the ranges that meet the new one are replaced by their hull and nothing else changes; both loops terminate; an empty range is refused |
| AlphaMaps.AlphaMap.SkipBefore | src/server/alpha-map.c:239-249 | stops at the first range that ends at or behind the new one's begin |
| AlphaMaps.AlphaMap.RemoveCovered | src/server/alpha-map.c:273-297 | removes from the linked list exactly the ranges after the first that end before the new one does |
| AlphaMaps.AlphaMap.Remove | src/server/alpha-map.c:269-282 | exactly this node leaves the list |
| AlphaMaps.AlphaMap.Absorb | src/server/alpha-map.c:289-308 | the first range takes in all that follow and meet the new one; the end node is then the next one, as the source asserts |
| AlphaMaps.AlphaMap.InsertBetween | src/server/alpha-map.c:309-332 | a new node at this place, all others linked as before |
| AlphaMaps.AlphaMap.CharToTrie | src/server/alpha-map.c:337-356 | the code of the character |
| AlphaMaps.AlphaMap.TrieToChar | src/server/alpha-map.c:358-377 | the character of the code |
| AlphaMaps.AlphaMap.Clone | src/server/alpha-map.c:98-118 | a fresh list with the same ranges, hence the same coding |
| TrieContents.StoredAtLeaf | src/server/trie.c:288-326 | a key whose way meets a leaf is stored exactly if the leaf's suffix is the rest of the key |
| TrieContents.NotStored | src/server/trie.c:301-306 | a key whose way leaves the tree at an inner node is not stored |
| TrieContents.BranchAdded | src/server/trie.c:432-452 | a new leaf with the rest of a key adds exactly that key |
| TrieContents.SplitKeeps | src/server/trie.c:454-493 | cutting a suffix into a chain of nodes keeps the stored map |
| TrieContents.PruneUndoesGrow | src/server/trie.c:486-493 | pruning a chain of new nodes restores the tree from before the split |
| TrieContents.LeafRemoved | src/server/trie.c:505-545 | removing a leaf, its block and its childless ancestors removes exactly its key |
| TrieContents.PruneLeavesNoDeadEnd | src/server/darray.c:722-733 | when pruning stops, every inner node but the root still leads on |
| Tries.Trie.constructor | src/server/trie.c:76-107 | a new trie stores nothing, over the same alphabet |
| Tries.Trie.WalkBranches | src/server/trie.c:296-311 | the walk ends at a leaf on the way of the key, or where the tree has no such branch |
| Tries.Trie.WalkTail | src/server/trie.c:313-322 | true exactly if the stored suffix is the rest of the key |
| Tries.Trie.Encode | src/server/alpha-map.c:379-392 | the codes of the rest of a string |
| Tries.Trie.Retrieve | src/server/trie.c:288-326 | finds exactly the stored keys, with their data; a key with characters outside the alphabet is just not found |
| Tries.Trie.BranchInBranch | src/server/trie.c:432-452 | adds the key, or fails without change of the stored map |
| Tries.Trie.FillBranch | src/server/trie.c:443-451 | the fresh node gets a block with the rest of the key and the data |
| Tries.Trie.BranchCommon | src/server/trie.c:459-481 | the loop stops before either string runs out; on failure the tree is as it was |
| Tries.Trie.Rollback | src/server/trie.c:486-493 | takes back the nodes added and the leaf is a leaf again |
| Tries.Trie.MoveTail | src/server/trie.c:480-483 | the old block, cut short, belongs to the new leaf; the stored map is unchanged |
| Tries.Trie.BranchInTail | src/server/trie.c:454-493 | the old key keeps its data and the new one is added; on failure the stored map is unchanged |
| Tries.Trie.StoreConditionally | src/server/trie.c:371-430 | stores, overwrites only on demand, and fails for a new key only when the double array has its largest size, changing nothing; the trie is dirty after a success |
| Tries.Trie.StoreAtLeaf | src/server/trie.c:400-430 | the same for a way that meets a leaf |
| Tries.Trie.Overwrite | src/server/trie.c:427-429 | the key of the leaf gets the data and nothing else changes |
| Tries.Trie.Store | src/server/trie.c:341-345 | the map with the key set; a failure needs a new key and a full double array |
| Tries.Trie.StoreIfAbsent | src/server/trie.c:365-369 | fails without change on a present key |
| Tries.Trie.Delete | src/server/trie.c:505-545 | true exactly for a present key, and removes only that key |
| Tries.Trie.RemoveLeaf | src/server/trie.c:539-544 | removes exactly the key of the leaf and leaves no dead branch |
| TrieRuns.CodesInjective | src/server/alpha-map.c:379-392 | different strings have different codes if one is over the alphabet |
| TrieRuns.UniqueIffOverAlphabet | src/server/alpha-map.c:337-356 | a key shares its codes with no other string if and only if it is over the alphabet |
| TrieRuns.Run | src/server/trie.c:288-545 | from an empty trie, any sequence of operations is answered as a finite map from strings to data answers it; a store fails only at a moment when the double array, which never shrinks, has its largest size |
| TrieEnumeration.LeafEntry | src/server/trie.c:554-587 | the key and data of a leaf, decoded |
| TrieEnumeration.EnumerateFrom | src/server/darray.c:787-822 | below a node, the callback is shown stored keys with their data, in order and without gaps, obeying its stop |
| TrieEnumeration.OncePerKey | src/server/darray.c:781-822 | calls in strictly ascending order show each key at most once |
| TrieEnumeration.OrderKept | src/server/alpha-map.c:337-356 | coding keeps the lexicographic order of strings |
| TrieEnumeration.Enumerate | src/server/trie.c:554-612 | the callback sees every stored key exactly once, in strictly ascending lexicographic order; if it stops, it has seen a prefix of that sequence |
| FileBytes.Int32Order | src/server/fileutils.c:26-37 | the most significant byte is written first: smaller numbers have lexicographically smaller bytes |
| FileBytes.Int16Order | src/server/fileutils.c:53-62 | likewise for 16 bits |
| FileBytes.Int32RoundTrip | src/server/fileutils.c:12-37 | the four bytes written read back as the number, also for negative and for unsigned ones |
| FileBytes.Int16RoundTrip | src/server/fileutils.c:39-62 | the two bytes written read back as the number |
| TrieFormat.RangesLieIff | src/server/alpha-map.c:182-217 | the bytes of an alphabet are D9 FC D9 FC, the number of ranges, and begin and end of each as big-endian words, and nothing else is |
| TrieFormat.CellsLieIff | src/server/darray.c:260-275 | BASE and CHECK of cell i are the big-endian words at 8i and 8i + 4 |
| TrieFormat.PoolLiesIff | src/server/tail.c:194-227 | DF FC DF FC, the first free block, the number of blocks, and of each block the next free one, the data, the length in two bytes and the characters |
| TrieFormat.LiesIff | src/server/trie.c:237-252 | the saved bytes are exactly those in which the three parts lie like this one after the other |
| TrieReader.ReadFromRoot | src/server/trie.c:288-326 | a walk over the bare numbers, from cell 2 by BASE plus code and CHECK to a negative BASE and its tail block, finds exactly the stored keys with their data |
| TrieFile.ImageIsRead | src/server/trie.c:288-326 | the same for any string and the image of a trie in a file |
| TrieFile.LaidOutIsParsed | src/server/trie.c:151-177 | any bytes in which the image of a trie lies as the format says are read as it |
| TrieChecks.RangesParsedIff | src/server/alpha-map.c:143-180 | an alphabet is read if and only if it has the signature and all the ranges it announces |
| TrieChecks.DaParsedIff | src/server/darray.c:189-232 | a double array is read if and only if its first cell is the signature DA FC DA FC and a positive number of cells, and they are all there; what is read is what lies there |
| TrieChecks.TailParsedIff | src/server/tail.c:95-157 | a pool is read if and only if it has the signature and all the blocks it announces, each with as many characters as it says |
| TrieFile.RangesRoundTrip | src/server/alpha-map.c:143-217 | the bytes of an alphabet parse as its ranges and leave what follows |
| TrieFile.ReadRanges | src/server/alpha-map.c:143-180 | builds a list that covers exactly the listed ranges, and the very list if they are in order; on failure the file position is restored |
| TrieFile.WriteRanges | src/server/alpha-map.c:182-217 | appends the bytes of the alphabet |
| TrieFile.DaRoundTrip | src/server/darray.c:189-275 | the bytes of the cells, header included, parse as the same cells |
| TrieFile.ReadDa | src/server/darray.c:189-232 | reads what the bytes parse as; on failure the file position is restored |
| TrieFile.WriteDa | src/server/darray.c:260-275 | appends the bytes of all cells |
| TrieFile.TailRoundTrip | src/server/tail.c:95-227 | the bytes of a pool parse as the pool, with an empty suffix for a missing one |
| TrieFile.ReadTail | src/server/tail.c:95-157 | reads what the bytes parse as; on failure the file position is restored |
| TrieFile.WriteBlock | src/server/tail.c:207-223 | appends the bytes of one block, with the length cut to 16 bits |
| TrieFile.WriteTail | src/server/tail.c:194-227 | appends the bytes of the pool |
| TrieFile.ReadBlock | src/server/tail.c:121-142 | reads what the bytes of one block parse as |
| TrieFile.TrieRoundTrip | src/server/trie.c:151-252 | parsing the bytes of a trie followed by anything yields the trie and leaves what follows |
| TrieFile.RereadIsImage | src/server/tail.c:132-141 | empty suffixes in place of missing ones change neither the validity of a trie nor what it stores |
| TrieFile.Save | src/server/trie.c:237-252 | appends the bytes of the trie, which lie as the format says, and clears the dirty mark |
| TrieFile.Load | src/server/trie.c:151-177 | loads whatever parses, and when that is the image of a trie, a valid trie storing the same map |
| TrieFile.SaveAndLoad | src/server/trie.c:151-252 | a saved trie is loaded with the same alphabet and the same map, and reading stops at what follows |
| SLists.SList.constructor | src/server/slist.c:9-31 | an empty list with the given number of blank nodes and two new memory blocks |
| SLists.SList.Expand | src/server/slist.c:33-61 | adds new blank nodes to the capacity, keeps the items, records the new blocks |
| SLists.SList.Append | src/server/slist.c:79-103 | the item is added at the end, refused exactly if the list is full; the nodes are the same, on two disjoint chains |
| SLists.SList.Push | src/server/slist.c:122-139 | the item is added at the front, refused exactly if the list is full |
| SLists.SList.Pop | src/server/slist.c:105-120 | the first item is taken off and its node becomes blank |
| SLists.SList.Find | src/server/slist.c:141-153 | 1 exactly if the item is in the list |
| SLists.SList.Mv2head | src/server/slist.c:155-180 | the first such item moves to the front and the others keep their order; the end is repaired |
| SLists.MovedIsPermutation | src/server/slist.c:155-180 | moving to the front permutes the items |
| SLists.SList.FreeAll | src/server/slist.c:63-77 | every block of the list is freed once and no other block |
| ChunkAllocator.FirstBit | src/server/dc_mm1.c:354-379 | the position of the highest bit: 2^(c-1) <= n < 2^c |
| ChunkAllocator.SizeClass | src/server/dc_mm1.c:187-189 | the least class whose chunks hold the size |
| ChunkAllocator.TakesExtra | src/server/dc_mm1.c:108-132 | rotating the first chunk of an extra list to its end hands out one that was idle and keeps the idle ones in front |
| ChunkAllocator.GivesExtra | src/server/dc_mm1.c:246-254 | moving a held chunk to the front makes exactly it idle |
| ChunkAllocator.GivesPooled | src/server/dc_mm1.c:268-277 | a held chunk of a pool goes back to the idle list; the pool's chunks are conserved |
| ChunkAllocator.DropsExtra | src/server/dc_mm1.c:254-263 | a list is freed only when none of its chunks is held |
| ChunkAllocator.GrowthIff | src/server/dc_mm1.c:157-181 | a list that grows and hands out a chunk has every chunk accounted for, and its counters stay right if and only if it has at most 65535 chunks |
| ChunkAllocator.GoneIff | src/server/dc_mm1.c:254-263 | whatever its length, a list goes exactly when the number of its chunks still handed out is a multiple of 2^16 |
| ChunkAllocator.WrapLoses | src/server/dc_mm1.c:157-181 | from 65534 chunks handed out, three more allocations and one chunk given back lose 65536 held chunks |
| ChunkAllocator.HandedOutCounts | src/server/dc_mm1.c:157-181 | taking chunks only leads to lists of every even length, with the counter modulo 2^16 |
| ChunkAllocator.Allocator.constructor | src/server/dc_mm1.c:48-83 | all pools full and idle, no extra lists |
| ChunkAllocator.Allocator.MmPreAlloc | src/server/dc_mm1.c:31-46 | as many new chunks as asked for, all different, with the class in front of each |
| ChunkAllocator.Allocator.MkEl | src/server/dc_mm1.c:135-154 | a class without an extra list gets one with two idle chunks |
| ChunkAllocator.Allocator.ExpandEl | src/server/dc_mm1.c:157-181 | two new idle chunks come before those handed out; both counters go up modulo 2^16 |
| ChunkAllocator.Allocator.SelectExtra | src/server/dc_mm1.c:109-132 | hands out a chunk of the extra list that was not held |
| ChunkAllocator.Allocator.SelectPreAlloced | src/server/dc_mm1.c:86-106 | hands out the first idle chunk of the pool |
| ChunkAllocator.Allocator.DcAlloc | src/server/dc_mm1.c:183-229 | returns a chunk that no one holds, of the least class that holds the size, from the pool as long as it has one; all other held chunks stay held and all are accounted for; the allocator stays valid if and only if the class did not have to grow beyond 65535 chunks |
| ChunkAllocator.Allocator.DcFree | src/server/dc_mm1.c:236-310 | exactly this chunk is given back, to its pool or to its extra list |
| ChunkAllocator.Allocator.AllocExtra | src/server/dc_mm1.c:193-226 | the extra list is made, grown or used as it is, and hands out a chunk that was not held |
| ChunkAllocator.Allocator.FreeExtra | src/server/dc_mm1.c:285-309 | the chunk is idle again; the list goes with its chunks when the counters meet |
| InPlaceReplies.DoSearch | src/server/serv_thread_make.c:105-170 | on every buffer the loop in place yields the buffer, the misses and the flag that the loop as a function of the overwritten bytes yields, or leaves the buffer when that does |
| InPlaceReplies.RightIffRoom | src/server/serv_thread_make.c:105-158 | that is the reply of looking up all names beforehand, whatever is cached, if and only if every name but the last leaves room for an address and all addresses fit the buffer |
| InPlaceReplies.RightIfItFits | src/server/serv_thread_make.c:105-158 | with room between the names the reply is right if the addresses fit, and otherwise the loop leaves the buffer, for every cache |
| Replies.LongNamesAreRoomy | src/server/serv_thread_make.c:105-158 | names of three bytes or more leave room for every address, also for the last one |
| Replies.NamesJoin | src/server/serv_thread_make.c:105-158 | the names of a request body have no zero and, each with a zero behind it, make up the body |
| Replies.JoinedNames | src/client/dc_client.c:255-267 | any names without a zero are the names of the body they make up |
| InPlaceReplies.HarmlessIfRoom | src/server/udp_server.c:97-137 | an address leaves all unread names alone exactly if it ends before the next name starts |
| InPlaceReplies.ShortNamesSpoiled | src/server/serv_thread_make.c:141-153 | a request with two names of two bytes and a cache for which the reply is wrong |
| Replies.UdpMissesMarked | src/server/udp_server.c:98-130 | over UDP, where a cached miss mark counts as a miss, the reply has the miss mark exactly at the positions in the list of names to look up again |
| InPlaceReplies.UdpDoSearch | src/server/udp_server.c:76-141 | with room between the names the loop stays inside the buffer if and only if the addresses fit; then each name has its cached address in the reply, or 127.0.0.2 if it is missed, and is listed to be looked up if and only if it is missed or cached with that mark |
| Client.LowerMeans | src/client/dc_client.c:293-298 | the i-th letter of `ABC..Z` becomes the i-th letter of `abc..z` and every other byte stays as it is |
| Client.LowerIsLow | src/client/dc_client.c:293-298 | names in lower case have no capital and are not changed by lowering them again |
| Client.InSetIff | src/client/dc_client.c:278-304 | a character is accepted if and only if it is one of the 26 + 26 + 10 + 3 that are written out |
| Client.CleanIff | src/client/dc_client.c:255-267 | a request is clean if and only if every character of every name is one of those |
| Client.PreDo | src/client/dc_client.c:247-304 | succeeds if and only if every character is one of the written-out set; then each capital has become its small letter and nothing else has changed, and the position of each name and the total length are recorded |
| Client.LowerName | src/client/dc_client.c:258-264 | one name in lower case, or a refusal exactly if a character is not allowed |
| Client.CallAll | src/client/dc_client.c:101-111 | stepping over the names meets each of them, with its address |
| Client.MergeReplies | src/client/dc_client.c:100-142 | the calls made from a first reply without misses, or from the hits of the first and the pairs of the second |
| TcpSearch.OnceEachIff | src/client/dc_client.c:100-142 | each name is called for exactly once, with the cached or the resolved address, if and only if all names are cached or none is cached with the miss mark |
| TcpSearch.MarkSpoils | src/client/dc_client.c:113-122 | a name cached with the miss mark is not called for when another one is missed |
| TcpSearch.NamesStand | src/client/dc_client.c:253-267 | at the k-th recorded position the k-th name stands as a C string |
| TcpRequests.TcpDnsSearch | src/client/dc_client.c:49-149 | the same from the user's buffer through the server's search and any run of the lookup threads that sends the second reply; where it holds, there are as many calls as names, and for each name one at the place where it stands in the buffer with the cached address, or else exactly the resolver's, or 127.0.0.1 if the lookup failed |
| TcpRequests.SentIsExpected | src/server/dns_thread_make.c:78-116 | what a run of the lookup threads sends for the misses of a request is the pairs the client expects: for each miss in order its position and the resolver's address, or 127.0.0.1 |
| DnsThreads.JobRing.Put | src/server/serv_thread_make.c:211-228 | adds the job behind all others; a ring that becomes full stops the server |
| DnsThreads.JobRing.Take | src/server/dns_thread_make.c:39-60 | takes the oldest job |
| DnsRuns.RingStep | src/server/dns_thread_make.c:39-60 | a ring that holds the queue of the steps holds it after the step, for every step that puts or takes |
| DnsThreads.StepKeeps | src/server/dns_thread_make.c:37-128 | every step of every thread keeps: each job is in one place, the counter counts the lookups left, filled places hold their index and address, the error byte is set exactly by failures and marked threads |
| DnsRuns.NothingBlocks | src/server/dns_thread_make.c:37-128 | a waiting thread can take any job and a thread with a job can always go on |
| DnsRuns.ZeroIsSeen | src/server/dns_thread_make.c:94-116 | in every reachable state a request counted down to zero has its reply or a thread about to look |
| DnsRuns.RepliesAreSent | src/server/dns_thread_make.c:37-128 | when the queue is empty, all threads wait and all places of a request were put, its reply has been sent |
| DnsRuns.RepliesAreComplete | src/server/dns_thread_make.c:94-116 | in every run in which no thread came too late, a second reply has in every place its own index and exactly the address the resolver found, or 127.0.0.1, and is flagged if and only if a lookup failed or was done by a thread already marked |
| DnsRuns.MarkRecorded | src/server/dns_thread_make.c:94-95 | the mark of a place is the error mark of its thread when it took the job |
| DnsRuns.ZeroMeansDone | src/server/dns_thread_make.c:94-99 | when a thread sees the counter at zero in time, no thread is still working for the request and its buffer is complete |
| DnsRuns.LateIff | src/server/dns_thread_make.c:97-122 | after a reply is sent some thread can come too late for the request if and only if another thread is past its countdown at that moment |
| DnsExamples.LateLook | src/server/dns_thread_make.c:97-122 | a run of two threads in which one comes too late |
| DnsExamples.MarkSticks | src/server/dns_thread_make.c:32-96 | a run in which a request without a failed lookup is flagged as having one |
| TcpRequests.CompleteIsExpected | src/server/dns_thread_make.c:78-85 | the words of a complete second reply are the pairs the client expects, with the resolver's addresses |
| Kache.BucketIsSum | src/server/hash.c:3-14 | the bucket is the sum of the characters, each times 131 to the number of characters behind it, modulo 2^25 |
| Kache.PolynomialOfBoth | src/server/hash.c:8-11 | hashing a name with another one behind it |
| Kache.OneByteApart | src/server/hash.c:3-14 | two names of the same length that differ in one character never share a bucket |
| Kache.BkdrHash | src/server/hash.c:3-14 | despite the wrap at 32 bits, the polynomial in base 131 modulo 2^25 |
| Kache.Kache.constructor | src/server/dl_kache.c:27-55 | the trie, its records, and empty buckets |
| Kache.Kache.Retrieve | src/server/dl_kache.c:57-76 | for a name in the trie the record at its index; for any other the record of its bucket if the first four bytes, or all of a shorter name, are those of the tag, and else none |
| Kache.Kache.Store | src/server/dl_kache.c:79-100 | the name is found with the record, and so is every name in the same place of the array; a name in the same bucket is found with it if the new tag matches and not at all otherwise; names elsewhere are unaffected |
| Kache.SharedTagIff | src/server/dl_kache.c:69-99 | the names that match the tag are those that begin like the name, up to four bytes; behind a shorter name the earlier bytes count |
| Kache.Kache.Preloaded | src/server/dl_kache.c:27-55 | a cache without stores agrees with the preloaded records |
| Kache.Kache.EmptyNameIsFound | src/server/dl_kache.c:69-75 | the empty name is found whether it was stored or not |
| Kache.Kache.Run | src/server/dl_kache.c:57-100 | with distinct places and non-empty names, any sequence of stores and lookups is answered as a map from names to records answers it |

## Left out

- Tries.Trie.Store: keys must be over the alphabet, which has at most 254 characters and not 0: a key that is not shares its codes with other strings (`UniqueIffOverAlphabet`), and scans stop at label 255.  A key has at most 32767 characters, because suffixes are indexed by a short.  Keys to look up or delete may be any strings.
- Tries.Trie.StoreIfAbsent: the same two conditions on keys.
- Tries.Trie.StoreConditionally: the same two conditions on keys.
- TailPool.Tail.FreeBlock: that blocks on a dropped chain are lost is not excluded; only that a block in use is never handed out.
- Tries.Trie.BranchInTail: the source's test for a missing suffix; a leaf always has one.
- ChunkAllocator.Allocator.DcAlloc: sizes 2 to 2^30, since size 1 uses a lock that is never made; an allocator whose counters no longer agree with a list takes no further calls, `GoneIff` says what would happen; a call is one step, so the retry when another thread took the chunk between two locks is not modelled.
- ChunkAllocator.Allocator.DcFree: the lists are sequences here, changed by the functions that SList.dfy proves its list operations to compute; a chunk stands for its address and memory is not reused.
- DnsRuns.RepliesAreComplete: nothing is claimed about runs in which a thread came too late, since it frees memory that may be in use again; `LateIff` says when that is.
- DnsThreads.StepKeeps: that the lookup threads also put each answer into the cache is left out of their steps.
- DnsThreads.JobRing.Put: waiting on conditions and signals; the step model takes one job per step under the lock.  Its queue is a sequence, which `RingStep` shows the ring to hold.
- InPlaceReplies.DoSearch: a request is answered against one state of the cache and the clock, given as a function from names to answers.
- TrieFile.ReadDa: a file that announces no cells, for which the source writes outside its block, counts as one that cannot be read; so does a negative suffix length in a tail block.
- TrieFile.SaveAndLoad: numbers must fit the 32-bit fields in which the source keeps them.
- Kache.Kache.Run: names that share a bucket or a record are excluded; exactly what a store does to them is in the contract of `Store`.
- Integers near TRIE_INDEX_MAX are mathematical; the tests against it are those of the source.
- Allocation of memory never fails; errors of files and sockets, and the stepwise `TrieState` interface, are left out.
- `dc_realloc`, the statistics of the allocator, `lirs.c`, `dc_mm.c` (a wrapper around malloc), the tail pool of the trie builder and the command line programs.
- The client over UDP, which only passes the first reply on.
