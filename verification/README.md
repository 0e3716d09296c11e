# A verified model of the memory system, the store pass and the benchmarks

A Dafny model of the parts of this repository that compute something hard, with proofs of what
they promise. Code that works in place is modelled in place: classes with mutable fields, arrays,
linked nodes and loops, each method proved against a specification on values; the main results
are then proved of the specification for every input, run or reachable state.

| file | models |
|---|---|
| `Memory.dfy`, `Manager.dfy` | the page table and the heap allocator on top of it (`memory/Memory.cc`, `memory/Manager.cc`) |
| `SpecMem.dfy` | the copy-on-write overlay for speculative execution (`memory/SpecMem.cc`) |
| `Module.dfy` | in-flight accesses, coalescing and ports of a memory module (`memory/Module.cc`) |
| `Directory.dfy` | sharers, owners and entry locks of the coherence directory (`memory/Directory.cc`) |
| `LMRef.dfy` | the call graph and its first-fit colouring (`src/LMStoreLLVM.cpp`) |
| `Dijkstra.dfy` | shortest paths with a linked queue and stale entries (`benchmark/dijkstra_small.c`) |
| `Quicksort.dfy` | the non-recursive quicksort (`benchmark/qsort.c`) |
| `LuSolver.dfy` | LU factorisation in place and the two substitutions (`benchmark/ludcmp.c`) |
| `Des.dfy` | DES and Triple-DES with the permutations and the key schedule of the code (`benchmark/des.c`) |
| `DesStandard.dfy` | DES as FIPS PUB 46-2 defines it, and the proof that `benchmark/des.c` computes it |
| `Crc.dfy` | the 16-bit check, bitwise and by table (`benchmark/crc.c`) |

`dafny verify dfyconfig.toml` checks all of it. The files are independent but for `Manager.dfy` and
`SpecMem.dfy`, which use `Memory.dfy`, and `DesStandard.dfy`, which uses `Des.dfy`.

How the parts fit together:

- Invariants live in functions and predicates on values (`Consistent`, `Inv`, `Pending`, `Coherent`,
  `Fair`, `Progress`). A class mirrors its heap state in ghost fields, and a method's postcondition
  says which specification step its call was.
- What a specification step means is said again without its name: in literal clauses of the method's
  contract, or in a lemma beside it (`MasterForMeans`, `SameBlock`, `TouchedIff`, `EncryptIsStandard`).
- A run is a sequence of states, each the step function of the one before; `EveryState…`, `Run…` and
  `RunKeeps` lemmas hold in every state of every run.
- Machine arithmetic is written out where it matters: unsigned sizes in the allocator, the 32-bit
  tags of the page loops, wrap-around addresses, 32-bit sums in the path search, `int` stack entries
  in the sort, bit-vectors in DES and CRC. `double` and `float` are read as real numbers.

## Findings

Where the code does not keep what it promises, the model keeps the code and the condition is exact.

- **Alignment on a new page** (`memory/Manager.cc:99-106`). Allocate returns the address of the page,
  not the one it carved. `Manager.AllocateInNewPage`: a live block starts at the returned address if
  and only if the page is aligned. Nothing checks that the page can contain the aligned request, and
  the size of the back hole is a difference of unsigned numbers (`memory/Manager.cc:199`): the state
  stays consistent if and only if it can. `MisplacedBlock` and `OverflownPage` reach both failures
  from an empty manager; `SecondPageIsRight` shows that the alignment need not divide the page size
  for a call to be right.
- **Freeing a hole** (`memory/Manager.cc:244-249`). The error message speaks of pointers already
  freed, but an address where a hole starts is accepted and its hole listed twice. `Manager.Free`: the
  state stays consistent if and only if no hole starts there. `FreedHoleAgain` reaches such a state
  with one allocation, and `HoleBehind` shows how common such addresses are.
- **The last page** (`memory/Memory.cc:347-353`). `MapNeverEnds`: the loops of Map and Unmap go on for
  ever if and only if the range ends in the last page of the address space. Of a range that goes round
  there, nothing is mapped or unmapped but a page in which it both starts and ends (`Memory.Map`).
- **Late joins** (`memory/Module.cc:1119-1128`). The comment promises that a store joins only a write
  that has not started. The test is on the youngest access's own flag, not its master's:
  `JoinsStartedWrite` says exactly when a store joins a started write, `LateJoinHappens` gives a run.
- **The sentinel** (`benchmark/dijkstra_small.c:4`). The number 9999 that stands for "not reached" is
  also a possible distance. `RightExactlyWhenNoneFree`: the search reaches an empty queue with the
  right labels if and only if no node lies at distance exactly 9999; larger distances do no harm.
  `SearchNeverEnds`: on the graph with the edges 0-1 (5000), 1-2 (4999), 2-3 and 3-2 (0) the loop never
  ends, because nodes 2 and 3, at distance 9999, look unreached however often they are labelled.
- **Index 1 for the module** (`src/LMStoreLLVM.cpp:830-832`). The module's own node, set to 0, gets
  index 1 in the pass when no call names it: it has no neighbours then (`Pass.Run`, `IsolatedGetsOne`).
- **The edge count** (`src/LMStoreLLVM.cpp:790-793`) is not the number of neighbours: it counts twice
  each function that both calls and is called (`CountExceedsNeighbours`).
- **The last pivot** (`benchmark/ludcmp.c:116-140`) is not tested before it is divided by, and 0 is
  returned all the same. `LastPivotTells`: it is zero if and only if the original matrix is singular.
  `Ludcmp`: the result then solves the equations if and only if they are solvable. `UnsolvableInput`
  is a call that succeeds where nothing is a solution.

## Model

| member | source | states |
|---|---|---|
| ShortestPath.Search.Dijkstra | benchmark/dijkstra_small.c:98-143 | on every graph with non-negative costs on which no node lies at distance exactly 9999 and sums fit an int, the loop ends; every `iDist` is then the least cost of any walk, 9999 exactly at the nodes no walk reaches; the printed chain is a walk from `chStart` to `chEnd` with exactly that cost; no cycle of `iPrev` links is left |
| ShortestPath.FinalLabelsAreShortest | benchmark/dijkstra_small.c:120-136 | if no node lies at distance exactly 9999: whenever the queue has drained, each label is a shortest distance, or the sentinel exactly when the node is unreachable |
| ShortestPath.RightExactlyWhenNoneFree | benchmark/dijkstra_small.c:120-136 | on every graph with non-negative costs the search reaches an empty queue with right labels if and only if no node lies at distance exactly 9999 |
| ShortestPath.SearchNeverEnds | benchmark/dijkstra_small.c:120-136 | on a graph with four edges, two nodes at distance 9999 joined by edges of cost zero, no state of the run has an empty queue |
| ShortestPath.TurnKeepsRound | benchmark/dijkstra_small.c:120-136 | each turn keeps the invariant of the rounds and uses up an entry of its round: after round r every node with a shortest walk of at most r edges has its final label |
| ShortestPath.RunDrains | benchmark/dijkstra_small.c:120-136 | from every state of the run the queue empties, within as many rounds as there are nodes |
| ShortestPath.DrainedIsLinked | benchmark/dijkstra_small.c:127-133 | with the queue empty the links form no cycle and each node reached hangs by its link below another, at the cost of the edge at least |
| ShortestPath.AdmissibleIsNoneFree | benchmark/dijkstra_small.c:4-4 | no simple path of cost 9999 implies no node at that distance: the first condition is the stronger one |
| ShortestPath.EveryStateOfTheRun | benchmark/dijkstra_small.c:122-135 | when no simple path costs exactly 9999: before, between and after the relaxations of every turn of every run, the `iPrev` links form no cycle, zero-cost edges and stale entries included, and each link carries at least its edge |
| ShortestPath.RunKeeps | benchmark/dijkstra_small.c:120-136 | when no simple path costs exactly 9999: in every state of the run, reached through any number of stale entries, each queued distance is the cost of a simple path whose nodes all have labels no larger, each link carries at least its edge, and the links form no cycle |
| ShortestPath.RelaxClosesNoCycle | benchmark/dijkstra_small.c:127-133 | setting one link for a strictly better distance cannot close a cycle of links |
| ShortestPath.ChainDescends | benchmark/dijkstra_small.c:36-44 | along a chain of links distances fall by at least the edge costs |
| ShortestPath.EntryFits | benchmark/dijkstra_small.c:125-132 | the sums formed for any dequeued entry, stale or not, fit a 32-bit int, if the walks of at most 100 edges do or the simple paths with one edge more |
| ShortestPath.SmallCostsAreAdmissible | benchmark/dijkstra_small.c:3-4 | costs of at most 100, or 9999 for no edge, meet all preconditions: a test on single edges |
| ShortestPath.ModestCostsFit | benchmark/dijkstra_small.c:3-4 | costs of at most a hundredth of the largest int keep every sum of the search from overflowing |
| ShortestPath.PrintPath | benchmark/dijkstra_small.c:36-44 | from a reachable node the recursion ends and lists a walk from the start whose edge costs sum to that node's `iDist` |
| ShortestPath.Queue.Enqueue | benchmark/dijkstra_small.c:47-73 | the linked list gains one entry at its end, in order, and `g_qCount` stays its length |
| ShortestPath.Queue.Dequeue | benchmark/dijkstra_small.c:76-90 | the linked list loses its first entry, which is returned; an empty one changes nothing |
| ShortestPath.Search.Expand | benchmark/dijkstra_small.c:123-135 | the inner loop does to labels and queue what relaxing the hundred edges in turn does |
| ShortestPath.Search.Drain | benchmark/dijkstra_small.c:120-136 | the outer loop terminates with an empty queue in a state of the run |
| HeapManager.Manager.Allocate | memory/Manager.cc:64-107 | the address of the first hole, by size, that fits, rounded up; only if none fits a page is mapped, the first unmapped one from 0xb7fb0000 on; a request above a page gets the highest free pages that end by 0xb7fb1000, all mapped for reading, writing and executing, and fails exactly when there are none; the block is new, disjoint from every live block, and no other block or page is touched; in the new-page case a live block starts at the returned address if and only if the page is aligned, and the state stays consistent if and only if the page can contain the rounded-up request; both always hold for alignments that divide 4096 |
| HeapManager.Manager.AllocateInNewPage | memory/Manager.cc:99-106 | the two if-and-only-ifs of the new-page case for every alignment up to 4096; the page is the first unmapped one and may be read, written and executed |
| HeapManager.Manager.AllocateLarge | memory/Manager.cc:158-179 | a request above a page gets the highest free whole pages, of which none is page zero and the last ends by 0xb7fb1000, mapped for reading, writing and executing, disjoint from every live block; it fails exactly when no such pages are free; the other pages are as before and the state stays consistent |
| HeapManager.Manager.Free | memory/Manager.cc:237-270 | exactly the named block stops being live, and exactly the pages it gives back are unmapped; an address where no chunk starts changes nothing; the state stays consistent if and only if no hole starts at the address, and otherwise its hole is listed twice and no page changes |
| HeapManager.Manager.FreeLarge | memory/Manager.cc:273-288 | exactly the block's pages are unmapped and its chunk is gone |
| HeapManager.Manager.MergeHoles | memory/Manager.cc:291-337 | the hole absorbs its free neighbours of the same page, both indexes agree, and a page that became one hole is unmapped |
| HeapManager.Manager.Merge2Holes | memory/Manager.cc:340-358 | two touching holes become one; the size index agrees with the address map |
| HeapManager.Manager.AllocateIn | memory/Manager.cc:182-234 | when the request fits, the hole is tiled by an optional front hole, the block and an optional back hole; when it does not, the unsigned size of the back hole exceeds a page |
| HeapManager.Manager.CreateHole | memory/Manager.cc:395-421 | a free address puts the hole in both indexes, behind all holes that are no larger; a taken one leaves the address map alone but still lists the hole by size |
| HeapManager.Manager.RemoveHole | memory/Manager.cc:424-428 | the hole leaves both indexes, which agree afterwards if they did before |
| HeapManager.Manager.CreatePointer | memory/Manager.cc:431-443 | the block enters the address map and the holes index still lists exactly the free chunks |
| HeapManager.Manager.RequestOnePage | memory/Manager.cc:376-392 | the first unmapped page at or above the base is mapped and becomes one hole of a still tiled heap; failing that, no page is free |
| HeapManager.Manager.FindHole | memory/Manager.cc:74-97 | the first hole by size that can contain the aligned request, smaller ones never could |
| HeapManager.ContainsWhereAligned | memory/Manager.cc:130-149 | a hole can contain a request exactly when the request fits behind the least aligned address of the hole |
| HeapManager.InsertHolePlace | memory/Manager.cc:395-421 | a hole enters the size index behind the holes that are no larger and before the larger ones, and all others keep their order |
| HeapManager.EraseHolePlace | memory/Manager.cc:424-428 | the first entry of the hole leaves the size index and all others keep their order |
| HeapManager.ChunksDisjoint | memory/Manager.cc:395-443 | two different chunks of a tiled heap never overlap |
| HeapManager.OwnedPagesAreTiled | memory/Manager.cc:182-234 | every byte of a page the manager owns lies in some chunk: the chunks tile the pages without gaps |
| HeapManager.CarveConsistent | memory/Manager.cc:182-234 | carving keeps the tiling, the two indexes, the page ownership and the merged-holes rule, and adds one block disjoint from all live ones |
| HeapManager.CoalesceTiles | memory/Manager.cc:291-358 | after merging, no two neighbouring chunks of a page are both free and the same pages are owned |
| HeapManager.AfterFreeConsistent | memory/Manager.cc:237-337 | after a small block is freed the indexes, tiling and page table agree again and no hole is a whole page |
| HeapManager.NothingLiveNothingMapped | memory/Manager.cc:273-337 | in a consistent state with no live block there are no chunks at all and exactly the initial pages are mapped: freeing everything restores the page set |
| HeapManager.HoleBehind | memory/Manager.cc:237-248 | behind a small live block, in its page, a hole starts exactly when no live block does: such addresses are in reach of every caller of Free |
| HeapManager.FreedHoleAgain | memory/Manager.cc:237-270 | from an empty manager: after allocating 16 bytes, Free of the address 16 bytes on is accepted, lists its hole twice and leaves an inconsistent state |
| HeapManager.MisplacedBlock | memory/Manager.cc:99-106 | from an empty manager: one byte aligned to 3 is carved elsewhere than at the returned address, where no block is live |
| HeapManager.OverflownPage | memory/Manager.cc:196-205 | from an empty manager: 4096 bytes aligned to 3 leave a hole larger than a page, an inconsistent state |
| HeapManager.FirstPageMisplaces | memory/Manager.cc:99-106 | the first page is not aligned to 3, and one byte fits into it |
| HeapManager.FirstPageOverflows | memory/Manager.cc:196-205 | a page of bytes aligned to 3 does not fit into the first page |
| HeapManager.SecondPageIsRight | memory/Manager.cc:99-106 | 3 does not divide the page size and yet the next page is aligned to it: divisibility is not the condition |
| HeapManager.NextAlignedIsNext | memory/Manager.cc:151-155 | the rounded-up address is aligned and less than one alignment away |
| PagedMemory.Memory.Access | memory/Memory.cc:223-237 | an access of any range, wrapping around the address space, transfers exactly a prefix of it byte by byte, every byte of which the page table permits; it stops at the first byte whose page is missing, with a segmentation fault, or forbidden, with a permission error, and names that address; exactly the missing pages that unsafe writes reach are created, with all rights, exactly the pages that plain writes reach are marked modified, and no right is taken away |
| PagedMemory.Memory.AccessAtPageBoundary | memory/Memory.cc:162-220 | within one page: the error or the transfer, pages created only by unsafe writes, and the modified flag set before the permission test |
| PagedMemory.Memory.Map | memory/Memory.cc:340-354 | exactly the pages from the first to the last of the range, in 32-bit arithmetic, are mapped in addition, with the permissions added to those they had and their data kept; of a range that goes round at the end of the address space that is none, or the one in which it starts and ends |
| PagedMemory.Memory.Unmap | memory/Memory.cc:357-368 | exactly the pages from the first to the last of the range are removed, none of a range that goes round |
| PagedMemory.Memory.MapSpace | memory/Memory.cc:272-303 | the lowest free region at or above the address, or none exists up to the end of the address space; from address zero the search always fails |
| PagedMemory.Memory.MapSpaceDown | memory/Memory.cc:306-337 | the highest free region ending within the page of the address, never page zero, or none exists |
| PagedMemory.TagBounds | memory/Memory.cc:40-44 | the tag of an address is the start of the aligned run of 4096 bytes in which it lies |
| PagedMemory.MapNeverEnds | memory/Memory.cc:347-353 | the loop of Map, as 32-bit arithmetic has it, goes on for ever if and only if the last page of the range is the last page of the address space |
| PagedMemory.WriteChunk | memory/Memory.cc:162-220 | a write within a page changes exactly its bytes, and none when it is refused |
| PagedMemory.OverwritesOn | memory/Memory.cc:223-237 | two adjacent writes are one write of the concatenation, also across the end of the address space |
| Quicksort.Sort | benchmark/qsort.c:57-114 | for every n from 1 to 2^31 - 1 and every contents: positions 1 to n ascend and are a rearrangement of the input, nothing outside is touched, the loop terminates, and the stack never holds more than twice log2 n entries, so that 100 suffice |
| Quicksort.InsertionSort | benchmark/qsort.c:66-74 | a short segment is sorted in place and rearranged only within itself |
| Quicksort.MedianOfThree | benchmark/qsort.c:79-89 | first, middle and last are put in order, the median at l + 1, within a rearrangement of the segment |
| Quicksort.Scan | benchmark/qsort.c:90-98 | both scans stay inside the segment thanks to the sentinels; left of i nothing exceeds, right of j nothing is below the pivot |
| Quicksort.Partition | benchmark/qsort.c:79-100 | both parts are non-empty, and each element left of i is at most, each right of j at least the pivot |
| Quicksort.PushKeeps | benchmark/qsort.c:101-111 | partitioning and pushing keeps: every cut position is within a pending segment or already splits the array |
| Quicksort.PopKeeps | benchmark/qsort.c:75-77 | sorting the current segment and taking the next keeps the same |
| Quicksort.DepthFits | benchmark/qsort.c:101-111 | a pending stack of d segments below the current one needs 2^d elements; below 2^50 elements its entries fit the array of 100 |
| LuSolver.Ludcmp | benchmark/ludcmp.c:107-149 | 0: the factors left in place multiply back to the original matrix and `y` solves the lower system; the last pivot is zero if and only if the original matrix is singular; `x` satisfies all n + 1 original equations if and only if they have a solution at all, so always when the last pivot is non-zero; 1: some pivot among the first n is at most `eps`; 999 exactly for rejected parameters |
| LuSolver.Factorise | benchmark/ludcmp.c:116-132 | in place, over the reals: the two triangular factors multiply back to the original matrix, or a pivot is at most `eps` |
| LuSolver.FactorColumn | benchmark/ludcmp.c:119-125 | the loop turns a partly known factorisation into one with column i known |
| LuSolver.FactorRow | benchmark/ludcmp.c:126-131 | the loop adds row i + 1 |
| LuSolver.AllKnownFactors | benchmark/ludcmp.c:116-132 | when every entry is known the product of the factors is the original matrix |
| LuSolver.Forward | benchmark/ludcmp.c:133-139 | forward substitution solves the lower triangular system |
| LuSolver.Back | benchmark/ludcmp.c:140-146 | back substitution solves the upper triangular system when the last pivot is non-zero |
| LuSolver.SubstitutionSolves | benchmark/ludcmp.c:133-146 | solving the two triangular systems in turn solves the original equations, by exchanging the order of a double sum |
| LuSolver.SolutionIsUnique | benchmark/ludcmp.c:133-146 | with non-zero pivots any two solutions agree: the computed one is the solution |
| LuSolver.ZeroLastPivot | benchmark/ludcmp.c:140-140 | with a zero last pivot, which the code divides by, the equations are solvable if and only if the last entry of `y` is zero |
| LuSolver.LastPivotTells | benchmark/ludcmp.c:116-140 | the last pivot is zero if and only if the original matrix maps some non-zero vector to zero |
| LuSolver.AnyLastEntry | benchmark/ludcmp.c:140-146 | whatever number the division by a zero last pivot gives, the result solves the equations if and only if they are solvable |
| LuSolver.UnsolvableInput | benchmark/ludcmp.c:107-149 | on one equation 0 x = 1 the code returns 0, success, and no x is a solution |
| InFlight.EveryStateSound | memory/Module.cc:317-412 | in every state of every run of starts, coalescings, waits, port flags and completions: a coalesced access whose master is in flight has an older master on its block, of its type, without a master itself, with only that type listed between; and the counter equals the number of accesses marked coalesced |
| InFlight.FollowersAreWoken | memory/Module.cc:397-411 | an access that follows a master is among those woken when it completes, and then follows nobody |
| InFlight.JoinsStartedWrite | memory/Module.cc:1119-1128 | a store or non-coherent store joins a master that has already locked its port if and only if the youngest access is itself a follower of a started write |
| InFlight.LateJoinHappens | memory/Module.cc:1107-1129 | three stores to one block give such a run: the third joins the first after it has started |
| InFlight.JoinedIsYoungest | memory/Module.cc:1072-1163 | the access joined is the youngest that the rule for the type admits, or there is none |
| InFlight.MasterForMeans | memory/Module.cc:1044-1164 | the same of the specification: null exactly when no older access to the block is in flight or every candidate is ruled out, else the youngest candidate or its master |
| InFlight.BegunCoherent | memory/Module.cc:1167-1193 | starting and coalescing an access keeps the master relation |
| InFlight.EndedCoherent | memory/Module.cc:397-408 | completing any access, masters included, keeps it |
| InFlight.EveryPortStateFair | memory/Module.cc:1196-1278 | in every run of requests and returns: a port holds one frame and a frame one port, nobody waits twice or while holding, somebody waits only while all ports are taken, and the counter is the number of ports taken |
| InFlight.Module.StartAccess | memory/Module.cc:317-344 | the frame comes last in the list, enters the list of its type, the block table and the identifiers, and nothing else changes |
| InFlight.Module.FinishAccess | memory/Module.cc:347-412 | it leaves all of them, the others in their order, links to it are cleared, the counter stays exact, and exactly its waiters are woken |
| InFlight.Module.CanCoalesce | memory/Module.cc:1044-1164 | null exactly when no older access to the block is in flight or none may be joined; otherwise the youngest that may be joined, or the master of that |
| InFlight.Module.Coalesce | memory/Module.cc:1167-1193 | the frame is marked and linked to the master, which has none itself |
| InFlight.Module.Begin | memory/SystemEvents.cc:190-203 | starting an access and, if a master is found, following it and waiting for it keeps every list, table and counter of the module in agreement |
| InFlight.Module.GetInFlightAddress | memory/Module.cc:415-439 | some in-flight access to the block, older than the given one, if there is any |
| InFlight.Module.IsInFlightAddress | memory/Module.cc:496-502 | whether an access to the same block is in flight, that is, to the same aligned run of bytes (`SameBlock`) |
| InFlight.BlockBounds | memory/Module.cc:496-502 | the block number times 2 to the log of the block size is at most the address, and the address is less than that of the next block |
| InFlight.SameBlock | memory/Module.cc:496-502 | two addresses have the same block exactly when they lie in one aligned run of 2 to the log bytes |
| InFlight.SixBitBlocks | memory/Module.cc:496-502 | for 64-byte blocks: exactly when they lie in one aligned run of 64 bytes |
| InFlight.Module.IsInFlightAccess | memory/Module.cc:504-507 | whether an access with the identifier is in flight |
| InFlight.Module.GetInFlightWrite | memory/Module.cc:442-466 | the last store in the list before the given access, or of all, and null exactly when there is none |
| InFlight.Module.GetInFlightAlloc | memory/Module.cc:468-493 | the last allocation, reading or not, before the given access, or of all, and null exactly when there is none |
| InFlight.Module.LockPort | memory/Module.cc:1196-1238 | the first free port is taken and linked both ways, or, exactly when none is free, the frame waits, down-up requests before and others behind all who wait; fairness and the counter are kept |
| InFlight.Module.UnlockPort | memory/Module.cc:1241-1278 | the port passes to the first who waits, or is free when nobody does; the others wait on in order; fairness, links and the counter are kept |
| CacheDirectory.RunMeans | memory/Directory.cc:83-202 | after any sequence of updates over all sets, ways, sub-blocks and nodes, each entry's counter is the number of its bits and the flat bitmap holds for each place exactly the sharers its own updates left |
| CacheDirectory.RunOwners | memory/Directory.cc:56-80 | each place has the owner last set for it, whatever happened elsewhere |
| CacheDirectory.UpdateKeeps | memory/Directory.cc:83-202 | every update, with its early exits, keeps all counters exact |
| CacheDirectory.UpdateMeans | memory/Directory.cc:83-202 | an update adds or removes exactly its sharers in its entry and none in any other |
| CacheDirectory.EntryUnique | memory/Directory.cc:91-95 | different places have different entries in the row-major arrays |
| CacheDirectory.CounterBounds | memory/Directory.cc:104-110 | the counter is the number of sharers, at most the number of nodes, and less while some node is no sharer |
| CacheDirectory.EveryLockState | memory/Directory.cc:251-361 | in every run of requests and releases an access waits only while the entry is held, those refused are those woken since followed by those waiting, and each grant but the one in force was released |
| CacheDirectory.Directory.EntryHistory | memory/Directory.cc:251-361 | the same for the calls made on a directory object so far |
| CacheDirectory.Directory.SetOwner | memory/Directory.cc:56-80 | the abstract directory changes by that update and stays consistent |
| CacheDirectory.Directory.SetSharer | memory/Directory.cc:83-123 | the same; setting a set bit changes nothing |
| CacheDirectory.Directory.ClearSharer | memory/Directory.cc:126-167 | the same; clearing a clear bit changes nothing |
| CacheDirectory.Directory.ClearAllSharers | memory/Directory.cc:170-202 | the same; the early exit on a zero counter is exact |
| CacheDirectory.Directory.IsSharer | memory/Directory.cc:205-221 | whether the node is in the entry's set of sharers |
| CacheDirectory.Directory.IsBlockSharedOrOwned | memory/Directory.cc:224-236 | true if and only if some sub-block of the block has a sharer or an owner |
| CacheDirectory.Directory.LockEntry | memory/Directory.cc:251-298 | granted exactly when the entry is free; refused, the access waits last; the outcome is what the history records; locks and histories of all other blocks stay |
| CacheDirectory.Directory.UnlockEntry | memory/Directory.cc:301-361 | all who wait are woken, in order, and the entry is free; locks and histories of all other blocks stay |
| SpeculativeMemory.RunIsFlat | memory/SpecMem.cc:75-138 | while the writes of a run touch at most 100 different 16-byte pages, every byte seen is that of a flat private copy of the memory, and the pages present are exactly those touched |
| SpeculativeMemory.WriteAllView | memory/SpecMem.cc:125-138 | a write of any range, unaligned and wrapping around, is seen byte for byte, and everything else as before |
| SpeculativeMemory.AllKeptIff | memory/SpecMem.cc:95-103 | a write is dropped in part if and only if its pages with those present exceed 100 |
| SpeculativeMemory.TouchedIff | memory/SpecMem.cc:125-138 | the pages that count are exactly the aligned runs of 16 bytes that hold a byte of the range, around the end of the address space as well |
| SpeculativeMemory.WriteAllEither | memory/SpecMem.cc:95-103 | beyond the limit each byte written is either seen or dropped and no other byte changes |
| SpeculativeMemory.WriteAllKeys | memory/SpecMem.cc:48-72 | a write never removes a page, and adds all its pages when there is room |
| SpeculativeMemory.SpecMem.GetPage | memory/SpecMem.cc:32-45 | the chain walk finds the one page recorded for the address, or there is none |
| SpeculativeMemory.SpecMem.NewPage | memory/SpecMem.cc:48-72 | a new page with a copy of the memory enters the right chain; the memory's pages and safe flag are as before |
| SpeculativeMemory.SpecMem.AccessAligned | memory/SpecMem.cc:75-122 | within a page a read shows what speculative execution sees and a write goes to the overlay or is dropped; chains stay distinct and correctly hashed, the counter exact |
| SpeculativeMemory.SpecMem.Access | memory/SpecMem.cc:125-138 | the loop over pages has the outcome of the whole range; the real memory's pages, bytes and safe flag never change |
| SpeculativeMemory.SpecMem.Read | memory/SpecMem.cc:125-138 | the buffer receives the overlay's bytes over the memory's, and the rest of it is untouched |
| SpeculativeMemory.SpecMem.Write | memory/SpecMem.cc:125-138 | the overlay becomes the specified one, to which the view results apply |
| SpeculativeMemory.SpecMem.Clear | memory/SpecMem.cc:155-169 | all chains are empty and the memory is seen as it is |
| Crc.Icrc1 | benchmark/crc.c:57-69 | the bitwise loop multiplies by x^8 modulo the polynomial |
| Crc.TableStep | benchmark/crc.c:84-100 | one table step equals eight bitwise steps, for every register and byte |
| Crc.Checker.Icrc | benchmark/crc.c:71-109 | for every length the 8-bit-sized line holds, every start value and both bit orders, the table-driven check equals the byte-by-byte bitwise fold, reflected when asked to |
| Crc.ReverseFold | benchmark/crc.c:88-107 | the reversed-byte mode computes the reflected check |
| Crc.ReflectedStart | benchmark/crc.c:87-89 | without a start byte the reflected check starts from the given value itself |
| Crc.CheckModes | benchmark/crc.c:87-108 | the four modes: the register starts from the given value or from the low byte of the start value written twice, and the message is folded plainly or reflected |
| Crc.MessageBytes | benchmark/crc.c:93-101 | the check covers the given number of bytes from the second on, and no others |
| Crc.GeneratorRemainder | benchmark/crc.c:57-69 | the table entry of byte 1 is 0x1021, the generator without its highest term |
| Crc.ReversedBits | benchmark/crc.c:84-84 | the reversed byte has the same bits in opposite order |
| Crc.ResidueZero | benchmark/crc.c:115-123 | two bytes behind a message give residue 0 if and only if they are its check, high byte first |
| Crc.CheckResidueZero | benchmark/crc.c:71-109 | the same for every mode, low byte first in reversed mode |
| Crc.ByteDetected | benchmark/crc.c:93-101 | two messages that differ in exactly one byte never have the same fold |
| Crc.BurstDetected | benchmark/crc.c:93-101 | nor do two that differ within two adjacent bytes |
| Crc.BitBurstDetected | benchmark/crc.c:93-101 | nor do two different messages of one length whose bits agree outside sixteen bits in a row, wherever these start in the bytes |
| Crc.FoldIsBitFold | benchmark/crc.c:57-69 | the check of a message is that of its bits, divided one at a time, highest of each byte first |
| Crc.FewBitsInjective | benchmark/crc.c:93-101 | over up to sixteen bits in a row, from any register, different bits give different registers |
| Crc.CheckDetectsByte | benchmark/crc.c:71-109 | a changed byte changes the check in every mode |
| Crc.CheckDetectsBurst | benchmark/crc.c:71-109 | a burst within two adjacent bytes changes the check in every mode |
| Crc.CheckDetectsBits | benchmark/crc.c:71-109 | a burst of up to sixteen bits, at any bit offset, changes the check in every mode; in reversed mode bits count lowest of each byte first |
| Crc.FoldInjective | benchmark/crc.c:93-101 | different registers stay different over the same bytes |
| Crc.Checker.FillTables | benchmark/crc.c:80-86 | the tables hold the eight-step values and the reversed bytes |
| Crc.Checker.AppendAndCheck | benchmark/crc.c:112-125 | the check put behind the line makes the second check zero |
| Des.Complementation | benchmark/des.c:375-601 | complementing key and plaintext complements the ciphertext, for all keys, blocks and S-box contents, through the real key schedule, permutations and sixteen rounds |
| Des.TripleComplementation | benchmark/des.c:645-720 | the same for Triple-DES and its three keys |
| Des.ScheduleNot | benchmark/des.c:467-543 | complementing the key flips the same 24 bits of every subkey |
| Des.ParityIgnored | benchmark/des.c:546-550 | the subkeys of a key do not depend on the parity bits, the lowest of each byte, for all keys |
| Des.DecryptInverts | benchmark/des.c:552-601 | decryption inverts encryption and encryption decryption, for every key and block |
| Des.TripleIsEDE | benchmark/des.c:645-720 | the 48 fused rounds are encryption with key 3 after decryption with key 2 after encryption with key 1; with the decryption keys, the inverse order |
| Des.TripleDecryptInverts | benchmark/des.c:610-720 | Triple-DES decryption and encryption invert each other |
| Des.EqualKeysAreSingle | benchmark/des.c:645-720 | with three equal keys Triple-DES is single DES |
| Des.TripleIsThree | benchmark/des.c:678-720 | the fused rounds equal three single encryptions, the inner permutations cancelling |
| Des.PermutationsInvert | benchmark/des.c:386-409 | the final and the initial permutation undo each other, both ways |
| Des.ExchangeTwice | benchmark/des.c:375-378 | exchanging the masked bits of two words twice restores both |
| Des.WordsBack | benchmark/des.c:418-428 | with the subkey pairs reversed the rounds go back through the same words |
| Des.ReadWrite | benchmark/des.c:433-441 | blocks and their eight bytes determine each other |
| Des.KeySchedule | benchmark/des.c:467-543 | the loop stores the 32 subkeys of the specification, which are the round keys of the standard (`DesStandard.ScheduleIsStandard`), from the given position on and nothing else |
| Des.DesRound | benchmark/des.c:418-428 | adding the eight table entries one after the other adds the round function of the other word |
| Des.SixteenRounds | benchmark/des.c:577-601 | the rounds in pairs, on the array of subkeys, give the last two words of the run, exchanged |
| Des.FortyEightRounds | benchmark/des.c:678-720 | three such runs over the three parts of the 96 subkeys |
| Des.FillTwo | benchmark/des.c:610-637 | the in-place copying leaves k1, reversed k2, k1 for encryption and reversed k1, k2, reversed k1 for decryption |
| Des.FillThree | benchmark/des.c:645-670 | the same for three keys |
| Des.DesContext.SetKey | benchmark/des.c:552-569 | the context holds the key's subkeys and their reversal, or nothing changes after a failed self test |
| Des.DesContext.EcbCrypt | benchmark/des.c:577-601 | the block is encrypted or decrypted, also in place |
| Des.TripleContext.Set2Keys | benchmark/des.c:610-637 | the context holds the subkeys of the keys k1, k2, k1 |
| Des.TripleContext.Set3Keys | benchmark/des.c:645-670 | the context holds the subkeys of the three keys |
| Des.TripleContext.EcbCrypt | benchmark/des.c:678-720 | the block is what the fused rounds make of it, to which the results above apply |
| DesStandard.ScheduleIsStandard | benchmark/des.c:467-543 | for every key: in each round the eight groups of six bits in the two subkeys are the key bits that permuted choice 1, the left shifts, 1, 2, 4, 6, 8, 10, 12, 14, 15, 17, 19, 21, 23, 25, 27 and 28 places up to each round, and permuted choice 2 of FIPS PUB 46-2 select, and no other bit of the subkeys is set |
| DesStandard.EncryptIsStandard | benchmark/des.c:577-601 | for every key, block and content of the S-boxes, encryption is the cipher that FIPS PUB 46-2 defines on numbered bits with its tables IP, E, PC-1 and PC-2 |
| DesStandard.DecryptIsStandard | benchmark/des.c:577-601 | decryption is that cipher with the round keys in reverse order |
| DesStandard.TripleIsStandard | benchmark/des.c:645-720 | Triple-DES is that cipher three times, the second time with the round keys in reverse order; the other direction has the keys in reverse order |
| DesStandard.IPBits | benchmark/des.c:386-395 | the four exchanges and the rotation are the initial permutation of the standard, bit by bit, each word rotated by one place |
| DesStandard.FPBack | benchmark/des.c:397-409 | the table of the final permutation undoes that of the initial one |
| DesStandard.PC1Bits | benchmark/des.c:473-487 | the two exchanges and the table of nibbles select the 56 key bits of permuted choice 1, in its order |
| DesStandard.HalvesShift | benchmark/des.c:489-495 | after every round both half keys are shifted cyclically by the places of the standard |
| DesStandard.PC2Wires | benchmark/des.c:497-540 | the masks and shifts select the 48 bits of permuted choice 2, in its order, six for each S-box |
| DesStandard.ExpansionBits | benchmark/des.c:418-428 | the eight table indices of a round are the lines of the expansion E, before the key is added |
| DesStandard.RoundIsStandard | benchmark/des.c:418-428 | what a round adds is the cipher function f of the other half block and the round key, rotated by one place |
| DesStandard.BitsDetermineBytes | benchmark/des.c:433-441 | blocks with the same 64 bits are the same eight bytes |
| LMRef.Pass.Run | src/LMStoreLLVM.cpp:909-916 | after the pass two functions are neighbours exactly when one calls the other, every node has the least index that no neighbour visited before uses, each node's edge count is its number of callees plus its number of callers, and the module's own node has index 1 when no call names it |
| LMRef.Pass.LMRefMappingEntry | src/LMStoreLLVM.cpp:802-817 | whatever the order of the nodes, the finished graph is coloured by first fit and its edges are unchanged |
| LMRef.Pass.IsSafe | src/LMStoreLLVM.cpp:793-800 | true if and only if no neighbour has the index |
| LMRef.Pass.LeastSafe | src/LMStoreLLVM.cpp:806-813 | the least index from 1 to 63 that no other neighbour uses, or none is left |
| LMRef.Pass.AddCalls | src/LMStoreLLVM.cpp:909-915 | the edges of one function's calls are added in both directions |
| LMRef.AllDiffer | src/LMStoreLLVM.cpp:802-817 | a function with at most 62 distinct neighbours differs in index from every adjacent function |
| LMRef.AdjacentDiffer | src/LMStoreLLVM.cpp:802-817 | a function with an index never shares it with an adjacent one |
| LMRef.FewNeighbours | src/LMStoreLLVM.cpp:802-817 | at most 62 distinct neighbours give an index from 1 to 63 |
| LMRef.IndexBound | src/LMStoreLLVM.cpp:802-817 | an index is at most one more than the number of neighbours |
| LMRef.NoIndexIff | src/LMStoreLLVM.cpp:806-813 | a function is left without an index if and only if its neighbours use all of 1 to 63 |
| LMRef.IsolatedGetsOne | src/LMStoreLLVM.cpp:830-832 | a node without neighbours, such as the module's own, gets index 1 although it was set to 0 |
| LMRef.CountExceedsNeighbours | src/LMStoreLLVM.cpp:790-793 | the edge count is the number of neighbours plus one for each function that both calls and is called |
| LMRef.AssignProgress | src/LMStoreLLVM.cpp:802-817 | giving a node its least safe index keeps every node visited before fitting |

## Left out

Preconditions and contracts that say less than the code does:

- ShortestPath.Search.Dijkstra: negative costs, nodes at distance exactly 9999, where the labels could not be right, and sums beyond an int; printing, reading the file and failure of `malloc` are left out.
- HeapManager.Manager.Allocate: requests of size 0, alignment 0 (a division by zero) and sizes above 0xfffff000, whose rounding to pages wraps around; alignments above 4096 are asserted away. A new page that could only be the last of the address space is excluded, because Map would not end (`MapNeverEnds`).
- HeapManager.NextAlignedIsNext: the ceiling of a quotient of doubles is the integer ceiling, which is exact for 32-bit addresses.
- HeapManager.Manager.CreateHole: chunks are values in sequences ordered by address and by size; iterators stored in the chunk objects, and the destroyed object that a refused insertion leaves in the size index, are not modelled.
- PagedMemory.Memory.Map: ranges that end in the last page of the address space, on which the loop does not end.
- PagedMemory.Memory.Unmap: the same.
- PagedMemory.Memory.Access: pages are values put back into the table; copying, cloning, string access, `getBuffer`, `Protect`, loading and saving are left out.
- Quicksort.Sort: n = 0, where the unsigned difference wraps around, and n from 2^31, whose bounds do not fit an `int` stack entry; NaN, for which there is no total order.
- LuSolver.Ludcmp: 50 <= n <= 99, which the guard at `benchmark/ludcmp.c:113-114` lets through to arrays of 50 by 50, and negative n with a positive `eps`, which indexes before the arrays; with a zero last pivot `x[n]` is any number; rounding.
- InFlight.Module.CanCoalesce: a null frame, which the code dereferences at line 1060; coalescing is tried right after the access starts, as the handlers do.
- InFlight.Module.Begin: the part of the load and store handlers that starts and coalesces an access; a frame is in flight at most once, with an identifier of its own.
- InFlight.Module.GetInFlightAddress: the hash multimap is a set of pairs in no particular order, so which older access is returned is open, as in the code.
- InFlight.Module.LockPort: events and the queue object are a sequence of frames; a frame that waits or holds a port does not ask again, as the code asserts.
- CacheDirectory.Directory.LockEntry: the waiting events are identifiers of their accesses.
- SpeculativeMemory.SpecMem.Access: the memory below is unchanged between calls, sizes are not negative, access types other than read and write (a panic in the code) are left out, and a pointer into the middle of the buffer is a temporary copy.
- Crc.Checker.Icrc: lengths above 255, which run past the line; the start byte is a mathematical integer of which the low byte counts.
- DesStandard.EncryptIsStandard: the contents of the eight S-boxes, with the permutation P and the rotation that the code's tables include, are arbitrary; their equality with the tables of FIPS PUB 46-2 is not stated.
- Des.DesContext.SetKey: the self test is a flag, the error code a Boolean; `errors.h` is not part of this model.
- Des.SixteenRounds: the rounds that the code writes out are a loop over pairs of rounds.
- LMRef.Pass.Run: the caller gives the called functions of each function; building them from LLVM values is left out, and the nodes are taken in any order.

Not modelled:

- The coherence protocol: the event handlers of `memory/SystemEvents.cc` beyond starting and coalescing an access.
- Configuration, networks, tracing, statistics, reports and dumps of the memory system.
- `memory/LMStore.cc`, `memory/Mmu.cc` and `memory/Cache.cc`.
- `Manager::isValidAddress`, which does not recognise interior addresses of a block.
- The rewriting of LLVM code, the linker script and the name maps of the store pass.
- The weak-key table, the self test and the cipher interface of `benchmark/des.c`.
- The other benchmarks: easy, repetitive, floating-point, or without a promise to state.
