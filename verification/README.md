# ufp: a verified model of the forwarding plane

ufp forwards IP packets in user space. This project models the parts of it that hold state
over a whole run, and proves what they promise for every input and every run.

* **Routing.** `Addresses`, `Routes`, `LpmTrie`, `Refcounts`, `Fib`, `FibRuns`: the 16-8-8-...
  multibit trie with prefix expansion, lazily created and pruned tables and reference counted
  route objects. The reference is a plain list of routes in order of descending length, newest
  first; the predicate `Rep` says which node has to stand at which path for a given list, and it
  determines the trie completely. `Hlist`, `RouteChain` and `TrieCells` are the linked lists, the
  chains and the tables of cells on the heap, changed in place; `Fib` works on them and keeps the
  trie value they spell.
* **Memory.** `BuddyTree`, `BuddyBlocks`, `BuddyEdit`: the buddy tree as a value and its laws.
  `MemPool`: the tree of node objects changed in place, proved to do what the value functions
  say. `MemArena`: headers, alignment, and the memory the headers live in.
* **Packet rings.** `DescRing`: sixteen-bit ring indices that stand for an unbounded queue.
  `SlotMachine`: who holds a packet slot, as a step machine over any number of rings sharing one
  slot array. `SlotSearch`: the search for a free slot and its fairness. `Outcomes`, `Plane`: the
  packet interface, every operation a run of that machine with the device at work before each turn
  of its loop. `PlaneRuns`: whole runs of operations. `ForwardLoop`: the packet loop of the
  forwarder.
* **Hardware contexts.** `HmcBits`, `HmcRead`, `HmcContext`: packing of unaligned bit fields, with
  the masks that wrap around. `HmcLayout`, `HmcProgram`: where contexts lie and what programming
  one does to the others. `HostStruct`, `HmcMembers`: the structures of the driver as C lays them
  out, and the members by name in the contexts. `HmcReadBack`: which fields of a context read back,
  and the values of the driver.
* **Supporting parts.** `Checksum`: the IPv4 header checksum across the TTL decrement.
  `NeighTable`: the neighbour hash table, an array of linked lists. `Arith`, `Options`, `Sequences`: shared
  definitions.

The main theorems are:

1. After every run of updates and withdrawals the trie lookup gives the live covering route of
   greatest length, the most recently installed one among equals, and nothing exactly when no
   live route covers the destination (`FibRuns.RunThenLookup`).
2. Each route object is counted once for each of the 2^(level boundary - length) cells that hold
   it, and is freed with its last cell (`Refcounts.RouteCellCount`, `Fib.ForwardingTable.Valid`).
   Adding a route and deleting it restores the trie exactly (`FibRuns.AddThenDelete`).
3. In every run of allocations, aligned allocations, client writes and releases, areas lie in
   their own blocks, never overlap, and their headers lead back to their nodes; allocation takes the
   lowest free block that is large enough and fails only when there is none; releasing everything in any order gives back one free
   block (`MemArena`).
4. In every run over any number of ports, each packet slot is in exactly one of: free, one ring,
   the client's hands (`SlotMachine.SlotsConserved`). Any sequence of operations on a new packet
   interface, whatever the device completes between and during them, is such a run, does what each
   operation is for, leaves the DMA address of its slot in each descriptor in use, and lets the
   client know which slots it holds (`PlaneRuns.RunAll`).
5. The packet loop of the forwarder keeps that property if and only if none of its packets gets
   into a transmit ring (`ForwardLoop.ForwardConservesIff`).
6. Programming a queue context leaves every member of the driver's structure, on hosts of either
   byte order, at the bits that the device has for it and every other bit zero, in spite of masks
   that reach past a field, and leaves the contexts of all other queues alone
   (`HmcMembers.SetRxContext`, `HmcMembers.SetTxContext`).
7. For every TTL but zero the incremental checksum is right after the TTL decrement exactly when it
   was right before, or was the other encoding of zero (`Checksum.ForwardedChecksum`); nothing but
   the TTL and the checksum changes (`Checksum.DecrementTtl`).

Four properties that one might expect of the code are false. Each has an input on which it fails
and its exact condition here:

* Slot conservation in the packet loop: `ForwardLoop.ForwardLeaksExample`, and
  `ForwardLoop.ForwardConservesIff`.
* The survival of bits outside a written field: `HmcReadBack.RxmaxClears` for the receive field
  rxmax, and `HmcRead.OtherBitsKeptIff`.
* The read-back of a field from a whole context: `HmcReadBack.DriverReadBack` shows that with the
  values the driver programs exactly hbuff and rxmax do not read back;
  `HmcContext.ContextReadsBackIff`, and `HmcReadBack.RxmaxReadsBackIff` for rxmax, give the condition.
* The resolution of every queue below the queue limit: `HmcLayout.UnresolvedExamples`, and
  `HmcLayout.AllResolveIff`. With objects of at most 512 bytes and a limit of at most 2048 every
  queue does resolve (`HmcLayout.SmallAllResolve`). The limit register is an eleven-bit field
  (dev/i40e/i40e_regs.h:594-597), so within the documented fields a failure needs larger objects,
  which the four-bit size fields can express; otherwise it needs a limit outside its field, which
  the code does not mask (dev/i40e/i40e_hmc.c:41).

Memory allocation of route objects, trie tables, entries and tree nodes is taken to succeed.
The address that the allocator hands out for a route object is a parameter.

Nothing here was executed; all statements are proved by the Dafny verifier.

## Model

| member | source | states |
|---|---|---|
| `Addresses.IndexIsBytes` | src/lpm.c:55-65 | the shift-and-mask index of eight bits at a byte offset is that byte of the address, in any 32-bit word |
| `Addresses.RootIndexIsBytes` | src/lpm.c:55-65 | the index of the first sixteen bits is the first two bytes of the address |
| `Addresses.SameBytesAndBits` | src/lpm.c:55-65 | agreement on a prefix is agreement on its whole bytes and on the leading bits of the next byte |
| `Addresses.SamePrefixIff` | src/lpm.c:55-65 | two addresses of one family agree on a prefix exactly when they are the same number once the bits behind it are shifted out |
| `Addresses.AlignedBlock` | src/lpm.c:135-140 | two indices lie in the same aligned block exactly when they agree after division by the block size |
| `LpmTrie.BlockInTable` | src/lpm.c:204-209 | the cells of a 256-cell table under a prefix are exactly one aligned block of 2^(boundary - length) cells, inside the table |
| `LpmTrie.BlockInRoot` | src/lpm.c:135-140 | the cells of the root table under a prefix of at most 16 bits are exactly one aligned block of 2^(16 - length) cells |
| `LpmTrie.CellIdentifies` | src/fib.c:221-234 | in a cell of a prefix's range, id and length alone identify the route with that masked prefix: it is in every cell of its range or in none |
| `LpmTrie.CellAccepts` | src/lpm.c:445-453 | a cell of a route's range refuses it exactly when its key is present anywhere in the routing table |
| `LpmTrie.CellHolds` | src/lpm.c:471-479 | in a cell of a key's range, id and length find the one holder of the key, or nothing when the key is absent |
| `LpmTrie.RepUnique` | src/lpm.c:172-248 | the routing table determines the node at every path: chains, their order, and which tables exist |
| `LpmTrie.FrameInsert` | src/lpm.c:195-209 | a node that a new route does not reach is already right for the longer routing table |
| `LpmTrie.FrameRemove` | src/lpm.c:296-313 | a node that a deleted route did not reach is already right for the shorter routing table |
| `LpmTrie.FreshTable` | src/lpm.c:183-193 | a newly created table of empty cells is right when no route is stored below its cell |
| `LpmTrie.PruneIsExact` | src/lpm.c:316-324 | all 256 cells of a table are empty exactly when no route is stored below it, so pruning frees a table just when it is unused |
| `LpmTrie.AddedBelow` | src/lpm.c:172-230 | a table whose reached cells are right for the new list, and whose other cells are untouched, makes its cell right |
| `LpmTrie.DeletedBelow` | src/lpm.c:284-330 | a table without the route, pruned if that leaves it empty, makes its cell right for the shorter list |
| `LpmTrie.TableInUse` | src/lpm.c:237-245 | when an add is refused, the table on its way existed before and is not empty, so the clean-up frees nothing |
| `LpmTrie.DeeperFirst` | src/lpm.c:101-111 | the first match at a level or deeper is the first match deeper, if any, else the head of the cell's chain |
| `LpmTrie.LookupBelowCorrect` | src/lpm.c:91-114 | the recursive walk finds the chain whose head is the longest match among the deeper routes, or nothing |
| `LpmTrie.LookupCorrect` | src/lpm.c:67-114 | the walk from the root cell answers as a scan of the whole routing table would |
| `LpmTrie.LookupFromRoot` | src/lpm.c:67-89 | that answer is the longest match, stated without the order of the list |
| `Routes.FirstMatchIsLongest` | src/lpm.c:437-464 | in a list sorted by descending length the first covering route is of greatest length, and none means none covers |
| `Routes.CoversIff` | src/lpm.c:67-114 | a route covers a destination exactly when both are the same number without the bits behind the prefix |
| `Routes.HasKeyIff` | src/fib.c:221-234 | a route has a key exactly when id and length are equal and the prefixes are the same number without the bits behind them |
| `Routes.NewestWins` | src/lpm.c:450-458 | a route just added is the answer for every destination it covers that no longer route covers |
| `Routes.InsertKeepsTable` | src/lpm.c:437-464 | inserting a route with an absent key keeps the list sorted with unique keys |
| `Routes.RemoveKeepsTable` | src/lpm.c:466-482 | deleting a route keeps the list sorted with unique keys, and its key is then absent |
| `Routes.RemoveInsert` | src/lpm.c:437-482 | deleting what was just added gives back the same list, order included |
| `Refcounts.CountNode` | src/lpm.c:139-158 | the number of entries for a route in a subtree is the part of its expansion that falls there |
| `Refcounts.RouteCellCount` | src/lpm.c:139-158 | a live route is held by exactly 2^(level boundary - length) cells of the trie, any other route by none |
| `Fib.ForwardingTable.constructor` | src/fib.c:109-128 | a new table of cells is new memory that spells a trie for the empty routing table |
| `Fib.ForwardingTable.Lookup` | src/lpm.c:67-89 | the lookup answers with the longest match of the routing table that the trie stands for |
| `Fib.ForwardingTable.Pull` | src/fib.c:246-254 | one object gains one reference |
| `Fib.ForwardingTable.Put` | src/fib.c:256-266 | one object loses one reference and is freed exactly when that was its last |
| `Fib.ForwardingTable.EntryInsert` | src/lpm.c:437-464 | the linked list of a cell refuses an entry with the same id and length and is then unchanged, else gains it behind the longer ones; the object gains a reference only in that case |
| `Fib.ForwardingTable.EntryDelete` | src/lpm.c:466-482 | deletion from the linked list of a cell fails exactly when no entry has the id and length, else removes one such entry and drops one reference of its object |
| `Fib.ForwardingTable.AddToCell` | src/lpm.c:208-222 | one cell of the range accepts the route exactly when its key is absent from the routing table; no other cell of its table is touched |
| `Fib.ForwardingTable.FillCells` | src/lpm.c:208-236 | either all cells of the block take the route, or the first refuses and there is nothing to roll back |
| `Fib.ForwardingTable.AddInTable` | src/lpm.c:195-228 | within one table the reached cells become right for the new list and the others keep their contents; memory is taken in only when it is new |
| `Fib.ForwardingTable.AddBelow` | src/lpm.c:172-248 | the cells under a cell, a table made for them included, become those of the new routing table and the object gains its full expansion of references, or the cell spells what it did before |
| `Fib.ForwardingTable.FillRoot` | src/lpm.c:135-167 | the same for the block of root cells of a route of at most 16 bits |
| `Fib.ForwardingTable.LpmAdd` | src/lpm.c:116-170 | an add fails exactly when the key is present, and then changes neither trie nor counts; else the trie is the one for the list with the route inserted |
| `Fib.ForwardingTable.DeleteFromCell` | src/lpm.c:270-275 | one cell of the range loses the holder of the key, exactly when the key is present; no other cell of its table is touched |
| `Fib.ForwardingTable.ClearCells` | src/lpm.c:304-313 | either all cells of the block lose the route and its object is freed with the last, or none holds it |
| `Fib.ForwardingTable.DeleteInTable` | src/lpm.c:296-314 | within one table the reached cells become right for the shorter list and the others keep their contents |
| `Fib.ForwardingTable.DeleteBelow` | src/lpm.c:284-330 | the cells under a cell become those of the shorter routing table, the table taken away when that leaves it empty, or the cell spells what it did before |
| `Fib.ForwardingTable.ClearRoot` | src/lpm.c:265-276 | the same for the block of root cells of a prefix of at most 16 bits |
| `Fib.ForwardingTable.DeleteInRoot` | src/lpm.c:258-276 | every root cell becomes right for the shorter list, or nothing changes |
| `Fib.ForwardingTable.LpmDelete` | src/lpm.c:250-282 | a delete fails exactly when the key is absent, and then changes nothing; else the trie is the one for the list without the route, and its object is freed |
| `Fib.ForwardingTable.RouteUpdate` | src/fib.c:137-185 | keeps the trie, the routing table and the reference counts in step; fails for an unknown family or a present key and then changes nothing |
| `Fib.ForwardingTable.RouteDelete` | src/fib.c:187-205 | keeps them in step; frees the one route with the key, or fails and changes nothing |
| `Fib.ForwardingTable.EntryDeleteAll` | src/lpm.c:484-495 | the linked list of a cell ends up empty, and every object loses exactly as many references as it has entries in the chain |
| `Fib.ForwardingTable.DeleteAllBelow` | src/lpm.c:348-370 | the tables under a cell are freed, and every object loses as many references as it has entries in them |
| `Fib.ForwardingTable.DeleteCells` | src/lpm.c:357-364 | every cell of a table ends up empty, and every object loses as many references as it had entries in or below them |
| `Fib.ForwardingTable.DeleteCell` | src/lpm.c:357-363 | a cell ends up empty, and every object loses as many references as it had entries at or below it |
| `Fib.ForwardingTable.LpmDeleteAll` | src/lpm.c:332-346 | every cell ends up empty, every table is freed and every route object is freed |
| `FibRuns.PlayIsLive` | src/fib.c:137-205 | after a run the routing table holds exactly the live routes: installed when no live route had their key, and not withdrawn since |
| `FibRuns.PlayNewestFirst` | src/lpm.c:450-458 | after a run, routes of equal length stand in the order of installation, latest first |
| `FibRuns.FirstMatchIsAnswer` | src/lpm.c:67-114 | the scan of the routing table after a run gives the answer owed: greatest length, then latest installation, none exactly when none covers |
| `FibRuns.RunAll` | src/fib.c:137-205 | every run of updates and withdrawals keeps the heap trie in step with the routing table, for both address families and all lengths |
| `FibRuns.RunThenLookup` | src/fib.c:207-219 | after every run the lookup gives the answer owed |
| `FibRuns.SameRoutesSameTrie` | src/lpm.c:116-330 | two tries for the same routing table are equal cell by cell |
| `FibRuns.AddThenDelete` | src/lpm.c:116-330 | adding a route with an absent key and deleting it restores chains, order, tables and reference counts |
| `FibRuns.TablesInUse` | src/lpm.c:316-324 | no reachable trie contains a table of empty cells |
| `Hlist.AddFirst` | lib/include/ufp_list.h:152-161 | the list spells its sequence with the new node in front, and every prev designates the location that points at its node |
| `Hlist.AddAfter` | lib/include/ufp_list.h:141-150 | the same with the new node behind a given one, at any position, without access to the head |
| `Hlist.AddBefore` | lib/include/ufp_list.h:131-139 | the same with the new node before a given one, the first included |
| `Hlist.Del` | lib/include/ufp_list.h:163-169 | the list spells its sequence without the node, wherever it stood |
| `Hlist.DeleteAll` | lib/include/ufp_list.h:209-219 | the traversal that deletes the node it stands on visits every node once, in order, and empties the list |
| `RouteChain.FindPrior` | src/lpm.c:443-453 | the walk stops at an equal entry, else ends with the last entry of a longer prefix, all entries behind it being no longer |
| `RouteChain.EntryInsert` | src/lpm.c:437-464 | hooking an entry into the linked list does to its data what insertion does to the sequence of the trie model |
| `RouteChain.EntryDelete` | src/lpm.c:466-482 | unhooking an entry from the linked list does to its data what removal does to the sequence of the trie model |
| `TrieCells.InsertEntry` | src/lpm.c:437-464 | a cell spells its node with the route inserted, or the same node when an entry has the id and length; only its own list is touched |
| `TrieCells.RemoveEntry` | src/lpm.c:466-482 | a cell spells its node without the entry found, or the same node when none has the id and length |
| `TrieCells.ClearEntries` | src/lpm.c:484-495 | the entries leave in order and the cell spells its node with an empty chain |
| `TrieCells.NewCells` | src/lpm.c:48-53 | the cells of a new table spell empty nodes and share no memory |
| `TrieCells.MakeTable` | src/lpm.c:182-193 | a cell spells its node with a table of 256 empty cells, made of new memory only |
| `TrieCells.DropTable` | src/lpm.c:323-324 | a cell spells its node without a table |
| `TrieCells.AllBare` | src/lpm.c:316-321 | the scan of heads and table pointers finds out whether all nodes of the table are empty |
| `TrieCells.CellChanged` | src/lpm.c:172-330 | when one cell of a table has changed, touching its own and new memory only, the table spells the same nodes in all other cells, and its cells still share no memory |
| `TrieCells.WalkBelow` | src/lpm.c:91-114 | the walk over the table pointers ends at the list head that the walk of the trie value ends at |
| `TrieCells.Walk` | src/lpm.c:67-89 | the entry found from a root cell is the one found in the trie value it spells |
| `BuddyTree.RoomIsHasRoom` | lib/lib_mem.c:144-166 | the room found from the top down is there exactly when some free leaf is at least the requested size |
| `BuddyTree.AllocSucceedsIff` | lib/lib_mem.c:131-178 | allocation succeeds exactly when some free leaf is large enough, and a failure leaves the tree as it was |
| `BuddyTree.AllocResult` | lib/lib_mem.c:144-149 | the block handed out is an allocated leaf of at least the request and less than twice the request |
| `BuddyTree.AllocLive` | lib/lib_mem.c:131-178 | allocation adds one live block, which was not live before, and keeps all others |
| `BuddyTree.AllocKeepsGood` | lib/lib_mem.c:150-169 | allocation keeps every split node marked and never leaves two free buddies |
| `BuddyTree.FreeKeepsGood` | lib/lib_mem.c:193-215 | release keeps every split node marked and never leaves two free buddies |
| `BuddyTree.FreeLive` | lib/lib_mem.c:193-215 | release takes away exactly the block released |
| `BuddyTree.NothingLive` | lib/lib_mem.c:203-209 | a coalesced tree in which nothing is live is one free block |
| `BuddyTree.FreeAfterAlloc` | lib/lib_mem.c:131-215 | release undoes the allocation it follows, block structure included |
| `BuddyTree.FreeAllIsFree` | lib/lib_mem.c:193-215 | releasing all live blocks in any order gives back the single free block |
| `BuddyBlocks.BlockInPool` | lib/lib_mem.c:151-155 | the block of every node lies inside the pool |
| `BuddyBlocks.LeavesDisjoint` | lib/lib_mem.c:151-155 | no address lies in two leaf blocks |
| `BuddyBlocks.LeavesPartition` | lib/lib_mem.c:151-155 | when all splits are even, every address of the pool lies in exactly one leaf block |
| `BuddyBlocks.AllocLowest` | lib/lib_mem.c:161-165 | no free block that is large enough lies at a lower address than the one handed out |
| `BuddyBlocks.AllocEvenSplits` | lib/lib_main.c:197-209 | on a power-of-two pool allocation only ever splits evenly |
| `BuddyEdit.FreeStep` | lib/lib_mem.c:199-209 | one step of the release: it ends at a busy buddy, else goes on at the parent |
| `MemPool.SpellsSplit` | lib/lib_mem.c:150-159 | hanging two fresh nodes under a free leaf gives linked nodes that spell the split tree |
| `MemPool.SpellsMerge` | lib/lib_mem.c:207-208 | unhooking the two leaves under a node gives linked nodes that spell the merged tree |
| `MemPool.Pool.constructor` | lib/lib_mem.c:54-66 | a new pool is one free block |
| `MemPool.Pool.SplitNode` | lib/lib_mem.c:150-159 | the node objects spell the tree with that leaf split in two free halves, no other node being touched |
| `MemPool.Pool.AllocNode` | lib/lib_mem.c:131-178 | the search in place changes the tree at a node as the value function says, and returns the object of the block found |
| `MemPool.Pool.Release` | lib/lib_mem.c:42-52 | the node is unhooked from its parent on its own side only |
| `MemPool.Pool.MergeNode` | lib/lib_mem.c:207-208 | the node objects spell the tree with the two leaves under a node merged |
| `MemPool.Pool.FreeNode` | lib/lib_mem.c:193-215 | the release in place changes the tree as the value function says, merging up to the root where it can |
| `MemArena.Arena.constructor` | lib/lib_main.c:197-209 | a new pool has no areas and is one free block |
| `MemArena.Arena.Take` | lib/lib_mem.c:131-178 | a block comes back exactly when some free leaf is large enough; it is the lowest one, new, smaller than twice the request, and releasing it would undo the call |
| `MemArena.Arena.MemAlloc` | lib/lib_mem.c:88-106 | all areas keep their place; the new area has the requested size right behind its header, which is at the start of the lowest block that is large enough; failure changes nothing |
| `MemArena.Arena.MemAllocAlign` | lib/lib_mem.c:108-129 | the same, but the area is at the first multiple of the alignment in that block that leaves room for the header and is not its first byte; the alignment is at least the page size |
| `MemArena.Arena.ClientWrite` | lib/lib_mem.c:88-129 | a client that writes inside its own area destroys no header of any area |
| `MemArena.Arena.MemFree` | lib/lib_mem.c:180-191 | from the address alone the header leads to the node of the area, and exactly that area goes |
| `MemArena.Arena.LeavesPartitionPool` | lib/lib_mem.c:131-215 | in every reachable state of a power-of-two pool each address lies in exactly one leaf block |
| `MemArena.Arena.AllReleased` | lib/lib_mem.c:180-215 | when every area has been released the pool is one free block again |
| `MemArena.Arena.AreasApart` | lib/lib_mem.c:88-129 | in every reachable state an address belongs to one area at most, headers included |
| `MemArena.AlignedOffset` | lib/lib_mem.c:122-125 | the computed offset leaves room for the header and makes the address behind it aligned, also when it was aligned already |
| `DescRing.ModDistance` | lib/lib_io.c:34-43 | counters less than one turn apart are told apart by their wrapped values |
| `DescRing.Ring.constructor` | lib/lib_main.c:326-328 | a new ring stands for an empty queue |
| `DescRing.Ring.InUse` | lib/lib_io.c:90-96 | a descriptor in use holds the slot that its place in the queue calls for and the DMA address of that slot, and is marked done as far as the device has come |
| `DescRing.Ring.Unused` | lib/lib_io.c:34-43 | the count computed from wrapped sixteen-bit indices is exactly the ring size less one less the descriptors in use |
| `DescRing.Ring.Push` | lib/lib_io.c:90-96 | the queue gains the slot at its end, and no descriptor in use is overwritten |
| `DescRing.Ring.Publish` | lib/lib_io.c:101-111 | one write of the tail register publishes all attached descriptors |
| `DescRing.Ring.Complete` | dev/i40e/i40e_io.c:873-927 | the device completes published descriptors in order, and only those |
| `DescRing.Ring.Pop` | lib/lib_io.c:189-208 | slots leave in the order they were attached, exactly when the device has completed them |
| `SlotMachine.ExactlyOnePlace` | lib/lib_io.c:256-305 | the invariant says that each slot is found in one place and no other |
| `SlotMachine.StepKeeps` | lib/lib_io.c:62-305 | every step of software, client or device keeps every slot in exactly one place |
| `SlotMachine.SlotsConserved` | lib/lib_io.c:62-305 | in every run from the start each slot is free, in one ring or with the client, and flagged in flight exactly when it is not free |
| `Plane.NewRings` | lib/lib_main.c:326-328 | the rings start empty and share no memory |
| `Plane.IoPlane.constructor` | lib/lib_main.c:148-154 | the plane starts with all slots free, all rings empty and of the given sizes, all searches at the first slot, all counters zero and the given DMA addresses, in new memory that a client can use |
| `Plane.IoPlane.Meanwhile` | dev/i40e/i40e_io.c:873-927 | whatever the device completes is a run of the slot machine that moves no slot and changes only how far rings are completed |
| `Plane.IoPlane.FindFree` | lib/lib_io.c:262-276 | the search meets the first free slot after the last one taken, and fails exactly when the whole range of the port is in flight |
| `Plane.IoPlane.SlotAssign` | lib/lib_io.c:256-285 | the slot is the first free one of the port's own range from where the last search ended, around the end of the range; the next search starts behind it; failure, exactly when that range is in flight, changes nothing |
| `SlotSearch.FirstFreeIsNext` | lib/lib_io.c:262-281 | the turn around a range ends at the first free slot: all slots from the start of the search up to it are in flight |
| `SlotSearch.NearerOrTaken` | lib/lib_io.c:262-281 | a search takes a given free slot of its range or ends nearer to it |
| `SlotSearch.FreeSlotIsTaken` | lib/lib_io.c:256-285 | a slot found free by successive searches of its range is handed out within its distance from the first of them |
| `SlotSearch.TakenWithin` | lib/lib_io.c:256-285 | among as many successive searches as the range has slots, a slot that is free until it is handed out is handed out |
| `Plane.IoPlane.AssignsAreFair` | lib/lib_io.c:256-285 | the same of the searches that a plane has made on one port in any run, whatever other operations came in between |
| `Plane.IoPlane.AssignUntil` | lib/lib_io.c:256-285 | assigning slots of a port over and over yields any given free slot of its range within as many calls as the range has slots |
| `Plane.IoPlane.Move` | lib/lib_io.c:278-281 | the next search of the port starts behind the slot just taken, and the search is added to the port's history |
| `Plane.IoPlane.RxFill` | lib/lib_io.c:73-99 | the receive ring gains free slots of the port's range, each the first free one behind the one before, until it is full or the range is in flight, with the device at work before each turn |
| `Plane.IoPlane.RxAssign` | lib/lib_io.c:62-112 | what was added is published; the call, device work included, is a run of the slot machine; the failure count grows by the descriptors left empty |
| `Plane.IoPlane.TxAssign` | lib/lib_io.c:114-146 | the slot is attached, or released and counted when the ring is full; published plus suspended stays the number in use |
| `Plane.IoPlane.TxXmit` | lib/lib_io.c:148-171 | all suspended descriptors are published and none is suspended any more |
| `Plane.IoPlane.RxClean` | lib/lib_io.c:173-215 | with the device at work before each turn, the client gets the completed slots in order, up to the budget, and stops short only when the device has completed no more by then; the total grows by their number |
| `Plane.IoPlane.TxClean` | lib/lib_io.c:217-254 | with the device at work before each turn, the completed slots become free in order, up to the budget, and nothing else becomes free; the total grows by their number |
| `Plane.IoPlane.SlotRelease` | lib/lib_io.c:300-305 | a slot the client holds becomes free |
| `Plane.IoPlane.Drop` | lib/lib_io.c:300-305 | dropping a packet between operations keeps all the books of the plane |
| `Plane.IoPlane.Device` | dev/i40e/i40e_io.c:873-927 | the device may complete a published descriptor of any ring between operations, and completes none that is not published |
| `Plane.IoPlane.ForwardTun` | src/forward.c:97-126 | injecting a packet takes the first free slot of the port's range and sends it, or does nothing when the packet is too large or the range is in flight; the client holds what it held before, and only the counters concerned change |
| `Outcomes.DrainedMore` | lib/lib_io.c:184-211 | taking one more completed descriptor out of a ring takes the next slot in ring order, whatever the device has completed since the first |
| `Outcomes.BookedRx` | lib/lib_io.c:62-112 | filling a receive ring and publishing it keeps the books of all rings: receive rings wholly published, transmit rings published up to what is suspended |
| `PlaneRuns.Receiving` | lib/lib_io.c:62-215 | filling and cleaning a receive ring do to slots, rings, client and all counters what they are for, and nothing else |
| `PlaneRuns.Sending` | lib/lib_io.c:114-171 | the same of sending a slot and publishing what is suspended |
| `PlaneRuns.Reclaiming` | lib/lib_io.c:217-254 | the same of cleaning a transmit ring |
| `PlaneRuns.Injecting` | src/forward.c:97-126 | the same of a packet that comes in from the kernel |
| `PlaneRuns.Otherwise` | lib/lib_io.c:300-305 | the same of dropping a packet and of the work of the device |
| `PlaneRuns.Perform` | lib/lib_io.c:62-305 | every operation of the interface keeps all its books and is a run of the slot machine, and what the client is told matches what it holds |
| `PlaneRuns.RunAll` | lib/lib_io.c:62-305 | after any sequence of operations on a new plane, each having done what it is for, each slot is in exactly one place, by a run of the slot machine from its initial state, and each descriptor in use holds the DMA address of its slot |
| `ForwardLoop.StaysIsRelease` | src/forward.c:84-91 | the turn of a packet that is dropped, or meets a full ring, is one release |
| `ForwardLoop.SentIsAttach` | src/forward.c:87-91 | the turn of any other packet is the attach step of the hand-over followed by clearing the flag of a slot that is now in the ring |
| `ForwardLoop.SentLeaks` | src/forward.c:87-91 | a packet that gets into a transmit ring is released as well: its slot sits in the ring and may be handed out again at once |
| `ForwardLoop.LeakStays` | src/forward.c:55-92 | no later packet of the loop repairs that |
| `ForwardLoop.ForwardConservesIff` | src/forward.c:42-95 | the loop keeps every slot in one place if and only if each packet is dropped or goes to a port whose ring is full |
| `ForwardLoop.ForwardInOrder` | src/forward.c:55-92 | one packet more is one turn more, after all others |
| `ForwardLoop.StayingIsReleasing` | src/forward.c:84-91 | when no packet gets into a ring, the loop is a run of the slot machine that releases the slot of every packet in order |
| `ForwardLoop.ForwardLeaksExample` | src/forward.c:87-91 | the smallest case in which it does not: one slot and one port, in a state reached from the start by receiving a packet |
| `HmcBits.MaskByteBits` | dev/i40e/i40e_hmc.c:347-348 | the mask of a width has exactly its lowest bits set |
| `HmcBits.ShiftedBits` | dev/i40e/i40e_hmc.c:357-370 | the byte loop with its carry shifts the whole byte string, bit by bit |
| `HmcBits.PrepareField` | dev/i40e/i40e_hmc.c:337-349 | the bytes of the value least significant first, from a host of either byte order, and the mask bytes with the sixteen-bit wrap-around |
| `HmcBits.MergeField` | dev/i40e/i40e_hmc.c:357-370 | exactly the bytes of the field's window are replaced, each by value, mask and previous contents |
| `HmcBits.HmcWrite` | dev/i40e/i40e_hmc.c:328-373 | every bit of the target after the write: value bits, bits cleared by the mask, and bits kept; nothing outside the target changes |
| `HmcRead.ReadBytes` | dev/i40e/i40e_hmc.c:385-404 | the bytes read hold the masked target bits from the first bit of the field on |
| `HmcRead.HmcReadInto` | dev/i40e/i40e_hmc.c:375-418 | the member of the host structure gets those bits in host byte order, and no other byte changes |
| `HmcRead.MaskPastField` | dev/i40e/i40e_hmc.c:347-348 | a mask bit past the end of a field is set exactly when the subtraction for its byte wraps around |
| `HmcRead.ReadAfterWrite` | dev/i40e/i40e_hmc.c:328-418 | for a field within its bytes and a value within its width, reading after writing gives back every bit of the value |
| `HmcRead.OtherBitsKeptIff` | dev/i40e/i40e_hmc.c:347-370 | all bits outside a field survive a write if and only if the field needs all of its host bytes |
| `HmcContext.OneMoreField` | dev/i40e/i40e_hmc.c:318-320 | writing the next field of an ascending table keeps all earlier fields, because the over-wide mask falls on bits that are still zero |
| `HmcContext.SetContext` | dev/i40e/i40e_hmc.c:317-320 | after zeroing and writing all rows every field holds its value and every bit outside all fields is zero; nothing outside the object changes |
| `HmcContext.ContextReadsBackIff` | dev/i40e/i40e_hmc.c:375-418 | a field reads back from the whole context if and only if no field has a set bit where the wrapped mask reaches past its end |
| `HmcContext.OverReadRange` | dev/i40e/i40e_hmc.c:391-404 | the bits that a read takes from past the end of its field are exactly those from the first wrapped byte to the end of its window |
| `HmcContext.NoOverRead` | dev/i40e/i40e_hmc.c:391-394 | a field that needs all of its host bytes is never disturbed in that way |
| `HmcReadBack.RowReadsBackIff` | dev/i40e/i40e_hmc.h:65-88 | a row of the receive table reads back if and only if the named bits of its neighbours are clear; all rows but dbuff, hbuff and rxmax always do |
| `HmcReadBack.DbuffReadsBackIff` | dev/i40e/i40e_hmc.h:71-72 | the receive field dbuff reads back if and only if bits 1 and 2 of hbuff are clear |
| `HmcReadBack.HbuffReadsBackIff` | dev/i40e/i40e_hmc.h:72-77 | the receive field hbuff reads back if and only if crcstrip, fc_en and l2tsel are clear |
| `HmcReadBack.RxmaxReadsBackIff` | dev/i40e/i40e_hmc.h:81-86 | the receive field rxmax reads back if and only if the four tph fields and bits 0 and 1 of lrxqthresh are clear |
| `HmcReadBack.DriverReadBack` | dev/i40e/i40e_io.c:367-412 | with the values the driver programs every receive field reads back except hbuff and rxmax, which do not |
| `HmcReadBack.DriverContextFits` | dev/i40e/i40e_io.c:367-412 | whatever buffer and frame sizes the driver accepts, its receive structure is within the widths of the device; the default sizes are accepted |
| `HmcReadBack.DriverProgrammed` | dev/i40e/i40e_io.c:367-412 | what the device finds in such a context: the ring address and buffer size in units of 128, 4096 descriptors, the frame size, and each flag at its bit |
| `HmcReadBack.RxmaxClears` | dev/i40e/i40e_hmc.c:347-366 | writing rxmax clears ten bits past its end, the tph fields among them, so the order of the table matters |
| `HmcReadBack.TxReadsBack` | dev/i40e/i40e_hmc.h:112-144 | every row of the transmit table reads back from a whole context, whatever the other rows hold |
| `HmcContext.RxTableIsGood` | dev/i40e/i40e_hmc.h:65-88 | the receive table is disjoint, ascending, within 32 bytes, and ends with a row of width zero |
| `HmcContext.TxTableIsGood` | dev/i40e/i40e_hmc.h:112-144 | the transmit table is disjoint, ascending, within 128 bytes, and ends with a row of width zero |
| `HostStruct.MemberBytes` | dev/i40e/i40e_hmc.h:39-63 | in a structure laid out by the rules of C the bytes at the offset of a member are those of its value |
| `HostStruct.RowTakesMember` | dev/i40e/i40e_hmc.h:154-157 | a row with the offset and size of a member takes the binary digits of its value, on hosts of either byte order |
| `HostStruct.SpelledIs` | dev/i40e/i40e_hmc.c:357-370 | bits that are the binary digits of a number within their width spell that number |
| `HmcMembers.RxOffsetIs` | dev/i40e/i40e_hmc.h:39-88 | the offset and size in each receive row are those that C gives the member of that name |
| `HmcMembers.TxOffsetIs` | dev/i40e/i40e_hmc.h:91-144 | the offset and size in each transmit row are those that C gives the member of that name |
| `HmcMembers.RxStructureFits` | dev/i40e/i40e_hmc.h:39-63 | the receive structure is 48 bytes, and members within their widths fit their rows |
| `HmcMembers.TxStructureFits` | dev/i40e/i40e_hmc.h:91-110 | the transmit structure is 48 bytes, and members within their widths fit their rows |
| `HmcMembers.RxHeld` | dev/i40e/i40e_hmc.h:65-88 | a receive context that holds its fields spells every member, by name, at its literal bits, and its other bits are zero |
| `HmcMembers.TxHeld` | dev/i40e/i40e_hmc.h:112-144 | a transmit context that holds its fields spells every member, by name, at its literal bits, and its other bits are zero |
| `HmcMembers.SetRxContext` | dev/i40e/i40e_hmc.c:304-326 | fails and writes nothing exactly when the context does not resolve; else the context spells the receive structure and no more, and the contexts of all other queues are unchanged |
| `HmcMembers.SetTxContext` | dev/i40e/i40e_hmc.c:280-302 | the same of the transmit structure |
| `HmcLayout.BaseIs` | dev/i40e/i40e_hmc.c:41-57 | objects are as large as their registers say; the receive objects start at the first multiple of 512 behind the transmit objects |
| `HmcLayout.SegmentCountIs` | dev/i40e/i40e_hmc.c:59-61 | the segments counted are the fewest that hold one object of each kind |
| `HmcLayout.PlaceIs` | dev/i40e/i40e_hmc.c:261-272 | a context that resolves lies as many objects behind the base as its queue number says |
| `HmcLayout.ContextInOnePage` | dev/i40e/i40e_hmc.c:261-272 | a context never crosses a page boundary |
| `HmcLayout.ContextsDisjoint` | dev/i40e/i40e_hmc.c:41-57 | no byte belongs to the contexts of two queues, transmit or receive |
| `HmcLayout.AllInOnePageIff` | dev/i40e/i40e_hmc.c:41-57 | when the receive contexts fill a page, every context below the limit stays inside one page if and only if objects are at most a page and receive objects start at a multiple of their size |
| `HmcLayout.SmallIsSupported` | dev/i40e/i40e_hmc.c:53-57 | objects of at most 512 bytes always meet that condition |
| `HmcLayout.ResolvesIff` | dev/i40e/i40e_hmc.c:261-268 | for register values within their fields, a context resolves exactly when it lies below the end of the counted segments |
| `HmcLayout.IndicesFit` | dev/i40e/i40e_hmc.c:250-268 | for register values within their fields and any sixteen-bit queue number, an address is below 2^32, so no page or segment index is truncated |
| `HmcLayout.AllResolveIff` | dev/i40e/i40e_hmc.c:41-61 | for register values within their fields, every queue below the limit resolves if and only if the last receive context lies below the end of the counted segments |
| `HmcLayout.SmallAllResolve` | dev/i40e/i40e_hmc.c:41-61 | with objects of at most 512 bytes and a limit of at most 2048 every queue resolves |
| `HmcLayout.UnresolvedExamples` | dev/i40e/i40e_hmc.c:59-61 | a limit of 2049 with 512-byte objects, and a limit of 2047 with 1024-byte objects, leave a queue below the limit unresolved |
| `HmcProgram.ContextIsAt` | dev/i40e/i40e_hmc.c:261-272 | the bytes of a context are those at the addresses that the registers give to its queue |
| `HmcProgram.OtherContextKept` | dev/i40e/i40e_hmc.c:250-278 | a change inside one context leaves the bytes of every other context as they were |
| `HmcProgram.SetContextOf` | dev/i40e/i40e_hmc.c:280-326 | fails and writes nothing exactly when the context does not resolve; else that context holds its fields and the contexts of all other queues are unchanged |
| `Checksum.FoldIsResidue` | src/forward.c:192-194 | folding carries picks the representative from 1 to 0xFFFF of a positive sum modulo 0xFFFF (RFC 1071) |
| `Checksum.ChecksummedIff` | src/forward.c:192-194 | a header has the right checksum, or the other zero, exactly when it is a multiple of 0xFFFF as one number |
| `Checksum.ByteOrderIndependent` | src/forward.c:192-194 | whether a checksum is right does not depend on the byte order of the host that adds the words |
| `Checksum.CarryTracksIff` | src/forward.c:193-194 | the end-around carry gives the right field exactly from the right field or from 0xFFFF in place of zero |
| `Checksum.ForwardedChecksum` | src/forward.c:187-194 | for every TTL but zero the field is right after the decrement exactly when it was right or the other zero before (section 3 of RFC 1624); a TTL of zero always breaks it |
| `Checksum.ForwardedBytes` | src/forward.c:190-194 | the TTL goes down by one, the field in network byte order gains 0x0100 modulo 0xFFFF on hosts of either byte order, and no other byte changes |
| `Checksum.DecrementTtl` | src/forward.c:187-194 | a TTL of one is diverted untouched; else the TTL goes down by one, only it and the checksum change, and a right checksum stays right for every TTL but zero |
| `NeighTable.Hash` | src/neigh.c:142-157 | the bucket index of a key of either family is below 65536 |
| `NeighTable.HashIsTopBits` | src/neigh.c:142-157 | the bucket index is the top sixteen bits of the truncated product with the constant of the family |
| `NeighTable.StoredAdd` | src/hash.c:32-55 | a new entry at the head of its bucket gives buckets that store the map with the key added |
| `NeighTable.StoredDelete` | src/hash.c:57-85 | dropping an entry gives buckets that store the map without the key |
| `NeighTable.Table.Find` | src/hash.c:104-123 | the walk of the linked list of a key's bucket finds its node exactly when the map has the key |
| `NeighTable.Table.Lookup` | src/neigh.c:231-246 | the answer is that of a finite map |
| `NeighTable.Table.Add` | src/neigh.c:172-210 | an unknown family or a present key is refused, and the key keeps its MAC address; else a new node is hooked in front of its bucket and the map gains the key |
| `NeighTable.Table.Delete` | src/neigh.c:212-229 | an absent key is refused; else its node is unhooked and the map loses the key and nothing else |
| `NeighTable.StoredClear` | src/hash.c:94-98 | buckets with one of them emptied store the map without the keys of that bucket |
| `NeighTable.Table.Clear` | src/hash.c:94-98 | the nodes of a bucket are visited once each, in order, and only that bucket ends up empty |
| `NeighTable.Table.DeleteAll` | src/hash.c:87-102 | every node of every bucket is visited exactly once, in order, and every bucket ends up empty |

## Left out

- Allocation failure in the trie, in route installation and in the node tree: those paths roll back too little or free twice and keep none of the invariants above.
- The return of trie tables and entries to the memory pool: a dropped table or entry is no longer part of the trie, and that is all the model says of it.
- Fib.ForwardingTable.EntryDeleteAll: the entries are all unhooked before the first reference is dropped, where the source alternates; nothing looks at the counts in between.
- Fib.ForwardingTable.FillCells: the roll-back loop is not part of the body, because it is proved to have nothing to undo when memory allocation succeeds.
- Fib.ForwardingTable.FillRoot: the same for the roll-back loop of the root table.
- Addresses.AlignDown: the masking with `~(range - 1)` and the `or` with the loop counter are written as subtraction of a remainder and addition.
- MemArena.Arena.MemAlloc: the sum of header and size is not truncated to the width of `size_t`.
- MemArena.Arena.MemAllocAlign: the sum of alignment, header and size is not truncated to the width of `size_t`.
- DescRing.Ring.Push: a descriptor is its DMA address and a done mark; lengths, error flags and command bits of the descriptor words are not modelled.
- Plane.IoPlane.RxClean: the DMA address of a slot is any function of its number; virtual addresses, which are truncated to sixteen-bit slot numbers, and the sizes and flags of packets are not modelled.
- Plane.IoPlane.ForwardTun: the copy of the packet bytes into the slot is not modelled.
- ForwardLoop.ForwardConservesIff: the loop is modelled on values of the slot machine, not in place, since it does not keep the invariant of the plane; which port a packet leaves by is part of the packet; parsing, neighbour resolution and the IPv6 hop limit are not modelled.
- HmcLayout.ResolvesIff: the 32-bit page and segment indices and the 16-bit queue number of the source are unbounded in the model; register values outside their fields can make the source truncate them.
- HmcLayout.AllResolveIff: the same; within the fields there is nothing to truncate (`HmcLayout.IndicesFit`).
- HmcProgram.SetContextOf: object sizes are at most a page, receive objects start at a multiple of their size, and objects have room for their fields; with other register values a context crosses a page or its fields overrun it. Values are within the widths of their fields; the source does not cut them, so a larger one would spill into the next field.
- HmcMembers.SetRxContext: the same; `HmcReadBack.DriverContextFits` shows that the receive values of the driver are within their widths.
- HmcMembers.SetTxContext: the same; the queue set handle, which the firmware gives, has to be within its ten bits.
- Memory barriers and weak memory ordering: publication is one write of the tail register.
- Traversal and debug printing of the trie: no property of interest.
- Start-up, VFIO, TAP, netlink, epoll, threads and signals: system calls and plumbing.
- Register bring-up, reset and the admin queue of the i40e driver: they depend on firmware that the repository does not describe.
- The drivers under dev/old: they are not built.
