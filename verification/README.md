# UpDown memory system, protocols and algorithms: a verified model

UpDown is a machine of many nodes; each node has memory stacks and 32 UpDowns of 64
lanes.  This project models the parts of its simulator and libraries whose correctness is
not visible in any one function, and proves them with Dafny 4.11
(`dafny verify dfyconfig.toml`).

* **Two-dimensional DRAM allocation.**  Free memory is a set of rectangles in the plane
  memory x nodes, indexed by an R-tree that is split, adjusted and condensed in place.
  `Rects` and `TreeModel` give rectangles and the value of a tree; `Split` the quadratic
  split; `Nodes`, `Climbs`, `Condense`, `Reinserts` and `RTree` the heap structure and its
  upward and downward passes; `Tiling` and `Allocation` the allocator that cuts requests
  out of free rectangles; `Service` the request handler with its translation table.
* **Address translation.**  `Bits`, `Swizzle` and `Segments` model masks, packed physical
  addresses and segments on bits; `Placement` connects the service's own translator, the
  installed segments, the allocator's rectangles and the host address maps.
* **Two more memory managers.**  `Regions` is the map of mapped-memory regions;
  `FreeLists` and `SpMalloc` the implicit free list in scratchpad memory, with its
  reference simulator.
* **Protocols.**  `Barrier` (one shared word), `Installer` (two-level broadcast with
  counted replies) and `Throttle` (test, then add) are state machines over single reads,
  writes and message deliveries; their theorems hold for every interleaving.
* **Algorithms.**  `ForestFire` (graph growth for all draws), `Crc` (table-driven
  checksum against polynomial division), `Timeline` (in-place downsampling).
* **Instances.**  `Instances` runs operations from a fresh state to inputs on which the
  code misses its purpose.

Objects that the source changes in place are classes here (`RTree`, `Node`, `Allocator`,
`DramAllocator`, `RegionMap`, `SpMalloc`, `ImplicitFreeListAllocator`, `Generator`,
`Recorder`); arithmetic and layouts are functions.  Each tree node carries a ghost `view`,
the value it stands for; loops and methods are proved against functions of these values.

## Where the code does not do what it is for

In these places the code as written misses its purpose on some inputs.  The model keeps
the code's behaviour, a theorem says exactly when it is right, and module `Instances` or
the lemma named gives an input on which it is not.

* `remove` re-attaches an inner node that fell below two children under a node of its own
  level (rtree.cpp:426-474; `addChild` then lowers its level, rtree.cpp:58).
  `RTrees.RTree.Remove`: the tree stays valid if and only if removing does not starve an
  inner node, which shows in two counts on the path (`TreeModel.InnerUnderflow`); otherwise
  some node passes for a leaf while its entries are nodes, and a search finds nothing there
  (`RTrees.SearchStray`).  `TreeModel.LeastTreeUnderflows` gives a tree of eight blocks where
  that happens.
* The piece of free memory beside a shorter last row is placed with `+=` on a start node
  that is already set (alloc.cpp:100).  `Allocation.Allocator.Allocate`: free and live
  rectangles stay a partition of the arena if and only if the request fills whole rows or
  the chosen rectangle, the first that the search offers, starts at node 0.
  `Instances.RowPieceBreaks`: two requests from a fresh arena.
* The service records the physical base without the start node (dramalloc_service_core.cpp:196-206).
  `Placement.PlainBaseIff`: right if and only if the start node is 0; the encoding of line
  115 keeps 27 address bits, `Placement.FullBaseIff`: right if and only if the base is
  below 2^27, which it is in its one use.  `Service.OtherRowsMisplaced`: a row with another
  start node is translated beside its request; `Service.RowsAlias` and `Instances.SameBase`:
  two such rows can share their host addresses.
* The service frees with the size before rounding (dramalloc_service_core.cpp:236, 245).
  `Instances.OneByteLost`: a byte taken and given back stays taken.
  `Service.DramAllocator.FreeMemory`: free memory, live requests and table stay in
  agreement if and only if the unrounded size fills whole rows (`Service.GivenBackWhole`).
* The arena offers every node the memory of the whole machine
  (dramalloc_service_core.cpp:64), the host gives each node a share of it
  (basimupdown.cpp:3098-3100).  `Service.RowHostedIff`: all addresses of a row that starts at
  node 0 reach the host if and only if its start and its reach together stay within that
  share and within the bound of the addition below; `Service.ShareExceeded` gives a request
  that is granted and does not.
* The bound in the addition of physical addresses has 36 bits, the field 37
  (memorySegments.h:41-50).  `Segments.PhysicalRoundTrip` says which addresses fail, and
  `Instances.HighBase` gives a segment in which the first does.
* Decoding a mask whose upper bits are all zero above its low ones never ends
  (memorySegments.h:174-177).  `Swizzle.DecodableIff`: exactly for the words 2^k - 1, among
  them the mask that `get_swizzle_mask` has for a single node (`Placement.SingleNodeMask`).
* The barrier's write, test and second write are not atomic (basimupdown.cpp:3136-3139).
  `Barrier.Reusable` and `Barrier.UntimelyBreaks`: runs without a participant other than
  the last reading N at the test are safe for any number of uses; after such a reading, a
  continuation breaks the next use.  `Barrier.SecondUseBreaks` leads there from the initial
  state for every N > 1, so that the barrier is safe under every interleaving if and only if
  N is 1 (`Barrier.SafeIffSingle`); with write, test and second write in one step it is safe
  for every N (`Barrier.AtomicReusable`).
* The size of a scratchpad request is shifted in a 64-bit register and compared as a signed
  number (SpMalloc.py:217-218, 231).  `SpMallocs.GrantHoldsIff`: what a request is granted
  from holds the words asked for if and only if they are fewer than 2^60 - 1; 2^60 words are
  granted wherever a block is free (`SpMallocs.HugeGranted`), with wrong headers.
* The scratchpad simulator takes its first block, free or not, when none fits
  (heap_simulator.py:12-17).  `SpMallocs.SelectedFitsIff`: it takes a free block of
  sufficient size if and only if there is one.  `Instances.GrantedTwice`: a heap of two words
  grants them twice.
* `get_region` for no bytes at an unaligned region, and `get_region_at_addr` for a range
  that leaves the region chosen or for no bytes behind its start, corrupt the map
  (updown.h:306-318, 366-399).  `Regions.RegionMap.GetRegion` and `GetRegionAtAddr` say
  so with if and only if; `Instances.NothingUnaligned`, `BeyondRegion` and `NothingBehind`
  are one such call each.
* With an odd number of ticks the first compaction of the timeline weighs its slots wrongly
  (basimupdown.cpp:1640, 1648-1652).  `Timeline.Recorder.Tick`: what is shown stays exact
  if and only if interval x ticks is even or nothing has been seen.  `Instances.OddTicks`:
  three ticks and a byte in every cycle.

## Model

| member | source | states |
|---|---|---|
| Rects.FitMonotone | updown/libraries/dramalloc/rtree.h:26-55 | a request that fits a rectangle fits every rectangle covering it and asks for no more 64-bit area: the two pruning tests of search are sound as long as the outer area does not wrap |
| Rects.RoomIff | updown/libraries/dramalloc/rtree.h:40-55 | `fit` holds exactly when the rectangle covers one of the length and nodes asked for, at the start node |
| Rects.OverlapIffCommonCell | updown/libraries/dramalloc/rtree.h:57-73 | `overlap` holds exactly of rectangles that share a cell |
| Rects.HullExtend | updown/libraries/dramalloc/rtree.cpp:155-168 | growing the bounding box of a prefix by the next entry gives the bounding box of the longer prefix |
| TreeModel.BoxIsLeast | updown/libraries/dramalloc/rtree.cpp:155-168 | the rectangle of a node lies in every rectangle that covers all blocks stored below it, at any depth |
| TreeModel.BoxCoversContents | updown/libraries/dramalloc/rtree.cpp:155-168 | ... and covers each of them |
| TreeModel.SearchExact | updown/libraries/dramalloc/rtree.cpp:98-133 | the search pruned by area and bounding box yields each stored block that fits the request as often as it is stored, and no other block |
| TreeModel.SearchInOrder | updown/libraries/dramalloc/rtree.cpp:98-133 | what the search yields is the list of all stored blocks, in the order they are stored, without those that do not fit |
| TreeModel.FirstIsPicked | updown/libraries/dramalloc/rtree.cpp:98-133 | the first block found is the first that fits in a leaf, and in an inner node the one of the first child below which any block fits |
| TreeModel.PickedLeast | updown/libraries/dramalloc/rtree.cpp:98-117 | from a leaf that is a block of least area among all that fit |
| TreeModel.FindsComplete | updown/libraries/dramalloc/rtree.cpp:476-492 | the descent guided by overlap reaches a leaf holding the rectangle of every stored block that has cells |
| TreeModel.FindsSound | updown/libraries/dramalloc/rtree.cpp:476-492 | it reaches only leaves that hold the rectangle |
| TreeModel.ThinPathUnderflows | updown/libraries/dramalloc/rtree.cpp:494-531 | in a tree of three levels a removal starves an inner node exactly when the node and the leaf on the path of the descent have two entries each |
| TreeModel.LeastTreeUnderflows | updown/libraries/dramalloc/rtree.cpp:494-531 | a well-formed tree of eight blocks in which removing the first starves an inner node |
| TreeModel.LowTreesDoNotUnderflow | updown/libraries/dramalloc/rtree.cpp:494-531 | a tree of at most two levels is never starved by a removal |
| Split.PickSeeds | updown/libraries/dramalloc/rtree.cpp:287-312 | the two seeds are the first pair of entries that wastes most 64-bit area |
| Split.WasteIs | updown/libraries/dramalloc/rtree.cpp:295-303 | of rectangles without a common cell the waste is the cells of their least common box that belong to neither |
| Split.EnlargementIs | updown/libraries/dramalloc/rtree.cpp:343-345 | the enlargement is the cells a box gains when it becomes the least box around itself and an entry |
| Split.PickNext | updown/libraries/dramalloc/rtree.cpp:338-355 | the next entry is the first with the largest gap between the enlargements of the two groups; both enlargements are reported when they differ |
| Split.QuadraticSplit | updown/libraries/dramalloc/rtree.cpp:281-386 | the two groups partition the nine entries, have 2 to 7 each, and start with the first most wasteful pair; every other entry is in the group whose first entry it enlarges less, on a tie in that of the smaller first entry, then in the group with fewer entries, except that an entry of least gap fills a group of one up to two |
| Nodes.AddBlock | updown/libraries/dramalloc/rtree.cpp:32-49 | the leaf holds one block more; in area order it goes before the first that is not smaller, all others stay in order; in any order the smaller ones stay and each of the others moves to the place of the next |
| Nodes.AddChild | updown/libraries/dramalloc/rtree.cpp:51-70 | the node has one child more, linked to it and one level lower, and still agrees with its children's values; it stands where a block would |
| Nodes.RemoveBlock | updown/libraries/dramalloc/rtree.cpp:72-83 | the first block with that rectangle is gone, the others keep their order |
| Nodes.RemoveChild | updown/libraries/dramalloc/rtree.cpp:85-96 | exactly that child is gone |
| Nodes.UpdateBB | updown/libraries/dramalloc/rtree.cpp:155-168 | the rectangle is the bounding box of the entries, nothing else changed |
| Nodes.SplitLeaf | updown/libraries/dramalloc/rtree.cpp:281-386 | two well-formed leaves hold the groups of the quadratic split of the old blocks and the new one |
| Nodes.SplitInner | updown/libraries/dramalloc/rtree.cpp:173-279 | two nodes hold the groups of the quadratic split of the old children and the new one, boxed and linked |
| Climbs.RisenLinks | updown/libraries/dramalloc/rtree.cpp:399-415 | one step of AdjustTree moves the only place where links are open one level up |
| Climbs.Risen | updown/libraries/dramalloc/rtree.cpp:399-415 | ... and the only place where a node disagrees with its children |
| Climbs.LiftSplit | updown/libraries/dramalloc/rtree.cpp:399-415 | splitting a full parent keeps that state and all blocks |
| RTrees.ChooseLeaf | updown/libraries/dramalloc/rtree.cpp:135-153 | every step of the way down goes to the child whose box grows least in 64-bit area, the first of them |
| RTrees.SearchRecursive | updown/libraries/dramalloc/rtree.cpp:98-127 | the loops append exactly what the pruned search of the tree's value yields, in its order (TreeModel.SearchInOrder) |
| RTrees.SearchLeaf | updown/libraries/dramalloc/rtree.cpp:98-117 | the loop over a leaf yields what the scan of its blocks yields; entries that are nodes give nothing |
| RTrees.SearchStray | updown/libraries/dramalloc/rtree.cpp:98-117 | in a node that passes for a leaf but holds nodes, which a starving removal leaves behind, every request of some length finds nothing |
| RTrees.FindLeaf | updown/libraries/dramalloc/rtree.cpp:476-492 | a leaf comes back exactly when the descent finds the rectangle; its count and its parent's tell whether a removal starves an inner node |
| RTrees.RTree.constructor | updown/libraries/dramalloc/rtree.cpp:20-30 | a valid tree holding the whole space as one block |
| RTrees.RTree.AdjustTree | updown/libraries/dramalloc/rtree.cpp:398-423 | from any climb the loop and the root growth restore the invariant of the whole tree, adding exactly what came in below; the tree grows by at most one level, and from the root exactly when that was split |
| RTrees.RTree.Add | updown/libraries/dramalloc/rtree.cpp:388-424 | the tree stays valid (links, levels, 2..8 entries, exact boxes, leaves at one depth) and stores exactly one `b` more; it grows by at most one level, a single leaf exactly when it holds eight blocks, and otherwise takes `b` in its place in area order |
| RTrees.RTree.Search | updown/libraries/dramalloc/rtree.cpp:129-133 | returns the exact multiset of stored blocks that fit, in the order in which they are stored; the first is the one of TreeModel.FirstIsPicked, and from a single leaf they come in area order |
| RTrees.RTree.CondenseTree | updown/libraries/dramalloc/rtree.cpp:499-510 | the upward pass takes out underfull nodes with their subtrees and keeps the rest valid; an inner node goes exactly when leaf and parent were at the minimum |
| RTrees.RTree.Remove | updown/libraries/dramalloc/rtree.cpp:494-531 | takes out exactly one block with that rectangle and keeps all others; valid afterwards if and only if no inner node was starved |
| RTrees.RTree.Reinsert | updown/libraries/dramalloc/rtree.cpp:439-474 | attaches the node one level too low and restores what remains true from its old level up |
| RTrees.RTree.Shorten | updown/libraries/dramalloc/rtree.cpp:522-530 | replacing a root by its only child keeps validity and blocks |
| Reinserts.Attached | updown/libraries/dramalloc/rtree.cpp:439-448 | links and boxes that survive the attachment at the wrong level |
| Tiling.SharedOutIff | updown/libraries/dramalloc/alloc.cpp:77-121 | the footprint and the up to four leftovers share out the chosen rectangle if and only if the request fills whole rows or the rectangle starts at node 0 |
| Tiling.Grant.FootprintArea | updown/libraries/dramalloc/alloc.cpp:35-47 | the footprint is as large as the blocks of the request together, and no block is superfluous |
| Tiling.FreedCover | updown/libraries/dramalloc/alloc.cpp:131-177 | what `free` puts back covers the footprint, each cell once |
| Allocation.AllocateConserves | updown/libraries/dramalloc/alloc.cpp:66-121 | the balance of free and taken cells survives an allocation if and only if the row piece is not needed or rightly placed |
| Allocation.CutLeavesRoom | updown/libraries/dramalloc/alloc.cpp:66-121 | how a block is cut: what lies behind the request is free in one piece across all nodes of the block, so is the memory on the nodes before it, and that on the nodes after it along its full rows; the piece beside a shorter last row reaches the last node if the block starts at node 0, and else is displaced by the block's start node |
| Allocation.FreedGivesRoom | updown/libraries/dramalloc/alloc.cpp:127-178 | what is freed comes back as one block of all its full rows, to which, for a request of full rows, the same request fits again, and one for a shorter last row |
| Allocation.FreeConserves | updown/libraries/dramalloc/alloc.cpp:127-178 | freeing a live request restores the balance without it |
| Allocation.FreeBalances | updown/libraries/dramalloc/alloc.cpp:127-178 | freeing any description can be balanced, by whichever live requests are taken to be gone, if and only if its cells are those of the live requests that lie within them; and then it is balanced without these |
| Allocation.FreeBalancesIff | updown/libraries/dramalloc/alloc.cpp:127-178 | freeing a description balances free cells with the live requests but those of a set if and only if it describes the cells of that set |
| Allocation.Allocator.constructor | updown/libraries/dramalloc/alloc.cpp:13-13 | the arena is free and nothing is live |
| Allocation.Allocator.Refuses | updown/libraries/dramalloc/alloc.cpp:21-51 | the bit test and comparisons turn down exactly zero sizes, node counts that are no power of two above 1, and sizes of at most (nodes - 1) blocks |
| Allocation.Allocator.Allocate | updown/libraries/dramalloc/alloc.cpp:15-125 | fails exactly when refused or nothing fits, changing nothing; otherwise cuts the request out of the first block found (TreeModel.FirstIsPicked), which from a single leaf has the fewest cells of all free blocks that fit; what is left of it stays in the pieces of Allocation.CutLeavesRoom; free and live stay a partition if and only if the request fills whole rows or that block starts at node 0 |
| Allocation.Allocator.Free | updown/libraries/dramalloc/alloc.cpp:127-178 | gives back what is described, its full rows in one piece, so that the same request fits again if it fills them; the live requests within its cells are gone; free and live stay a partition if and only if these requests make up the cells or the description is an empty one |
| Service.RoundedIsFull | updown/libraries/dramalloc/dramalloc_service_core.cpp:188-191 | the rounded size fills whole rows across the nodes and exceeds the size by less than a row |
| Service.ReturnMatches | updown/libraries/dramalloc/dramalloc_service_core.cpp:236-245 | the description given back has the same rectangle as the one taken if and only if the unrounded size fills whole rows |
| Service.ReturnWithin | updown/libraries/dramalloc/dramalloc_service_core.cpp:236-245 | the cells of the description given back are among those of the request, and make them up if and only if the unrounded size fills whole rows |
| Service.FreeKeeps | updown/libraries/dramalloc/dramalloc_service_core.cpp:230-249 | one condition on the row decides whether balance and table survive its removal; the service's own area is never given back |
| Service.DramAllocator.constructor | updown/libraries/dramalloc/dramalloc_service_core.cpp:34-137 | succeeds exactly for a power of two of nodes which, if there are several, have room for a request record each; then the table is empty, and the live requests are the area for those records, or none on one node |
| Service.DramAllocator.TakeRequestArea | updown/libraries/dramalloc/dramalloc_service_core.cpp:98-118 | from the untouched arena it takes exactly that area, at address 0 of all nodes |
| Service.DramAllocator.AllocateMemory | updown/libraries/dramalloc/dramalloc_service_core.cpp:163-209 | which requests fail; otherwise exactly one row with the arguments of the call is appended for a new live request; table rows and live requests other than the service's own area stay in one-to-one correspondence |
| Service.DramAllocator.FreeMemory | updown/libraries/dramalloc/dramalloc_service_core.cpp:211-251 | the first row with the pointer is erased, and no other; the service's own area stays live; the service stays usable if and only if it was given back whole |
| Service.RowsDoNotAlias | updown/libraries/dramalloc/dramalloc_service_core.cpp:389-454 | in every usable state, two addresses of rows starting at node 0 with the same host address are the same address of the same row |
| Service.RowsAvoidReserved | updown/libraries/dramalloc/dramalloc_service_core.cpp:98-118 | no address of such a row is translated into the service's own area |
| Service.RowHostedIff | updown/basimruntime/src/basimupdown.cpp:3095-3100 | all addresses of such a row have host addresses if and only if base and reach stay within a node's share of the memory and the bound of the addition |
| Service.ReachWithin | updown/libraries/dramalloc/dramalloc_service_core.cpp:188-191 | a row reaches no farther than the memory length of its request |
| Service.ShareExceeded | updown/libraries/dramalloc/dramalloc_service_core.cpp:58-64 | four nodes with 4 GiB between them: a request for 3 GiB on two nodes passes the checks, fits the arena and exceeds a node's share |
| Service.OtherRowsMisplaced | updown/libraries/dramalloc/dramalloc_service_core.cpp:196-206 | rows with another start node are translated outside their footprint from the first byte on |
| Service.RowsAlias | updown/libraries/dramalloc/dramalloc_service_core.cpp:196-206 | rows with the same base reach the same host address with their first bytes, whatever their start nodes |
| Bits.PowerOfTwoTest | updown/libraries/dramalloc/alloc.cpp:30-33 | `n & (n - 1)` is zero exactly for powers of two |
| Swizzle.EncodeIs | updown/common/include/memorySegments.h:145-158 | the mask word has the two fields of ones where they belong |
| Swizzle.Decode | updown/common/include/memorySegments.h:167-185 | the three counting loops compute the field widths, and end on every word on which they can end |
| Swizzle.DecodesRuns | updown/common/include/memorySegments.h:167-185 | of every word on which it ends, decoding yields the runs of ones, zeros and ones from the low end, whatever stands above them |
| Swizzle.RunsDecode | updown/common/include/memorySegments.h:167-185 | and these runs alone: a word made of such runs is decoded to them |
| Swizzle.DecodableIff | updown/common/include/memorySegments.h:167-185 | decoding ends except on the words 2^k - 1 |
| Swizzle.DecodeEncode | updown/common/include/memorySegments.h:145-185 | a mask built from its widths is decodable if and only if F and B are positive, and decodes to them |
| Segments.Unpack | updown/common/include/memorySegments.h:25-67 | packing and unpacking an address whose fields fit is the identity |
| Segments.Repack | updown/common/include/memorySegments.h:25-67 | unpacking and packing a word loses exactly its reserved bits |
| Segments.FieldsAre | updown/common/include/memorySegments.h:25-67 | the fields of a word in numbers: quotient by 2^37 modulo 2^14, and remainder by 2^37 |
| Segments.SwizzledIs | updown/common/include/memorySegments.h:472-490 | the bit expression puts a byte on the node, row and place of its block |
| Segments.PlacesAre | updown/common/include/memorySegments.h:472-490 | node and place in numbers: blocks of 2^C bytes go round the 2^B nodes |
| Segments.Forward | updown/common/include/memorySegments.h:441-494 | the forward map lands inside the physical limits |
| Segments.ForwardExact | updown/common/include/memorySegments.h:458-494 | exactly the addresses of the segment are translated, to node and place of their byte behind the base, when node and address of the sum are below 2^14 and 2^36 |
| Segments.InverseExact | updown/common/include/memorySegments.h:497-541 | exactly those places are translated back, each to the address it came from |
| Segments.VirtualRoundTrip | updown/common/include/memorySegments.h:458-541 | the inverse map undoes the forward map on addresses without padding bits |
| Segments.VirtualRoundTripIff | updown/common/include/memorySegments.h:458-541 | ... and, for masks that fill the address field, only on those |
| Segments.PhysicalRoundTrip | updown/common/include/memorySegments.h:458-541 | the forward map undoes the inverse map exactly where the addition passes its bounds |
| Segments.ForwardInjective | updown/common/include/memorySegments.h:458-494 | distinct addresses of a segment go to distinct places |
| Segments.LimitIsTight | updown/common/include/memorySegments.h:415-424 | the physical limit exceeds the place of the last byte by at most a block |
| Segments.MakeSegment | updown/common/include/memorySegments.h:415-424 | the constructor's physical limit lies above every byte of the segment and by at most a block; the segment is in range when the mask's fields and the addresses are |
| Placement.MaskDecodes | updown/libraries/dramalloc/dramalloc_service_core.cpp:381-387 | the service's mask decodes to the widths its translator uses |
| Placement.SingleNodeMask | updown/libraries/dramalloc/dramalloc_service_core.cpp:381-387 | the mask for a single node is one whose decoding never ends |
| Placement.TranslatorsAgree | updown/libraries/dramalloc/dramalloc_service_core.cpp:456-497 | the service's translator and the installed segment agree on every address of a row |
| Placement.LocalAddresses | updown/libraries/dramalloc/dramalloc_service_core.cpp:456-475 | rows on one node are addressed as they are, and so is local memory on the host |
| Placement.InFootprint | updown/libraries/dramalloc/alloc.cpp:35-47 | a byte's place is in the request's footprint exactly when the byte is in its blocks |
| Placement.FootprintFull | updown/libraries/dramalloc/alloc.cpp:35-47 | every cell of the footprint is the place of a byte |
| Placement.NoAliasing | updown/libraries/dramalloc/dramalloc_service_core.cpp:476-490 | no two bytes of live requests share a node and offset |
| Placement.PlainBaseIff | updown/libraries/dramalloc/dramalloc_service_core.cpp:196-206 | the recorded base stands for the request's start if and only if the start node is 0 |
| Placement.FullBaseIff | updown/libraries/dramalloc/dramalloc_service_core.cpp:115-115 | the other encoding does if and only if the base is below 2^27 |
| Placement.TranslatePlaces | updown/libraries/dramalloc/dramalloc_service_core.cpp:456-497 | a translated address is the place of its byte, inside the rectangle handed out |
| Placement.HostRoundTrip | updown/basimruntime/src/basimupdown.cpp:3060-3108 | physical to host address and back is the identity up to reserved bits |
| Placement.HostRoundTripBack | updown/basimruntime/src/basimupdown.cpp:3060-3108 | host to physical address and back is the identity |
| Placement.HostAddressIs | updown/basimruntime/src/basimupdown.cpp:3081-3100 | of every physical word: bytes beyond a node's share have no host address, and the shares follow one another from the base |
| Placement.TranslatedIff | updown/libraries/dramalloc/dramalloc_service_core.cpp:456-497 | an address is translated if and only if node and byte of its place pass the two bounds of the addition |
| Placement.HostedIff | updown/basimruntime/src/basimupdown.cpp:3081-3100 | a translated address has a host address if and only if its byte is below a node's share |
| Placement.ReachIs | updown/libraries/dramalloc/dramalloc_service_core.cpp:476-490 | the reach of a size is the least bound of the places of its bytes |
| Placement.AllHostedIff | updown/basimruntime/src/basimupdown.cpp:3081-3100 | all addresses of an entry have host addresses if and only if its reach stays below both bounds |
| Placement.EndToEnd | updown/basimruntime/src/basimupdown.cpp:3081-3108 | addresses of live requests with the same host address are the same byte of the same request |
| Regions.Canonical | updown/runtime/include/updown.h:260-460 | the region map is determined by the regions handed out, whatever the history |
| Regions.GetThenRemove | updown/runtime/include/updown.h:260-460 | a region handed out and given back leaves the identical map |
| Regions.AllReturned | updown/runtime/include/updown.h:408-459 | when everything has been given back, one free region is left |
| Regions.NoOverlap | updown/runtime/include/updown.h:260-460 | no two regions share a byte |
| Regions.RegionMap.constructor | updown/runtime/include/updown.h:240-249 | one free region |
| Regions.RegionMap.GetRegion | updown/runtime/include/updown.h:260-333 | the first free region in which the bytes have room at a multiple of 8, at the least such address, or failure exactly when there is none; adds exactly the region returned; the map stays a tiling without free neighbours if and only if the size is positive or no padding is cut |
| Regions.RegionMap.GetRegionAtAddr | updown/runtime/include/updown.h:342-399 | picks the last free region of that size at or before the address; the map survives if and only if that region reaches far enough and the size is positive or nothing is left in front |
| Regions.RegionMap.RemoveRegion | updown/runtime/include/updown.h:408-459 | refuses exactly pointers not handed out; otherwise takes exactly that region back and keeps the tiling without free neighbours |
| FreeLists.FitIff | updown/libraries/SpMalloc/SpMalloc.py:175-252 | some run of adjacent free blocks is large enough exactly when coalescing makes a block that is |
| FreeLists.CoalescedKeepsUsed | updown/libraries/SpMalloc/SpMalloc.py:175-200 | coalescing keeps the used blocks in their order |
| FreeLists.CoalescedNoPairs | updown/libraries/SpMalloc/SpMalloc.py:175-200 | coalescing leaves no two adjacent free blocks |
| FreeLists.BlocksDisjoint | updown/libraries/SpMalloc/SpMalloc.py:139-169 | every byte of the heap is in at most one block |
| FreeLists.BlocksCover | updown/libraries/SpMalloc/SpMalloc.py:139-169 | ... and in at least one |
| SpMallocs.SpMalloc.InitAllocator | updown/libraries/SpMalloc/SpMalloc.py:111-137 | the first call makes the bank one free block, later calls change nothing |
| SpMallocs.SpMalloc.FindFreeBlock | updown/libraries/SpMalloc/SpMalloc.py:202-252 | the search ends; it succeeds exactly when a run passes the signed size test, at the block reached by the shortest part of the list; it writes no word of a used block |
| SpMallocs.SpMalloc.AllocateBlock | updown/libraries/SpMalloc/SpMalloc.py:139-169 | splits when two words are left over; the heap stays valid if and only if the register can be the size of the block or of its first part, and then no word of another used block is written |
| SpMallocs.FairHeaders | updown/libraries/SpMalloc/SpMalloc.py:139-169 | when the register can be such a size, the words written are the headers of the parts |
| SpMallocs.UnfairHeaders | updown/libraries/SpMalloc/SpMalloc.py:139-169 | when it cannot, the block is split all the same: the wrapped size marked used is written to its header, the wrapped rest behind it where there is memory, and nothing else |
| SpMallocs.SpMalloc.Malloc | updown/libraries/SpMalloc/SpMalloc.py:202-282 | for every number of words: returns 0 exactly for none or when no run of adjacent free blocks passes the size test; then, and after every request whose register reads as a size, headers tile the bank and live payloads are untouched; for the others the words written are given |
| SpMallocs.SpMalloc.Coalesce | updown/libraries/SpMalloc/SpMalloc.py:175-200 | one round of the search takes in the next block: stepped over, or merged when both are free |
| SpMallocs.RequiredIff | updown/libraries/SpMalloc/SpMalloc.py:217-218 | the register holds (words + 1) * 8 if and only if words are fewer than 2^61 - 1, and besides reads as a positive number if and only if they are fewer than 2^60 - 1 |
| SpMallocs.PassesHolds | updown/libraries/SpMalloc/SpMalloc.py:217-232 | a block that passes the size test holds the words asked for if and only if they are fewer than 2^60 - 1 |
| SpMallocs.GrantHoldsIff | updown/libraries/SpMalloc/SpMalloc.py:202-282 | the free run that a request is granted from passes the size test, and holds the words asked for if and only if they are fewer than 2^60 - 1 |
| SpMallocs.HugeGranted | updown/libraries/SpMalloc/SpMalloc.py:202-282 | 2^60 words are granted exactly when some block is free, and no block can be marked with what the register holds |
| SpMallocs.SpMalloc.Free | updown/libraries/SpMalloc/SpMalloc.py:284-305 | the mask clears the allocation bit of the one header and changes no other word |
| SpMallocs.GrantKeepsUsed | updown/libraries/SpMalloc/SpMalloc.py:139-252 | a granted request adds one used block, of the size asked for or, with less than two words to spare, of the whole run, and keeps every other one |
| SpMallocs.ImplicitFreeListAllocator.Alloc | updown/libraries/SpMalloc/heap_simulator.py:7-26 | first fit with splitting, and the same on the first block of all when nothing fits |
| SpMallocs.SelectedFitsIff | updown/libraries/SpMalloc/heap_simulator.py:12-17 | the block taken is free and large enough if and only if some block is |
| SpMallocs.ImplicitFreeListAllocator.Free | updown/libraries/SpMalloc/heap_simulator.py:28-36 | clears the bit of the block at that address and reports whether there is one |
| SpMallocs.Refines | updown/libraries/SpMalloc/SpMalloc.py:139-252 | on heaps without adjacent free blocks the emitted program returns the simulator's address and leaves its block list |
| SpMallocs.RefinesSuccess | updown/libraries/SpMalloc/heap_simulator.py:12-17 | ... and succeeds exactly when the simulator finds a block |
| SpMallocs.FreeRefines | updown/libraries/SpMalloc/heap_simulator.py:28-36 | freeing has the same effect in both |
| Barrier.SafeOnce | updown/basimruntime/src/basimupdown.cpp:3147-3162 | under every interleaving of single reads and writes nobody leaves the first use before all have arrived |
| Barrier.Reusable | updown/basimruntime/src/basimupdown.cpp:3147-3162 | in every run without an untimely test: safety of every use, generations at most one apart, `status` 0 between uses, and some participant can move |
| Barrier.UntimelyBreaks | updown/basimruntime/src/basimupdown.cpp:3152-3155 | after an untimely test some continuation lets the last participant pass two uses ahead of one that has not arrived |
| Barrier.SecondUseBreaks | updown/basimruntime/src/basimupdown.cpp:3147-3162 | for every N > 1 a run from the initial state, timely until all have arrived, after which the last participant has left the second use and participant 0 has not arrived at it |
| Barrier.SafeIffSingle | updown/basimruntime/src/basimupdown.cpp:3147-3162 | every use is safe under every interleaving if and only if there is one participant |
| Barrier.AtomicRunIsTimely | updown/basimruntime/src/basimupdown.cpp:3152-3155 | every run with write, test and write as one step is a run of single steps without an untimely test |
| Barrier.AtomicReusable | updown/basimruntime/src/basimupdown.cpp:3147-3162 | in every run with that step atomic: safety of every use, generations at most one apart, `status` 0 between uses, and exactly one participant that can move |
| Barrier.AtomicRounds | updown/basimruntime/src/basimupdown.cpp:3152-3155 | taking write, test and write as one step, every step stays in the round or opens the next, and is a run of single steps without an untimely test |
| Barrier.OneEnabled | updown/basimruntime/src/basimupdown.cpp:3147-3162 | with that step atomic, exactly one participant can move in every state of a round |
| Installer.Kept | updown/libraries/dramalloc/dramalloc_linkable.py:57-205 | every delivery keeps the counters equal to the unreturned children and each entry installed at most once |
| Installer.NotifiedWhenDone | updown/libraries/dramalloc/dramalloc_linkable.py:189-205 | the user is told exactly when nothing is in flight, and then every UpDown has installed the entry once |
| Installer.WorkFalls | updown/libraries/dramalloc/dramalloc_linkable.py:57-205 | every delivery brings the end one step nearer |
| Installer.InstalledEverywhere | updown/libraries/dramalloc/dramalloc_linkable.py:57-205 | for every delivery order the user is told after exactly 1 + 66 * nodes deliveries, when all 32 * nodes UpDowns have installed the entry exactly once |
| Installer.Broadcast | updown/libraries/UDMapShuffleReduce/Macro.py:128-155 | the loop sends to the destinations one stride apart, and to one when asked for none |
| Installer.StridesMatch | updown/libraries/dramalloc/dramalloc_linkable.py:70-110 | the strides of the two broadcasts reach lane 0 of every UpDown |
| Throttle.Drain | updown/basimruntime/src/basimupdown.cpp:687-714 | a drainer alone sends the longest admissible prefix of its queue and stays below the limit |
| Throttle.Bounded | updown/basimruntime/src/basimupdown.cpp:1496-1536 | for every interleaving of K drainers the bytes of a tick stay below limit + 88 * (K - 1) |
| Throttle.Attained | updown/basimruntime/src/basimupdown.cpp:691-714 | for every K there is a limit and an interleaving that reach the bound |
| ForestFire.Spreads | updown/apps/pagerank/graph_generators.py:475-497 | fire that takes an unburnt neighbour of a burnt vertex stays duplicate-free and linked to its start through burnt vertices |
| ForestFire.RagesOn | updown/apps/pagerank/graph_generators.py:470-497 | one more vertex that burns on keeps the whole course of the fire: one round after the other, each vertex in the round after the one it caught fire in |
| ForestFire.GraftListed | updown/apps/pagerank/graph_generators.py:406-422 | a vertex joined both ways to some old vertices, each once, adds no duplicate, no loop and no one-way edge |
| ForestFire.GraftConnected | updown/apps/pagerank/graph_generators.py:406-422 | ... and keeps a connected graph connected |
| ForestFire.GrowsOn | updown/apps/pagerank/graph_generators.py:406-422 | one more vertex keeps the whole history of the growth |
| ForestFire.BurntOutKept | updown/apps/pagerank/graph_generators.py:462-497 | a fire in the old graph remains one when later vertices are joined |
| ForestFire.Generator.Burn | updown/apps/pagerank/graph_generators.py:462-497 | the burn ends, with each burnt vertex burning once, round by round, and setting fire to as many of its unburnt neighbours as were drawn for it, or to all; the new list is exactly the burnt vertices in the order in which they caught fire, each once, linked through the old graph |
| ForestFire.Generator.FromSeed | updown/apps/pagerank/graph_generators.py:386-424 | for all starts and draws and every seed without repeated neighbours: the result has the target size, contains the seed as induced subgraph, has loops or one-way edges if and only if the seed has, is connected if the seed is, and the list of each new vertex begins with the trail of such a fire from its start, which is its recorded parent; which arguments are errors |
| Crc.ShiftLinear | updown/basimruntime/src/basimupdown.cpp:383-388 | one shift of the register is linear over exclusive or |
| Crc.TableStep | updown/basimruntime/src/basimupdown.cpp:394-399 | one byte by the table is the same byte bit by bit |
| Crc.InitTable | updown/basimruntime/src/basimupdown.cpp:380-392 | entry i is eight shifts of i |
| Crc.Crc64 | updown/basimruntime/src/basimupdown.cpp:394-399 | for every start and every byte string the table-driven loop computes the reflected CRC taken bit by bit (section 6 of the .xz file format), which is the remainder of Crc.CrcIsRemainder |
| Crc.CrcIsRemainder | updown/basimruntime/src/basimupdown.cpp:375-399 | the checksum of register and bytes, both reflected, is the remainder of start x x^(8n) plus message x x^64 in the division over GF(2) by 0x142F0E1EBA9EA3693 |
| Crc.RemainderUnique | updown/basimruntime/src/basimupdown.cpp:375-399 | there is only one such remainder |
| Crc.GeneratorIs | updown/basimruntime/src/basimupdown.cpp:375-375 | that divisor is the generator of ECMA-182, its 34 powers of x listed |
| Crc.ReversedRegister | updown/basimruntime/src/basimupdown.cpp:375-375 | the source's constant is this polynomial without x^64, its bits reversed |
| Timeline.Averaged | updown/basimruntime/src/basimupdown.cpp:1648-1656 | compaction keeps every slot's rate exact if and only if interval x ticks is even or nothing has been seen |
| Timeline.Conserved | updown/basimruntime/src/basimupdown.cpp:1634-1659 | exact slots times the slot time plus the pending bytes are all bytes seen |
| Timeline.Recorder.AverageInPlace | updown/basimruntime/src/basimupdown.cpp:1649-1656 | the in-place pass computes the averages of the old slots and clears the rest |
| Timeline.Recorder.Tick | updown/basimruntime/src/basimupdown.cpp:1634-1659 | slots, pending cycles and interval always account for all cycles; when exactness survives |
| Timeline.Recorder.Balance | updown/basimruntime/src/basimupdown.cpp:1634-1659 | the state of an exact recorder adds up to everything seen |
| Instances.RowPieceBreaks | updown/libraries/dramalloc/alloc.cpp:77-121 | two requests from a fresh arena, the second of three blocks on nodes 2 and 3: free and live are no partition |
| Instances.SameBase | updown/libraries/dramalloc/alloc.cpp:66-125 | two live requests at the same address of different nodes |
| Instances.OtherBlockSize | updown/libraries/dramalloc/alloc.cpp:127-178 | a request freed with half its block size leaves a balanced arena |
| Instances.OneByteLost | updown/libraries/dramalloc/dramalloc_service_core.cpp:163-251 | one byte on two nodes, taken and given back: its row is gone, its request is not |
| Instances.NothingUnaligned | updown/runtime/include/updown.h:260-333 | no bytes from a region at address 4: the map is no tiling |
| Instances.BeyondRegion | updown/runtime/include/updown.h:342-399 | eight bytes at 12 from a region of 16: the map is no tiling |
| Instances.NothingBehind | updown/runtime/include/updown.h:342-399 | no bytes at 8 from a region of 16: the map is no tiling |
| Instances.OddTicks | updown/basimruntime/src/basimupdown.cpp:1634-1659 | three ticks and one byte in each of 1001 cycles: the slots are wrong |
| Instances.HighBase | updown/common/include/memorySegments.h:458-541 | a segment in range whose first physical address has a virtual address that is not translated |
| Instances.GrantedTwice | updown/libraries/SpMalloc/heap_simulator.py:7-26 | a heap of two words grants the same address twice |

## Left out

- Allocation.Allocator.Allocate: does not say what happens after a removal that starves an inner node of the R-tree; it asks for a request whose chosen block does not do that (always so while the tree has at most two levels, TreeModel.LowTreesDoNotUnderflow), because the leftovers would be put into a tree that RTrees.RTree.Remove shows to be broken.
- Service.DramAllocator.constructor: a machine without nodes divides by zero in the source and is left out; the arena fits 64 bits.  What the request records are used for, and the variant for another simulator with a default block size, are left out.
- Service.DramAllocator.AllocateMemory: the same condition as Allocation.Allocator.Allocate; the address that the virtual memory manager hands out is a parameter, and the rounded size is below 2^64.
- Swizzle.Decode: is asked only for words on which the counting loops end; on the others, exactly the words 2^k - 1 (Swizzle.DecodableIff), the source loops for ever.
- Timeline.Recorder.Tick: with one tick per step the first slots divide by zero in the source; the model starts at two ticks.  Doubles are reals, and the 32-bit width of interval and ticks is not modelled.
- Service.RoundedIsFull: rounding of sizes goes through doubles in the source (dramalloc_service_core.cpp:190; likewise memorySegments.h:423 for Segments.MakeSegment), which is exact below 2^53; here it is done on natural numbers.
- RTrees.SearchStray: concerns one node that a starving removal leaves behind; that blocks below it are lost to a search of the whole tree is not stated.
- Split.QuadraticSplit: keeps entries still to be placed in order of position; the source keeps nodes (not blocks) in a set ordered by address, which can resolve ties between equal gaps differently.
- RTrees.RTree.Add: for a tree of several nodes it does not repeat which leaf took the block and how nodes were split, which the contracts of RTrees.ChooseLeaf, RTrees.RTree.ChangeLeaf and Nodes.SplitInner say.
- Coordinates of rectangles are natural numbers; the allocator proves that all of them lie in an arena whose ends fit a 64-bit word.  Areas wrap.
- Throttle.Bounded: messages have at most 88 bytes, the longest the machine has.
- Barrier: `status` is sequentially consistent; the weaker order of its relaxed loads is not modelled.
- Installer: a reply reaches the continuation its parent saved; the failure reply of a refused allocation and the identical broadcast of a free request are not separate messages here.
- ForestFire: what is drawn is given and any order of a shuffle is possible, so no distribution is claimed; conversion from and to matrices is left out.
- SpMallocs: the emitted program is modelled, not the emission of its text or the register pools; the heap starts at an aligned address and ends inside the bank, as the start-up code sets it, at addresses that read as positive; a word written outside the bank, as with wrong headers, is not followed further, nor are calls after that.
- Regions: the two maps for local and global segments are two objects of the same class; log output is left out.
- Address translation: only the segment constructor with the plain mask is modelled, the one the service's entries use; the other computes no usable physical limit.
- Freeing memory of R-tree nodes, statistics, printing, tracing, memory dumps and databases.
- Lane instruction set, event queues, linker and compiler of the machine; graph readers, RMAT and k-nearest-neighbour generators, GPU scripts and plots.
