# Allocators, index and byte rings of the library, in Dafny

The library is self-contained C: three memory allocators, the intrusive
red-black tree and linked list under them, and two byte rings.  This project
models that core and proves what it promises.

- **Red-black tree** (`RbShape`, `RbBalance`, `RbSteps`, `RbKeys`, `RbErase`,
  `RbTree`, `RbReference`).  `RbTree.Tree` writes the links and colours of node
  objects in the order the C code writes them.  `RbShape` describes links, root and
  in-order positions as one value; every rotation, recolouring, position swap and
  removal is a function on that value.  Deletion rebalances while the doomed node is
  still linked: black heights balance when that node weighs nothing and the cursor
  one black more.  `RbReference` holds the textbook definition on inductive trees and
  shows that the invariant means the same.
- **Buddy allocator** (`Align`, `Buddy`, `MmIndex`, `MmSteps`, `MmOverlap`, `MmPool`,
  `MmLaws`, `MmNodes`).
  `MmPool.Pool` works on block heads, block tails, one free list per order and the
  pool of list nodes.  Its ghost `tiles` says which blocks lie where; `Buddy` proves
  what splitting and merging do to such a tiling, over whole runs.  `MmOverlap` and
  `MmNodes` say exactly when the code leaves it.
- **Page allocator** (`PgIndex`, `PgPool`, `PgLayout`).  Segments of pages in one
  array of descriptors, held both in address order and in lists by log2 of their size.
- **Byte rings** (`Ring`, `RingBuf`, `RingRun`, `NetSend`).  The ring of
  `src/ringbuf.c` for one thread, then for one writer and one reader whose loads,
  byte copies and publications interleave freely, and the send ring of a session,
  drained by send calls that take any part of what they are given.
- **Object caches** (`Bits`, `Slab`, `SlabCache`).  Slabs of up to 64 objects with a
  bitmap, a free count and three lists.
- **Linked list** (`TwoSpeed`, `DList`).  The list with two sentinels, and the check
  that runs two cursors of different speed.

`Arith` and `Lists` hold powers of two, logarithms and lists without repetition.

## Where the code does not do what it means to

Each of these is proved, with a concrete input and the exact condition.

- `mmp_free`, first block of the chunk.  `_prev_block` reads the word in front of the
  chunk as the size of a block.  When that word is 0, the block at offset 0 is its own
  left neighbour, passes the buddy test, and is doubled over its right buddy as soon as
  the list of its order is not empty.  `Pool.Free` returns `Overlapped` exactly then, and
  `DoublesExactly` says when that is by a test on the blocks before the call.
  `OverlapHitsUsed` shows that a block in use always lies in the stretch that is taken
  in.  The word is 0 whenever the number of list nodes is even (`FrontIsLastIdx`);
  `OverlapHappens` is such a pool, three allocations and the free.  Any other word in
  front makes the mask test fail, and every call keeps the invariant.
- `_mmp_init_chunk`, number of list nodes.  A call that finds no spare node writes through
  a null pointer; the model then sets `starved`.  `NodesExactly` gives the number of nodes
  below which some run gets there and from which none does, for every nonempty chunk that
  is laid out: half the number of smallest blocks plus two.  Only blocks of 16 bytes are
  different, since no allocation asks for one (`SixteenByteBlocks`).  `TinyPool` is a
  layout that has too few, and its first allocation runs out.
- `rbuf_write_block` and `_write_send_buf`.  A write that fills the gap to a read
  offset ahead is accepted, and the ring then reads as empty (`Buffer.WriteBlock`,
  `Session.NetSend`).  `FillLosesAll` and `FillLosesSent` are such rings of eight bytes.
  `GapExactly`: from a write on, the bytes read and held are those written in every later
  run that leaves gaps exactly when this write leaves one.  `OnlyOneByteNeedsNoGap`: with
  no condition at all on the writes that holds exactly for a ring of one byte; all other
  results about runs assume a gap, and nothing else.
- `_swap_node`.  It exchanges two nodes unless the first one is the left sibling of the
  second, whose parent keeps its children in place (`SwapNode`, `SwapExactly`);
  `SiblingsNotSwapped` is a tree of three nodes.  Its caller never passes such a pair.
- `mm_cache_create`.  The slab size is computed with a product of 32 bits, which wraps from
  objects of 128 MB on.  `SizingExactly` shows that every accepted cache holds at least 32
  objects a slab exactly below that size, although the count is cut to 16 bits before it is
  limited to 64; `WrappedProduct` is an accepted cache whose slabs hold none.
- `_mm_zcache_new`.  That cut loses objects in some slabs of 1 GB.  `CountExactly` shows that a
  slab holds 64 objects, or all that fit, exactly when its quotient has no more than 16 bits or
  the lowest 16 are 64 or more, and that it does so with every smaller page; `CutCount` is
  a slab with room for 65568 objects that holds 32.
- `_pgp_init_chunk`.  The pages fit behind the descriptors exactly when a page is no
  smaller than a descriptor or a stated slack suffices (`PagesFitExactly`);
  `SmallPagesOverrun` is a pool with pages of two bytes where they do not.

## Reading the model

- Colour and the `using` flag are fields of their own instead of low pointer bits.
  Addresses of nodes matter only for the alignment test of `rb_insert`.
- Integers are unbounded unless a width is written out, as in the sizing of slabs.  The C
  shifts agree with `Pow2` for orders up to 30, the byte and page counts with `long`, and
  the offsets of a session's ring with `int` while write offset and data length together
  stay below 2^31.
- The two comparators of the tree, by key and by section, are one family: a node answers
  to a range of keys.  Under the section comparator `Search` is the lookup that
  `mm_free` makes: it returns the only section that contains the address.
- Blocks of the buddy allocator are offsets from the start of the chunk.  `raw` is what
  the memory held before the pool wrote there, and `front` the word in front of the chunk.
- A machine word is a number; its bits are defined by halving, and setting, clearing and
  complementing are defined on that.
- A list of list nodes or descriptors is a sequence in the allocators; `DList` proves the
  pointer operations against such a sequence.  The tree of segments is its in-order
  sequence, which is what `RbTree.Tree` is proved to keep.
- `is_2power(1)` takes the logarithm of 0, which the instruction leaves undefined; the
  model allows either answer.
- The results of `send` and of `errno` are parameters, as is the address that the page
  allocator returns to an object cache.

## Model

| member | source | states |
|---|---|---|
| RbTree.Tree.constructor | src/rbtree.c:78-84 | an empty tree satisfies the invariant |
| RbTree.Tree.CompareDecides | src/rbtree.c:61-67 | the comparators in terms of the fields: equality of keys, or an address in the section from key up to its end |
| RbTree.Tree.KeysAscend | src/rbtree.c:292-328 | in order the keys ascend, and sections lie one behind the other |
| RbTree.Tree.LeftRotate | src/rbtree.c:124-160 | the link writes have the effect of exchanging a node and its right child in all links at once |
| RbTree.Tree.RightRotate | src/rbtree.c:162-198 | the same for the left child |
| RbShape.RotateLeftLinked | src/rbtree.c:124-160 | a rotation keeps child and parent links consistent and the in-order sequence as it was |
| RbShape.RotateRightLinked | src/rbtree.c:162-198 | the same for the mirrored rotation |
| RbTree.Tree.PushUpStep | src/rbtree.c:217-225 | recolouring under a red uncle moves the only double red to the grandparent and keeps all else |
| RbTree.Tree.FixRR | src/rbtree.c:201-290 | from one double red under a balanced tree, the loop ends in a red-black tree with the same in-order sequence |
| RbTree.Tree.Insert | src/rbtree.c:292-328 | succeeds exactly for an aligned node whose key no node has, or no section contains; the tree stays red-black and sorted and gains that node only; otherwise it is unchanged |
| RbTree.Tree.Walk | src/rbtree.c:341-349 | the descent ends at the node that answers to the key or at the free slot where the key belongs |
| RbTree.Tree.Search | src/rbtree.c:330-356 | finds the only node with the key, or the only section that contains it, and none exactly when there is none, in at most 2 log2(n+1) steps |
| RbTree.Tree.Link | src/rbtree.c:358-371 | both child links and both parent links are set together |
| RbTree.Tree.SwapNode | src/rbtree.c:373-424 | two nodes exchange positions and colours, also when one is the child of the other, exactly unless the first is the left sibling of the second; every other node keeps its place |
| RbSteps.SwapExactly | src/rbtree.c:400-415 | the writes amount to an exchange exactly unless the first node is the left sibling; then the second child write undoes the first and the parent keeps its children |
| RbSteps.SiblingsNotSwapped | src/rbtree.c:400-415 | a root with two children: exchanging them changes nothing |
| RbShape.RenameLinked | src/rbtree.c:373-424 | the exchange leaves one consistent tree whose sequence has the two nodes exchanged |
| RbTree.Tree.TradeWithSucc | src/rbtree.c:631-647 | exchanging a node with its successor keeps a red-black tree, and leaves the node with one child at most |
| RbBalance.LoneChildIsRedLeaf | src/rbtree.c:459-499 | the only child of a node is a red leaf, so dropping the children of the replacement loses nothing |
| RbTree.Tree.Transplant | src/rbtree.c:459-499 | the node is taken out, its only child takes its place, and its own links are cleared |
| RbTree.Tree.Leftmost | src/rbtree.c:502-516 | the first node in order of a subtree |
| RbTree.Tree.Succ | src/rbtree.c:518-535 | the next node in order, or none after the last one |
| RbTree.Tree.RedSiblingStepLeft | src/rbtree.c:551-557 | a red sibling is replaced by a black one; the invariant of the chase holds and the cursor stays |
| RbTree.Tree.BothBlackStep | src/rbtree.c:559-563 | the extra black moves to the parent, whose subtree is larger |
| RbTree.Tree.NearRedStepLeft | src/rbtree.c:566-572 | a red near child becomes a red far child, so the next round is the last one |
| RbTree.Tree.FarRedStepLeft | src/rbtree.c:574-580 | the extra black is used up |
| RbTree.Tree.FixBB | src/rbtree.c:538-621 | the loop ends, and black heights balance when the doomed node, still linked, weighs nothing |
| RbErase.UnlinkKeeps | src/rbtree.c:652-671 | taking the doomed node out of such a tree leaves a balanced one without it |
| RbTree.Tree.RemoveNode | src/rbtree.c:624-693 | leaves a red-black tree whose sequence is the old one without the node, and clears the node's links |
| RbTree.Tree.Remove | src/rbtree.c:695-712 | removes the node with the key, or the section that contains it, and nothing exactly when there is none |
| RbReference.RedBlackIsTextbook | src/rbtree.c:292-328 | the invariant kept by all operations implies the textbook definition of a red-black tree with this in-order sequence |
| RbReference.TextbookIsRedBlack | src/rbtree.c:292-328 | and follows from it |
| RbReference.HeightIsLogarithmic | src/rbtree.c:330-356 | such a tree is at most 2 log2(n+1) high |
| RbKeys.OneHit | src/mmspace.c:478-488 | disjoint sections: one of them at most contains an address |
| RbTree.Tree.OneNode | src/mmspace.c:801-816 | the section that the lookup returns is the only one that contains the address |
| Arith.LeastOrder | src/misc.c:32-35 | rounding up finds the least power of two that is not smaller |
| Arith.Is2PowerIffPower | src/misc.c:42-45 | the test accepts exactly the powers of two, from 2 on |
| Align.MaskIsFloor | src/mmpool.c:504-506 | masking with a negated power of two rounds down to its multiples |
| Align.BuddyMask | src/mmpool.c:504-506 | equal masks tell exactly that the left block is aligned to the doubled size |
| MmPool.FlhIdxIsLeast | src/mmpool.c:245-258 | the list is that of the least block size that holds head, payload and tail; -1 exactly when no size does |
| MmPool.FlhIdxFits | src/mmpool.c:245-258 | rounding and taking logarithms finds the order that a search upward from the lowest one finds |
| MmSteps.NextTestIsBuddy | src/mmpool.c:490-516 | the merge test accepts exactly a free right buddy, and refuses whatever lies behind the chunk |
| MmSteps.PrevTestIsBuddy | src/mmpool.c:518-544 | on the block in front the test accepts exactly a free left buddy |
| MmSteps.BeforeChunk | src/mmpool.c:219-223 | an address in front of the chunk never passes the mask test |
| Buddy.HalvedKeeps | src/mmpool.c:378-384 | splitting keeps an exact tiling without free buddies other than the halves |
| Buddy.TakenKeeps | src/mmpool.c:355-400 | taking a block, split down to an order, keeps the tiling and leaves no two free buddies |
| Buddy.CoalesceKeeps | src/mmpool.c:837-849 | the merge loop ends with no two free buddies and leaves blocks in use alone |
| Buddy.ReleasedKeeps | src/mmpool.c:816-858 | freeing takes exactly one block out of use and coalesces completely |
| Buddy.FreeAtMostHalf | src/mmpool.c:667-667 | between calls at most half as many blocks are free as the chunk has smallest blocks |
| Buddy.FreeInSplit | src/mmpool.c:355-400 | in the middle of a split at most one more |
| Buddy.AllFreeIsInitial | src/mmpool.c:695-709 | when nothing is in use the tiling is the initial one |
| Buddy.RunKeepsTiling | src/mmpool.c:786-858 | over every run of allocations and frees: exact tiling, no free buddies, the bound on free blocks, and the initial tiling once nothing is in use |
| MmPool.Pool.FetchFln | src/mmpool.c:183-194 | takes the first spare list node; runs out exactly when there is none |
| MmPool.Pool.SpareCount | src/mmpool.c:183-194 | every list node is either spare or ties one free block to its list |
| MmIndex.PushKeeps | src/mmpool.c:300-325 | listing a block keeps nodes and blocks mutual inverses and the lists exact |
| MmIndex.UnlinkKeeps | src/mmpool.c:440-452 | unlisting a block does |
| MmIndex.PopKeeps | src/mmpool.c:372-373 | taking the first node of a list holds exactly that node and its block back |
| MmPool.Pool.constructor | src/mmpool.c:625-714 | the filled chunk is tiled by blocks of the highest order, all listed; it runs out of list nodes exactly when there are fewer than such blocks |
| MmPool.Pool.MakeBlock | src/mmpool.c:266-283 | head and tail are written with the size, the node number stays |
| MmPool.Pool.ReturnToHead | src/mmpool.c:300-325 | a spare node is tied to the block and put in front of the list of its order |
| MmPool.Pool.UnlinkBlock | src/mmpool.c:440-452 | the block's node leaves its list and is spare again; refused exactly for an empty list |
| MmPool.Pool.SplitStep | src/mmpool.c:378-384 | one halving keeps heads, lists and tiling in agreement |
| MmPool.Pool.TakeFreeNode | src/mmpool.c:355-400 | fails exactly when no free block is large enough; otherwise a best fit is handed out, or split with its left half in front of the requested list; runs out exactly when there are no more spare nodes than halvings |
| MmPool.Pool.TakeBlock | src/mmpool.c:797-803 | the retry loop ends within two rounds |
| MmPool.Pool.Alloc | src/mmpool.c:786-814 | 0 exactly when no free block holds the payload with 16 bytes more; otherwise the first block in the list of the least order that fits, split to the least order, is in use, and the payload lies behind its head of 8 bytes and ends before its tail of 8; runs out of list nodes exactly under a test on the tiling before the call |
| MmPool.Pool.PayloadApart | src/mmpool.c:157-160 | what lies between head and tail of a block in use touches no other block, head or tail |
| MmPool.Pool.MergeNext | src/mmpool.c:490-516 | joins exactly with a free right buddy |
| MmPool.Pool.MergePrev | src/mmpool.c:518-544 | joins exactly with a free left buddy; the first block takes itself for one exactly under a stated condition, and is then doubled |
| MmPool.Pool.MergeAll | src/mmpool.c:837-849 | the loop reaches the full coalescing |
| MmPool.Pool.Free | src/mmpool.c:816-858 | refused unchanged exactly when no block in use starts there; doubled over its neighbour exactly under a test on the tiling before the call; out of list nodes exactly when more blocks would be free than there are nodes; otherwise released, with everything in agreement and the merged block in front of its list |
| MmPool.Pool.AllReturned | src/mmpool.c:695-709 | once no block is in use the pool has its initial tiling |
| MmPool.Pool.Check | src/mmpool.c:860-919 | 0 for every valid pool, and the free bytes in the chunk are those in the lists |
| MmOverlap.OverlapHitsUsed | src/mmpool.c:219-223 | a block that is merged with itself is doubled over a block in use |
| MmOverlap.DoublesExactly | src/mmpool.c:837-849 | the merge loop gets there exactly when, before the call, some first 2^k bytes hold only the freed block and free ones, the next 2^k bytes a block in use, and a free block of order k lies further on |
| MmLaws.OverlapIsReachable | src/mmpool.c:837-849 | a run of three allocations after which freeing the first block does that |
| MmLaws.FrontIsLastIdx | src/mmpool.c:667-677 | with an even number of list nodes, the word in front of the chunk is the upper half of the last node's number, which is 0 |
| MmLaws.FlawedLayout | src/mmpool.c:665-690 | 256 bytes for blocks of 32 to 128 bytes give four nodes and one largest block |
| MmLaws.OverlapHappens | src/mmpool.c:786-858 | in that pool three allocations and a free double the first block over the second, which is in use |
| MmLaws.NodesAreMost | src/mmpool.c:667-667 | as many list nodes of 32 bytes as fit with a smallest block each |
| MmLaws.LayoutIsGreatest | src/mmpool.c:669-690 | the chunk starts at the least multiple of 64 behind them and is the largest multiple of the largest block that fits |
| MmLaws.LayoutIsConfig | src/mmpool.c:665-693 | nodes and chunk lie between the given bounds, and the chunk is a multiple of the largest block |
| MmNodes.AskIsLeast | src/mmpool.c:245-258 | the least order that an allocation asks for; blocks of 16 bytes never are |
| MmNodes.EnoughForEveryRun | src/mmpool.c:786-858 | with the stated number of list nodes no call of any run finds none spare |
| MmNodes.NodesExactly | src/mmpool.c:667-667 | for every nonempty chunk that is laid out, no run finds none spare exactly when there are so many: half the smallest blocks plus two, above 16 bytes |
| MmNodes.SixteenByteBlocks | src/mmpool.c:644-667 | 96 bytes with blocks of 16 bytes give fewer list nodes than that, and enough |
| MmNodes.TinyLayout | src/mmpool.c:665-690 | 128 bytes for blocks of 32 to 64 bytes give two nodes, where three are needed |
| MmNodes.TinyPool | src/mmpool.c:183-194 | in that pool the first allocation finds no spare node |
| PgPool.Pool.constructor | src/pgpool.c:331-402 | all pages but one largest segment are managed, in free segments of which all but the last have the largest size |
| PgIndex.SpareForSplit | src/pgpool.c:142-148 | a segment that can be split leaves a spare descriptor |
| PgIndex.SpareForAppend | src/pgpool.c:373-396 | the filling loop never runs out of descriptors |
| PgIndex.PagesConserved | src/pgpool.c:471-515 | pages in use and free pages add up to the managed ones |
| PgIndex.CutFits | src/pgpool.c:272-281 | splitting keeps segments contiguous and lists and order in agreement |
| PgIndex.FuseFits | src/pgpool.c:289-304 | merging does |
| PgPool.Pool.CutRank | src/pgpool.c:200-206 | the tree puts the new segment right behind the one it is cut from |
| PgPool.Pool.Scan | src/pgpool.c:244-264 | the search from log2 upward misses no free segment that is large enough |
| PgPool.Pool.PowerCount | src/pgpool.c:238-243 | the shortcut for powers of two takes a segment that is large enough and less than twice as large |
| PgPool.Pool.TakeFreeNode | src/pgpool.c:226-287 | fails exactly when no free segment has enough pages; otherwise takes the first of its list as it is for a power of two, else the first one large enough, cut to size, the rest being one free segment; nothing else changes |
| PgPool.Pool.PowerOf2Is | src/misc.c:42-45 | which page counts take the shortcut |
| PgPool.Pool.MergeFreeNode | src/pgpool.c:289-304 | the successor's pages join, its descriptor is spare, segments in use stay |
| PgPool.Pool.SuccIsNext | src/pgpool.c:309-326 | the successor in the tree is the segment that starts where this one ends, and there is none exactly at the end of the managed pages |
| PgPool.Pool.MergeAll | src/pgpool.c:314-325 | merging takes over free segments behind, and goes on until the segment that starts at the end is in use or too large; all others stay |
| PgPool.Pool.Alloc | src/pgpool.c:471-491 | 0 exactly when no free segment has enough pages; otherwise the address of a segment that was not in use, inside the bytes of the managed pages and large enough, and no other changes |
| PgPool.Pool.InChunk | src/pgpool.c:471-491 | the bytes of a segment in use lie among those of the managed pages |
| PgPool.Pool.BytesApart | src/pgpool.c:471-491 | two segments in use share no byte |
| PgPool.Pool.Free | src/pgpool.c:493-515 | 0 exactly for the address of a segment in use, which leaves, takes over free segments until the one at its end is in use or too large, and comes first in its list; all others stay; a second free is refused unchanged |
| PgPool.LiveDisjoint | src/pgpool.c:471-515 | segments in use are disjoint, of 1 to the maximum of pages, inside the managed ones |
| PgLayout.CountIsMost | src/pgpool.c:361-361 | as many descriptors of 64 bytes as fit with a page each |
| PgLayout.PagesFitExactly | src/pgpool.c:361-369 | the managed pages end within the memory exactly when a page has 64 bytes or more, or what the descriptors' start lacks to a multiple of 64 is no more than the pages held back and the remainder of the division |
| PgLayout.PagesBehind | src/pgpool.c:364-366 | the pages start at the least page boundary behind the least multiple of 64 behind all descriptors |
| PgLayout.SmallPagesOverrun | src/pgpool.c:331-369 | a pool at address 4096 with pages of two bytes where they do not |
| Ring.WriteRoom | src/ringbuf.c:114-142 | a write is accepted exactly when fewer than size bytes result, or when it closes the gap to a reader ahead |
| Ring.ReadRoom | src/ringbuf.c:163-190 | a read is accepted exactly when so many bytes are there; of a wrapped ring one must stay |
| Ring.WriteAppends | src/ringbuf.c:114-142 | the new bytes follow the old ones |
| RingBuf.Buffer.WriteBlock | src/ringbuf.c:100-150 | appends, is refused unchanged, or empties the ring, each exactly when; the write offset advances around the end, the read offset stays |
| RingBuf.Buffer.ReadBlock | src/ringbuf.c:152-198 | takes the oldest bytes off the front, or is refused unchanged, exactly when; the read offset advances around the end |
| RingBuf.Buffer.Reset | src/ringbuf.c:73-86 | the ring is empty |
| RingBuf.FillLosesAll | src/ringbuf.c:114-123 | in a ring of eight bytes, after six written, four read and three written, three more are accepted and all eight are gone |
| RingRun.WriteBranches | src/ringbuf.c:114-142 | whatever branch a stale read offset selects, the bytes go to the places behind the write offset |
| RingRun.InFlightApart | src/ringbuf.c:120-183 | a copy in and a copy out under way touch different bytes |
| RingRun.StepKeeps | src/ringbuf.c:100-198 | every load, copy and publication of either side keeps the invariant |
| RingRun.WholeWrite | src/ringbuf.c:100-150 | a write whose condition holds, with its copies, ends with the bytes accepted and the offset advanced |
| RingRun.WholeRead | src/ringbuf.c:152-198 | a read whose condition holds ends with so many more bytes delivered |
| RingRun.ReadsWhatWasWritten | src/ringbuf.c:100-198 | in every interleaving the bytes read are a prefix of those written, the rest is in the ring, and copies under way are disjoint |
| RingRun.FilledRingReadsEmpty | src/ringbuf.c:114-123 | the steps of a write that fills the gap end in a ring that reads as empty while as many bytes as it has room for are unread |
| RingRun.GapExactly | src/ringbuf.c:100-198 | a write leaves a gap exactly when after every run from it that leaves gaps the bytes written are those read and those the ring holds |
| RingRun.LosingRunLoses | src/ringbuf.c:100-198 | in every ring of two bytes or more a run of four writes and two reads loses a whole ring of bytes |
| RingRun.OnlyOneByteNeedsNoGap | src/ringbuf.c:100-198 | every run without any condition keeps all bytes exactly in a ring of one byte |
| NetSend.Session.SendAll | src/net.c:960-988 | the bytes sent leave the ring in order; it stops only empty, after a part, or when a call takes nothing |
| NetSend.Session.TrySendAll | src/net.c:954-1010 | error exactly when a call fails for good; closed otherwise exactly when closing and empty, with everything accepted sent |
| NetSend.Session.WriteSendBuf | src/net.c:300-345 | bytes are accepted exactly when the writer's condition holds; they follow those held unless they fill the gap, and then the ring is empty |
| NetSend.Session.NetSend | src/net.c:1033-1051 | bytes are accepted exactly when they fit; what is sent stays a prefix of what is accepted; error exactly when refused or when a call fails for good, which closes the session |
| NetSend.FillLosesSent | src/net.c:300-345 | a send buffer of eight bytes in which eight accepted bytes are neither sent nor held |
| NetSend.Session.OnSend | src/net.c:1012-1031 | going on later keeps that, and a willing socket empties the ring; the state afterwards for every state before; a closing session is closed without a failed call only when everything accepted was sent |
| NetSend.Session.Disconnect | src/net.c:1080-1095 | closing unless a call fails or the ring runs empty, and closed exactly then; refused unchanged in every other state; closed without error only when everything accepted was sent |
| Slab.RoundedUp | src/mmspace.c:340-340 | object sizes are rounded up to the least multiple of 8, as long as that fits into 32 bits |
| Slab.AcceptedExactly | src/mmspace.c:342-345 | with less than 4 GB in all, exactly the caches are accepted for which 32 objects and the header fit into the limit less one page |
| Slab.PageBound | src/mmspace.c:342-345 | a cache over pages of 2 GB or more is refused |
| Slab.SizingExactly | src/mmspace.c:310-345 | an accepted cache has at least 32 objects in each slab exactly when the rounded object size is below 128 MB; the objects always fit behind the header |
| Slab.CountExactly | src/mmspace.c:310-311 | a slab holds 64 objects or all that fit exactly when the cut to 16 bits does no harm, which is always so with pages of at most 512 MB |
| Slab.CutCount | src/mmspace.c:310-311 | objects of 16376 bytes over pages of 1 GB, of which a slab holds 32 |
| Slab.WrappedProduct | src/mmspace.c:310-345 | objects of 128 MB over two pages of 4 KB are accepted, and a slab holds none |
| SlabCache.Cache.Create | src/mmspace.c:329-374 | a cache without objects, or none exactly when the slab is not smaller than the largest segment; its objects are no smaller than asked for and less than 8 bytes larger, its slabs the least whole number of pages for 32 of them |
| Bits.BsfFinds | src/misc.c:88-95 | the lowest set bit, or -1 exactly for 0 |
| Slab.NextFreeIsFree | src/mmspace.c:162-171 | the lowest object not in use; none exactly when the free count is 0 |
| Slab.FetchKeeps | src/mmspace.c:190-209 | one bit more and one free object less: bitmap and count agree |
| Slab.ReturnKeeps | src/mmspace.c:211-235 | one bit less and one free object more |
| Slab.MoveKeeps | src/mmspace.c:238-251 | a slab changes lists, and is in no other |
| Slab.ObjectsApart | src/mmspace.c:310-312 | two objects in use share no byte |
| SlabCache.Cache.NewSlab | src/mmspace.c:301-326 | a new slab is empty, sound and in front of the list of empty ones, with its objects at the end of its memory |
| SlabCache.Cache.Alloc | src/mmspace.c:382-420 | fails exactly when no slab has room and no page is left; otherwise hands out the lowest object not in use of the first partly used slab, else of the first empty one, else of a new one |
| SlabCache.Cache.Return | src/mmspace.c:211-235 | refused exactly when no object in use holds the address |
| SlabCache.Cache.Free | src/mmspace.c:422-451 | exactly the object that holds the address is no longer in use, and its slab goes to the front of the list it asks for; a double free is refused unchanged |
| DList.List.InsertBefore | src/dlist.c:41-60 | the node stands right before its successor; refused unchanged exactly for the head sentinel or a missing node |
| DList.List.InsertAfter | src/dlist.c:62-81 | the mirrored insertion |
| DList.List.Remove | src/dlist.c:83-101 | exactly the nodes of the list can be removed, and their links are cleared |
| DList.List.PushBack | src/dlist.c:122-127 | appends |
| DList.List.PushFront | src/dlist.c:129-134 | prepends |
| DList.List.PopBack | src/dlist.c:136-145 | takes the last node, or none exactly from an empty list |
| DList.List.PopFront | src/dlist.c:147-156 | takes the first node, or none exactly from an empty list |
| TwoSpeed.MeetingIsLoop | src/dlist.c:177-190 | cursors that meet prove that the chain never ends |
| TwoSpeed.CursorsMeet | src/dlist.c:177-190 | on a chain without end they have met after as many rounds as there are nodes |
| DList.List.Check | src/dlist.c:172-214 | ends on every finite graph; 0 exactly when the links from head lead to tail and those back from tail to head |
| DList.List.ValidPasses | src/dlist.c:172-214 | every valid list passes the check |

## Left out

- RbTree.Tree.Insert: under the section comparator it asks that the new section meets no other one, unless its first address does; the code compares first addresses only.
- MmPool.Pool.Free: asks for 0 or an address behind a place where a head was written at some time; what a program writes into its blocks, and so a pointer into the middle of a block, is not modelled.
- MmPool.Pool.Free: on an overlap the model stops where the block has been doubled, while the code goes on merging it and lists it again; after an overlap, and after a call that finds no spare list node, nothing more is said of the pool.
- MmPool.Pool.FetchFln: the null pointer that the code writes through when no list node is spare is not followed; the call sets `starved` instead.
- PgPool.Pool.Alloc: asks for at least one byte and, for a power of two of pages, a list of that order, since otherwise the code takes the logarithm of 0 or reads past its lists.
- PgPool.Pool.constructor: asks that at least one descriptor fits, and takes the descriptors to be zero before they are first used, as fresh shared memory is; the result variable that the filling loop tests is never set by the code and is left out.
- SlabCache.Cache.Alloc: asks that the page handed in overlaps no slab; recalling empty slabs of other caches when pages run out, constructors and destructors are left out.
- SlabCache.Cache.Create: asks for a rounded object size from 1 to below 128 MB, since with 0 the code divides by zero and above it the slabs hold no 32 objects (`WrappedProduct`); the name, the table of names and the memory of the cache itself are left out.
- SlabCache.Cache.Free: freeing through the wrong cache, which the code's scan for a label lets through and which moves the slab between lists of the other cache, is not modelled.
- SlabCache.Cache.SlabOf: finds the slab from its memory; the scan for its label is left out.
- MmLaws.LayoutIsConfig: asks, as do `LayoutOf` and all lemmas about it, that the memory does not end before the list nodes start; the code then divides a negative difference as an unsigned number.
- DList.List.InsertBefore: asks that the node is not in the list yet; the code then links it a second time.
- DList.List.InsertAfter: the same.
- DList.List.PushBack: the same.
- DList.List.PushFront: the same.
- DList.List.Remove: asks that a node outside this list is not linked on both sides into another one, from which the code would take it.
- RingBuf.Buffer.WriteBlock: lengths are natural numbers; a negative length, which the source's type allows, is not modelled.
- RingBuf.Buffer.ReadBlock: the same.
- NetSend.Session.NetSend: a data length that together with the write offset reaches 2^31, where the sum overflows `int`, is not modelled.
- PgLayout.PagesFitExactly: asks that the descriptors start within the memory and that more pages are found than one segment may have.
- NetSend.Session.Close: freeing the session and telling its owner are left out, as are receiving, connecting and polling.
- Reordering of memory accesses by compiler or processor: the steps of `RingRun` take effect in program order, with copies in any order.
- Flags for blocks of odd size, block sparing and the other merging routines of src/mmpool.c, which no call reaches.
- Loading and destroying pools, shared memory, areas and sections of src/mmspace.c beyond the lookup of a section.
- Timers, hash tables, graphs, plain binary trees, radix trees, stacks and tasks.
