# Proofs about the Mint kernel

This project models the parts of the Mint kernel (x86_64) whose correctness is
least obvious from reading one function, and proves what they keep over whole
runs.  `dafny verify dfyconfig.toml` checks everything.

- **Kernel heap** (`HeapView`, `HeapChoice`, `HeapLinks`, `Heap`).  `HeapView` says what
  `malloc`, `free` and `realloc` do to a list of majors, each with its minors in
  address order; `HeapChoice` says in addresses and free bytes alone which major
  they choose, where in it, and which becomes the best bet.  `HeapLinks` says how the doubly linked headers in memory
  encode such a list.  `Heap` is the code itself: headers relinked in place, the
  five-case search with its best bet and single restart, the byte that `ALIGN`
  hides.  Each of its methods takes the view to what `HeapView` says.
- **Page tables** (`PageTables`, `Paging`).  `PageTables` is the tree of frames
  and the hardware walk over it; `Paging` is `arch_virtual_map`,
  `arch_virtual_unmap` and `virtual_map`, which edit the tree through recursive
  slot 510 and take table frames from an allocator that itself maps a scratch
  page while a map is under way.  The format is 4-level paging with 4 KiB pages,
  section 4.5 of the Intel 64 and IA-32 Architectures SDM, Volume 3A.
- **Buddy allocator** (`Stacks`, `Bitset`, `Log2`, `Blocks`, `BuddyView`,
  `BuddyChoice`, `Buddy`).  The free stacks keep their links in the free pages themselves; the
  blocks handed out and the blocks on the stacks tile the area given to the
  allocator, each byte once.
- **Scheduler** (`Ring`, `Lists`, `RunQueue`).  The circular run queue, with
  fairness over runs of ticks, insertions and removals.
- **Clock** (`ClockView`, `Clock`, `Spinlock`).  Accumulated time over runs of
  updates and source switches, the choice of the source, and any number of
  threads that interleave `time_update` and `ktime_get` one memory access at a
  time.
- **Formatting** (`Numerals`, `Printf`) and **hash map** (`HashMap`).
- `Arithmetic`, `Bits`, `Words`, `Sequences` and `Options` hold what the others
  share.

Where a property one would expect is false of the code, the project keeps the
code as it is, gives an input or a run that shows it, and proves when the
property does hold:

- `buddy_free` keeps the tiling if and only if its merge loop stops at once
  (`BuddyView.FreeKeepsInvIff`, `BuddyView.MergeExample`): the loop neither takes
  the partner off its stack nor rounds the address down.
- `arch_virtual_unmap` gives the recursive slot its old value back if and only
  if the page was mapped or the slot pointed to the context already
  (`Paging.Mmu.Unmap`, `Paging.SlotLeft`): the early returns skip the last
  assignment.
- A new major has room for the request that made it if and only if the request
  is below a bound (`HeapView.NewMajorHasRoomIff`, `HeapView.NewMajorTooSmall`).
- A thread that is dropped and added again while it runs is chosen again at
  every tick (`Ring.Starves`); dropping the current thread delays exactly the
  threads behind it, unless it is first on the ring (`Ring.RemoveCurrentWait`,
  `Ring.DropDelays`).  After a tick on an empty ring the cursor stays on the idle
  thread, and a later tick is safe only while the ring is empty
  (`Ring.IdleForever`, `Ring.TickThenAdd`).
- A clock reading counts in full if and only if its product fits in 64 bits
  (`ClockView.GainFullIff`, `ClockView.FullCountIff`, `ClockView.WrapLosesTime`).
- `tv_nsec` stays right if and only if its sum before the carry fits in a long
  (`ClockView.NsecRightIff`), as it always does from 3 Hz on
  (`ClockView.ThreeHertz`) and not below (`ClockView.SlowSources`).  What
  `ktime_get` returns is right in 64 bits all the same (`ClockView.RunSum`), and
  goes back if and only if the whole no longer fits (`ClockView.NeverBackIff`).
- With other threads at work `ktime_get`, which loads the two words of the time
  without the lock, returns the accounted time if and only if as many seconds had
  been given to `tv_sec` when that was loaded as had been taken from `tv_nsec` when
  that was (`Spinlock.ReadIff`).  Else it is off by as many seconds, and can go
  back (`Spinlock.GoesBack`).
- `%ld` prints the right number if and only if it is above the least int and fits
  in an int (`Printf.LongSignedIff`, `Printf.LongPrintedWrong`,
  `Printf.LeastIntPrintedWrong`), and `%lo` if and only if it fits in an unsigned
  int (`Printf.OctalIff`, `Printf.OctalPrintedWrong`).
- The terminating zero of `vsnprintf` goes past a buffer of `size` bytes if and
  only if the text does not fit with it (`Printf.Vsnprintf`).
- The bit of an address is inside a buddy bit set if and only if the address is
  below an end that depends on the size alone (`Buddy.MarkFitsIff`), although
  mm/physical.c gives its normal region a base: all bits of such a region are
  inside if and only if it ends by then (`Buddy.RegionFitsIff`,
  `Buddy.NormalRegionOutside`).
- `a2u` undoes `ui2a` if and only if the number fits in an int
  (`Numerals.A2uUndoesPrint`, `Numerals.A2uTooLarge`).  It takes `:` for a digit of
  value ten (`Numerals.ColonIsTen`).  Its only caller puts nothing but digits into
  `padding[5]` (lib/printf.c:205-211), but no terminator either: what follows them
  is whatever the stack held.  Whatever that is, the width is read right if and
  only if it does not change the number in 32 bits (`Numerals.A2uReadsExactly`);
  while the whole stays an int, if and only if no digit and no colon follows, or
  only zeros after a zero (`Numerals.WidthReadsRightIff`,
  `Numerals.A2uReadsRightIff`, `Numerals.StrayWidth`).

## Model
| member | source | states |
|---|---|---|
| Heap.Heap.Malloc | mm/heap.c:270-513 | takes the heap to `HeapView.Malloc` of the old one and returns its pointer, through headers relinked in place; which major, gap and best bet that is, is said by `HeapChoice.MallocPlaces` and `HeapChoice.MallocAppends`; terminates for every heap state in spite of the restart; changes no byte but the new block's prefix; one warning when the system refuses, no error |
| Heap.Heap.Round | mm/heap.c:319-508 | one round of the search: the block that `HeapView.Malloc` gives, or a step to the next major, back to the root or to a new major, each of the last two at most once; the best bet weighed against this major as `HeapChoice.ScanMost` says |
| Heap.Heap.Free | mm/heap.c:515-590 | takes the heap to `HeapView.Free`, for NULL, live and already freed pointers, with the warning and error counts |
| Heap.Heap.Realloc | mm/heap.c:606-665 | takes the heap to `HeapView.Realloc`; the first min(old, new) bytes survive, and so does every byte any other live block owns; the warning, error and overrun counts |
| Heap.Heap.Memcpy | mm/heap.c:206-227 | copies exactly the given bytes, word by word and then byte by byte |
| Heap.Heap.AllocateNewPage | mm/heap.c:231-268 | page count, header and totals of a new major, above every earlier region: below the bound, the least number of whole pages, at least 16, that holds the request and both headers; NULL and a warning when the system refuses |
| Heap.Heap.Grow | mm/heap.c:344-349 | a new major linked after the last one leaves the heap well linked |
| Heap.Heap.Align | mm/heap.c:128-138 | the pointer that `UserPtr` names, with its distance to the minor stored before it |
| Heap.Heap.Unalign | mm/heap.c:140-146 | leads from every live pointer back to exactly the minor `ALIGN` hid |
| Heap.Heap.FindGap | mm/heap.c:379-490 | finds the lowest gap of a major that fits, with the minors on both sides, or that there is none |
| Heap.Heap.Place | mm/heap.c:354-486 | one placement, whatever the case: header, neighbours, usage, total and prefix |
| Heap.Heap.Write | mm/heap.c:128-146 | a user write inside an owned block leaves the whole heap structure valid |
| HeapView.MallocOutcome | mm/heap.c:296-513 | NULL exactly when no gap of any major fits and the system refuses; a new major exactly when no gap fits; else the lowest fitting gap of one major and nothing else |
| HeapView.MallocKeepsInv | mm/heap.c:270-513 | majors disjoint and ordered, minors ordered, disjoint and inside their major, no empty major, the best bet NULL or listed |
| HeapView.MallocTotals | mm/heap.c:188-190 | `l_inuse` and `l_allocated` grow by the padded size and, with a new major, by its size |
| HeapView.GapWithinUnused | mm/heap.c:320-335 | no gap exceeds the unused total, so CASE 1 never skips a major that would fit |
| HeapView.HasRoomIff | mm/heap.c:379-490 | first fit succeeds exactly when some gap fits |
| HeapView.ChosenHasRoomIff | mm/heap.c:309-513 | the search ends in a major exactly when some major has a fitting gap |
| HeapView.NewMajorHasRoomIff | mm/heap.c:231-268 | with 32-bit header fields, a new major has room for its request exactly below a bound |
| HeapView.NewMajorTooSmall | mm/heap.c:231-268 | the least request above the bound makes a major of size 0 |
| HeapView.BetAfterSearch | mm/heap.c:323-327 | whatever the search visits, the best bet is NULL or a listed major |
| HeapView.UserPtr | mm/heap.c:128-138 | 16-aligned, with prefix and padding inside the minor |
| HeapView.BlocksApart | mm/heap.c:354-490 | any two live minors and all headers are disjoint |
| HeapView.OwnedByteExclusive | mm/heap.c:128-146 | a byte a block owns, prefix included, is in no header and in no other block |
| HeapView.PtrUnique | mm/heap.c:525-530 | a pointer belongs to one live minor only |
| HeapView.MallocKeepsBlock | mm/heap.c:354-486 | every live block survives a malloc unchanged and differs from the new one |
| HeapView.OldBytesSpared | mm/heap.c:354-486 | neither malloc nor the user of its result touches a byte of an older block |
| HeapView.ReleaseKeepsInv | mm/heap.c:547-587 | unlinking a minor, and its major when that was its last, keeps the structure |
| HeapView.ReleaseTotals | mm/heap.c:549-576 | both totals go down by what was given back |
| HeapView.FreeUndoesMalloc | mm/heap.c:515-590 | freeing the pointer malloc returned restores all majors, minors and both totals, also when a major was created |
| HeapView.FreeAt | mm/heap.c:525-547 | free acts on the one minor its pointer belongs to |
| HeapView.ShrinkKeepsInv | mm/heap.c:651-655 | resizing in place keeps the structure |
| HeapView.ReallocAt | mm/heap.c:606-665 | in place when the block is large enough, else a malloc followed by a free |
| HeapView.StepKeepsInv | mm/heap.c:270-665 | every malloc, free and realloc keeps the structure |
| HeapView.RunKeepsInv | mm/heap.c:270-665 | every run from the empty heap keeps the structure |
| HeapChoice.MallocPlaces | mm/heap.c:309-490 | a request that fits goes into the first major where it does, counted from the best bet on and then from the root if that has more unused bytes than needed, else from the root; into the lowest gap that fits, right behind what comes before it; the best bet is then the first among the old one and the majors looked at with the most unused bytes |
| HeapChoice.MallocAppends | mm/heap.c:328-352 | a request that fits nowhere goes into a new major, or the heap stays as it is when the system refuses; the best bet is the first among the old one and all majors with the most unused bytes, the new one weighed with them exactly when it is the first or the last one had enough unused bytes in all |
| HeapChoice.TourDecides | mm/heap.c:309-352 | one of these two cases holds, and not both |
| HeapChoice.ScanMost | mm/heap.c:320-327 | weighing majors one after the other keeps the first of those with the most unused bytes |
| HeapChoice.VisitedIsTour | mm/heap.c:309-342 | the majors looked at are exactly those of that tour up to the first where the request fits |
| HeapChoice.NewMajorIsLeast | mm/heap.c:231-268 | below the bound, the least number of whole pages, at least 16, that holds the request and both headers |
| HeapChoice.ReleaseChooses | mm/heap.c:547-587 | one minor leaves, and its major if that was the last; the best bet goes with its major, else this major becomes it exactly when it then has more unused bytes as an int |
| HeapChoice.ReallocStays | mm/heap.c:651-655 | a block that is large enough keeps its place and size, and only its asked size changes |
| HeapChoice.UnusedIsRooms | mm/heap.c:320-320 | size less usage is exactly the free bytes before, between and behind the minors |
| Heap.ReallocCases | mm/heap.c:606-665 | size 0 frees, NULL allocates, a pointer that is not live changes nothing |
| HeapLinks.SpliceLinks | mm/heap.c:386-475 | writing one header and two links inserts a minor into the encoded list |
| HeapLinks.UnspliceLinks | mm/heap.c:552-560 | two links remove it |
| HeapLinks.AppendMajor | mm/heap.c:344-349 | linking a new major encodes the longer list |
| HeapLinks.RemoveMajor | mm/heap.c:566-578 | unlinking an empty major encodes the shorter list |
| HeapLinks.ScrubLinks | mm/heap.c:97-101 | unmapping an empty major takes no live header with it |
| HeapLinks.PrefixesInsert | mm/heap.c:137-137 | a new prefix byte leaves all others alone |
| HeapLinks.PrefixesWrite | mm/heap.c:140-146 | no in-bounds user write reaches a prefix |
| PageTables.EntryValue | arch/include/x86_64/mm/mm.h:89-103 | the ORed fields do not overlap; the sign extension is exactly bit 47 |
| PageTables.PathDigits | arch/include/x86_64/mm/mm.h:39-66 | the four indices are the base-512 digits of the page number |
| PageTables.PathOfEntry | arch/include/x86_64/mm/mm.h:39-103 | the index macros invert `entry_to_address` |
| PageTables.FractalWalk | arch/include/x86_64/mm/mm.h:89-103 | with slot 510 pointed at a context that maps itself, the four addresses lead the hardware to that context's PML4, PDPT, PD and PT, live or not |
| PageTables.ReachLevel | arch/include/x86_64/mm/mm.h:64-66 | a walk of k steps ends in a table of level 4 - k, owned by the slot it came through |
| PageTables.ReachUnique | arch/include/x86_64/mm/mm.h:64-66 | every table frame is reached along one path from one root |
| PageTables.LeafEdit | arch/x86_64/mm/map.c:112-113 | writing one leaf entry updates one page of one context and no other |
| PageTables.FlagEdit | arch/x86_64/mm/map.c:94-94 | rewriting the flags of an intermediate entry changes no translation |
| PageTables.SpecialEdit | arch/x86_64/mm/map.c:74-76 | writing slot 510 is invisible to ordinary addresses |
| PageTables.LinkTree | arch/x86_64/mm/map.c:93-101 | a zeroed frame in an absent slot keeps the tree, with one owner for each table |
| PageTables.LinkTranslation | arch/x86_64/mm/map.c:93-101 | and no translation changes |
| PageTables.LinkReach | arch/x86_64/mm/map.c:93-101 | and only the path to the new table comes to life |
| PageTables.UnlinkTree | arch/x86_64/mm/unmap.c:92-96 | taking an empty table out keeps the tree, whatever the freed frame then holds |
| PageTables.UnlinkTranslation | arch/x86_64/mm/unmap.c:92-96 | and no translation changes |
| Paging.Mmu.Map | arch/x86_64/mm/map.c:58-121 | a function update of translation: the page is present in the frame physical / 4096, writable, user, global and no-execute exactly when bits 1 to 4 of the flags are set; every other page of every context translates as before; the missing tables, and no more, are taken from the free frames; the recursive slot has its old value back |
| Paging.LeafShows | arch/x86_64/mm/map.c:49-56 | that meaning of the entry written, bit by bit |
| Paging.Mmu.Ensure | arch/x86_64/mm/map.c:39-56 | one intermediate table: allocated and zeroed if absent, although the allocation maps the scratch page in between |
| Paging.Mmu.EnsureAll | arch/x86_64/mm/map.c:92-111 | all three tables of the page exist afterwards |
| Paging.Mmu.Alloc | lib/stack.c:62-71 | taking a frame maps the scratch page, through the same recursive slot, and restores the slot |
| Paging.Mmu.PhysicalFree | lib/stack.c:54-60 | giving a frame back writes its link through the scratch page |
| Paging.Mmu.MapRange | mm/virtual.c:44-54 | every page that begins inside the range translates to its frame, with the rights the flags ask for; every page outside as before |
| Paging.Mmu.TableIsEmpty | arch/x86_64/mm/unmap.c:40-47 | true exactly when no entry is present |
| Paging.Mmu.IsMapped | arch/x86_64/mm/unmap.c:83-90 | the four presence tests decide whether the page translates |
| Paging.Mmu.Release | arch/x86_64/mm/unmap.c:92-96 | one bottom-up step: nothing, or the table leaves the tree and its frame is free |
| Paging.Mmu.Unmap | arch/x86_64/mm/unmap.c:49-113 | removes exactly one translation and exactly the tables that became empty; tables and free frames together stay the same; no new empty table; the slot is restored if and only if the page was mapped or the slot pointed there already |
| Paging.SlotLeft | arch/x86_64/mm/unmap.c:83-90 | a page not mapped in another context, after whose unmapping the slot still points there |
| Paging.LinkMoment | arch/x86_64/mm/map.c:93-101 | hooking in a table keeps the whole state sound |
| Paging.UnlinkMoment | arch/x86_64/mm/unmap.c:92-96 | taking one out keeps it sound |
| Paging.PagesDiffer | mm/virtual.c:44-54 | distinct pages of a range have distinct paths |
| Stacks.Stacks.constructor | lib/stack.c:48-52 | all stacks empty |
| Stacks.Stacks.Push | lib/stack.c:54-60 | pushing a page that is in no stack appends to one sequence and changes no other |
| Stacks.Stacks.Pop | lib/stack.c:62-71 | the last address pushed, 0 if there is none, and 0 may itself have been pushed; no other stack changes |
| Stacks.Stacks.Scribble | lib/stack.c:38-46 | writing a page that is in no stack disturbs none |
| Stacks.PagesDistinct | lib/stack.c:54-60 | no page is in the stacks twice |
| Stacks.PushSpells | lib/stack.c:54-60 | the link written makes the chain spell the longer sequence |
| Stacks.PopSpells | lib/stack.c:62-71 | the link read leaves the chain of the rest |
| Log2.Log2 | include/lib/math.h:55-73 | the exact ceiling of the logarithm for every 64-bit input; 0 gives 0 |
| Log2.CeilLog2 | include/lib/math.h:55-73 | the least y with x <= 2^y |
| Log2.MaskTest | include/lib/math.h:57-65 | one masked test decides whether a bit of the upper half is set |
| Bitset.SetBit | include/lib/bitset.h:44-44 | sets one bit and no other |
| Bitset.UnsetBit | include/lib/bitset.h:45-45 | clears one bit and no other |
| Bitset.TestIsBit | include/lib/bitset.h:46-47 | tests one bit of one byte |
| Bitset.FullBit | include/lib/bitset.h:41-47 | a full set has every bit set |
| Blocks.UpperHalf | lib/buddy.c:39-39 | BUDDY_ADDRESS of an aligned block is its upper half |
| Blocks.SplitTiles | lib/buddy.c:85-92 | a block may be replaced by its halves |
| Blocks.OwnPageFree | lib/stack.c:54-60 | no byte of a block apart from all free blocks lies on a page with a link |
| BuddyView.OrderFor | lib/buddy.c:65-67 | the least order that is allowed and holds the size |
| BuddyView.HalvedSplits | lib/buddy.c:85-92 | a split from order k to o leaves one block and one buddy for each order in between, in the place of the old block |
| BuddyView.AllocKeepsInv | lib/buddy.c:61-98 | keeps the tiling and the area; the block granted is new, aligned, large enough, inside the area and apart from every other |
| BuddyView.GrantsIff | lib/buddy.c:65-81 | fails exactly when no free block is large enough |
| BuddyView.FreeKeepsInvIff | lib/buddy.c:100-114 | giving back keeps the tiling if and only if the loop does not merge |
| BuddyView.MergeExample | lib/buddy.c:103-113 | a merge that puts one page into two free blocks |
| BuddyView.SplitThenFreeQuiet | lib/buddy.c:61-114 | a block split off for a request can be given back at once without a merge |
| BuddyView.FreeUndoesAlloc | lib/buddy.c:61-114 | giving back a block that was not split restores the stacks |
| BuddyView.RunTiles | lib/buddy.c:61-114 | after every run of requests and unmerged releases the blocks tile the area of the start |
| BuddyView.FreshInv | lib/buddy.c:42-59 | the allocator starts with nothing |
| BuddyView.RegionStepQuiet | lib/buddy.c:116-128 | no chunk of an aligned, unknown region meets a free partner |
| BuddyChoice.StopOrderIff | lib/buddy.c:103-113 | the merge loop stops at the one order where the partner's mark is set, or at the highest, with clear ones at every order before |
| BuddyChoice.FreeOutcome | lib/buddy.c:100-114 | what lies on which stack, and which marks, blocks and bytes change, for that order |
| BuddyChoice.AllocOutcome | lib/buddy.c:61-98 | the newest block of the first stocked order is taken; its lower end is handed out, every order between gains the upper half, and just its marks are set |
| BuddyChoice.AllocFails | lib/buddy.c:65-81 | nothing changes if no order from the least that holds the size is stocked |
| BuddyChoice.PartnerIndex | lib/buddy.c:39-40 | the partner's bit is the other one of a pair |
| Buddy.MarkFitsIff | lib/buddy.c:39-54 | the bit of an address is inside its set exactly below one end, whatever the base |
| Buddy.RegionFitsIff | mm/physical.c:48-58 | all bits of a region with a base are inside the set exactly when the region ends by then |
| Buddy.NormalRegionOutside | mm/physical.c:48-58 | the normal region of a machine with 32 MiB, none of whose pages has a bit inside the set |
| Buddy.WholeInBounds | lib/buddy.c:103-113 | with a size that is a multiple of the largest block the merge loop stays inside the bit sets, for addresses below the size |
| Buddy.SpaceIsLeast | include/lib/bitset.h:38-39 | the least number of bytes with a bit for each whole block |
| Buddy.GainTotal | lib/buddy.c:116-128 | the blocks that a region gives add up to its length but for less than the smallest, at most one of each order below the highest |
| Buddy.Init | lib/buddy.c:42-59 | NULL exactly without a size or an order, else the fresh allocator |
| Buddy.Buddy.constructor | lib/buddy.c:48-58 | empty stacks and full bit sets |
| Buddy.Buddy.Alloc | lib/buddy.c:61-98 | takes the allocator to `BuddyView.Alloc`; the newest block of the first stocked order from the least that holds the size, each order between gets the upper half; or 0 with nothing changed |
| Buddy.Buddy.FindOrder | lib/buddy.c:70-81 | the first order above with a block, if there is one |
| Buddy.Buddy.Carve | lib/buddy.c:85-92 | the splitting loop |
| Buddy.Buddy.Free | lib/buddy.c:100-114 | takes the allocator to `BuddyView.Free`: goes up while the partner's mark is clear and pushes the block where it is set, or at the highest order; clears exactly its marks on the way; its invariant survives if and only if the loop does not merge |
| Buddy.Buddy.FreeRegion | lib/buddy.c:116-128 | exactly the largest prefix that is a multiple of the smallest block becomes free, one block for each binary digit of the length and the rest at the highest order |
| Buddy.Buddy.Write | lib/stack.c:38-46 | the owner of a block may write any of its bytes |
| Lists.Init | include/lib/list.h:51-55 | a circle of one |
| Lists.Add | include/lib/list.h:57-64 | the element becomes the first of the circle |
| Lists.AddTail | include/lib/list.h:66-73 | the element becomes the last |
| Lists.Delete | include/lib/list.h:75-81 | the circle without the element, whose links are NULL |
| Lists.EmptyIff | include/lib/list.h:83-86 | empty exactly when the head is alone |
| Ring.TickWait | tm/sched.c:95-111 | each tick brings a waiting thread one closer, and the thread that runs is the one with wait 1 |
| Ring.InsertWait | tm/sched.c:81-85 | a newcomer delays a thread by at most one tick, and exactly those the cursor reaches after passing the head |
| Ring.RemoveWait | tm/sched.c:87-93 | dropping another, not current thread never delays a thread |
| Ring.RemoveCurrentWait | tm/sched.c:87-93 | dropping the current thread delays a thread exactly when it is behind it and it is not first |
| Ring.DropDelays | tm/sched.c:87-93 | three threads on which it does |
| Ring.Fair | tm/sched.c:81-111 | over every run that does not drop a thread, nor a current thread whose going would delay it, it runs by the time the ticks outnumber its wait and the newcomers |
| Ring.FullTurn | tm/sched.c:95-111 | undisturbed ticks return the threads in ring order |
| Ring.BackToStart | tm/sched.c:95-111 | n ticks on a ring of n run each thread once and bring the cursor back |
| Ring.Starves | tm/sched.c:81-111 | a current thread dropped and added again is chosen at every tick |
| Ring.IdleForever | tm/sched.c:97-104 | once a tick found the ring empty the cursor stays on the idle thread, and a tick is safe only while the ring is empty |
| Ring.TickThenAdd | tm/sched.c:97-104 | a tick on an empty ring and one newcomer after which the next tick is not safe |
| RunQueue.RunQueue.Insert | tm/sched.c:81-85 | the pure insertion, on real links; the count is the ring's length |
| RunQueue.RunQueue.Remove | tm/sched.c:87-93 | the pure removal, on real links |
| RunQueue.RunQueue.Next | tm/sched.c:95-111 | the pure tick, skipping the list head |
| ClockView.AdvanceSum | kernel/time/time.c:40-70 | with tv_sec a 64-bit word and tv_nsec a long: the 64-bit sum of the two takes exactly what the reading is worth, whatever becomes of tv_nsec |
| ClockView.GainIs | kernel/time/time.c:40-43 | the cycles since the last reading in 64 bits, times 10^9 in 64 bits, shared out by the frequency |
| ClockView.AdvanceOutcome | kernel/time/time.c:52-70 | the reading is remembered, tv_nsec keeps a long of its sum with the gain, and whole seconds of a positive one go to tv_sec in 64 bits |
| ClockView.NsecRightIff | kernel/time/time.c:62-68 | tv_nsec stays right, and below 10^9, exactly when the sum before the carry fits in a long |
| ClockView.NanosStepIff | kernel/time/time.c:62-68 | the two words count the reading in full, and do not go back, exactly when moreover tv_sec does not wrap around |
| ClockView.ThreeHertz | kernel/time/time.c:40-62 | from 3 Hz on the long is always wide enough |
| ClockView.SlowSources | kernel/time/time.c:40-62 | readings at 1 and 2 Hz for which it is not |
| ClockView.RunNormal | kernel/time/time.c:52-78 | over every run with sources of 3 Hz or more tv_nsec is in [0, 10^9) |
| ClockView.RunSum | kernel/time/time.c:45-78 | over every run of updates and source switches ktime_get returns the sum of all gains in 64 bits |
| ClockView.NeverBackIff | kernel/time/time.c:45-78 | over every run what it returns never goes back exactly as long as the whole fits in 64 bits |
| ClockView.Accuracy | kernel/time/time.c:40-70 | between switches the gains never exceed what the source counted and are behind by less than 1 ns for each update, and the 64-bit sum takes exactly them |
| ClockView.GainFullIff | kernel/time/time.c:40-43 | a reading is worth its cycles, to the nanosecond below, exactly when the product fits in 64 bits; else it is worth less |
| ClockView.FullCountIff | kernel/time/time.c:40-70 | an update adds just that exactly when moreover the two words can take it |
| ClockView.WrapLosesTime | kernel/time/time.c:40-43 | a reading that is cut |
| Clock.Clock.Update | kernel/time/time.c:52-70 | the carry loop computes the pure update, signed tv_nsec and wrap-around included; nothing happens without a source |
| Clock.Clock.Get | kernel/time/time.c:45-50 | returns the 64-bit sum, which takes exactly the gain; it is not less than before exactly when old sum and gain fit in 64 bits |
| Clock.Clock.UpdateSource | kernel/time/time.c:72-78 | takes over the source and its reading, and keeps the accumulated time |
| Clock.Clock.Register | kernel/time/clocksource.c:60-66 | the current source has the highest rating registered; it changes only for a strictly higher one |
| Clock.Clock.Select | kernel/time/clocksource.c:38-58 | afterwards no listed source has a higher rating; the choice changes only to a strictly better one; an empty list changes nothing |
| Spinlock.StepInv | kernel/time/time.c:45-70 | every memory access of every thread, readers included, keeps the lock word, the owner, the account of the clock and the tallies of its two words in agreement |
| Spinlock.Serialised | kernel/lock/spinlock.c:34-44 | for any interleaving: at most one thread between lock and unlock; the lock free when none is; the clock then what the same updates one by one give, with all their gains accounted; the offsets add up to last reading less first |
| Spinlock.VisibleIff | kernel/time/time.c:62-68 | what the two words hold together at one moment is a second short of the accounted time exactly between the two stores of a carry |
| Spinlock.ReadIff | kernel/time/time.c:45-50 | for any interleaving and either order of the two loads: the value returned is the time accounted when tv_nsec was loaded, off by as many seconds as the carries counted by the two loads differ, and exact if and only if they do not; never ahead with tv_sec first, never more than a second behind with tv_nsec first |
| Spinlock.GoesBack | kernel/time/time.c:45-70 | a run from the start in which a second call of ktime_get, begun after the first returned, returns less |
| Numerals.Print | lib/printf.c:82-164 | the digit loop writes sign, numeral and terminating zero into 23 bytes |
| Numerals.Highest | lib/printf.c:88-90 | the highest power of the base not above the number, without overflow |
| Numerals.NumeralValue | lib/printf.c:82-102 | a numeral reads back as its number |
| Numerals.NoLeadingZero | lib/printf.c:82-102 | no superfluous leading zero |
| Numerals.DigitTable | lib/printf.c:96-99 | the sixteen digits, small and capital, and what each is worth |
| Numerals.NumeralWrites | lib/printf.c:82-102 | digits of the base, their letters small or capital as asked, which read back as the number, without a superfluous zero |
| Numerals.A2uReadsValue | lib/printf.c:175-185 | any digits before a character that is neither digit nor colon are read as the int in the low 32 bits of their value |
| Numerals.Fits22 | lib/printf.c:195-196 | 22 digits are enough in base 8, 10 and 16 |
| Numerals.A2u | lib/printf.c:175-185 | the digit loop of `a2u` |
| Numerals.A2uUndoesPrint | lib/printf.c:144-185 | `a2u` undoes `ui2a` if and only if the number fits in an int |
| Numerals.A2uTooLarge | lib/printf.c:144-185 | the first number that does not |
| Numerals.A2uReadsExactly | lib/printf.c:175-185 | a number an int can hold is read right, whatever follows, if and only if what follows does not change it in 32 bits |
| Numerals.A2uReadsRightIff | lib/printf.c:175-185 | if no digit follows a number, it is read right if and only if no colon does, for every tail as long as what the colon starts stays an int or ends with it |
| Numerals.WidthReadsRightIff | lib/printf.c:205-211 | for every tail that keeps the whole an int, a width is read right if and only if no digit and no colon follows its digits, or only zeros after a zero |
| Numerals.StrayWidth | lib/printf.c:205-211 | a width of 0 that is read as 5 |
| Numerals.ColonIsTen | lib/printf.c:175-185 | a colon counts as ten, so that 1 and a colon read as 20 |
| Numerals.DecimalInjective | lib/printf.c:166-173 | different ints print differently |
| Printf.IntSigned | lib/printf.c:166-173 | an int is always printed right |
| Printf.LongSignedIff | lib/printf.c:135-142 | a long is printed right if and only if it is above the least int and fits in an int |
| Printf.LongPrintedWrong | lib/printf.c:135-142 | the long 2^32 is printed as 0 |
| Printf.LeastIntPrintedWrong | lib/printf.c:135-142 | the long -2^31 is printed as -18446744071562067968 |
| Printf.OctalIff | lib/printf.c:246-250 | an argument of %o is printed right if and only if it fits in an unsigned int |
| Printf.OctalPrintedWrong | lib/printf.c:246-250 | the first that does not is printed as 0 |
| Printf.ZerosBeforeSign | lib/printf.c:62-80 | zero padding goes in front of the sign |
| Printf.Sink.Put | lib/printf.c:51-60 | the bounded and the unbounded sink |
| Printf.Sink.Puts | lib/printf.c:62-80 | fills up on the left to the width, then the message |
| Printf.Sink.PutNumber | lib/printf.c:82-164 | a number through the 23-byte buffer |
| Printf.Sink.PutItem | lib/printf.c:219-281 | what each directive stores, which `Printf.RenderedMeans` says by reading it back |
| Printf.Sink.Format | lib/printf.c:187-288 | a whole format stores what its directives mean, one after the other, as far as the sink takes it |
| Printf.RenderedMeans | lib/printf.c:219-281 | without its filling, %u reads back in decimal, %o in octal and %x, %X in hexadecimal with small or capital letters as its number, %d as its int (but for the least int as a long), %p is 0x and at least 16 capital digits; the filling is blanks, or zeros with the zero flag, up to the width and not beyond |
| Printf.RenderMeans | lib/printf.c:187-288 | a whole format prints what its directives mean, one after the other |
| Printf.Vsprintf | lib/printf.c:290-298 | stores what the directives mean, and a zero |
| Printf.Vsnprintf | lib/printf.c:310-318 | stores exactly the first `size` characters of it and a zero, which goes past the buffer exactly when that is `size` long and the text does not fit with it |
| HashMap.LookupIsLatest | lib/hashmap.c:66-92 | after every sequence of sets the chains agree with a plain map, for any hash function and size |
| HashMap.Memcmp | lib/string.c:46-55 | 0 exactly for equal bytes, else the first difference |
| HashMap.HashMap.constructor | lib/hashmap.c:55-64 | empty chains |
| HashMap.HashMap.Get | lib/hashmap.c:66-80 | the latest value of the key, NULL for a key never set |
| HashMap.HashMap.Set | lib/hashmap.c:82-92 | puts the entry first in the bucket of the hash and changes the answer for one key only |

## Left out
- Heap.Heap.Malloc: requests are bounded so that the 32-bit header fields do not truncate; 64-bit wrap-around of addresses is not modelled, and whether `map_heap` succeeds is a parameter.
- Heap.Heap.Free: only NULL, live and freed pointers; for any other pointer the code reads a header out of whatever lies there.
- Heap.Heap.Realloc: a growing realloc requires its inner malloc to succeed; otherwise the code copies to NULL.
- Heap.Heap.Place: one method for the four placement cases, which differ only in which neighbours exist.
- `calloc`, `early_malloc`, `kmalloc` and their routing: they add no structure of their own.
- Headers of freed minors are kept until a new header or prefix overwrites them, so that a double free reads what the code would read; their bytes are not followed further.
- Paging.Mmu.Map: only presence and frame of intermediate entries are followed, not their flags, which each map overwrites; no huge pages; addresses in PML4 slots 509 and 510 are excluded; enough free frames are required.
- Paging.Mmu.Unmap: the scratch page of the allocator must be mapped and is not the page unmapped.
- Paging.Mmu.MapRange: a range of more than one page does not contain the allocator's scratch page, is at most 2^48 bytes long and does not wrap around.
- `virtual_unmap` over a range never advances its address, so nothing is said about it.
- TLB flushes, CR3 and `invlpg`; `arch/x86_64/mm/clone.c`.
- Paging.Mmu.constructor: a first state with one more context, in place of the tables that the boot code builds in assembly.
- Paging.Mmu.Alloc: the frame is any free one; how the buddy allocator chooses it is in `Buddy`, and the two are not composed; the several links read while a block is split are one.
- Paging.Mmu.PhysicalFree: one link is written; which stack a freed frame goes to, after a merge or not, is in `Buddy`.
- Buddy.Buddy.Alloc: orders are 12 to 30, as whole pages and `1 << order` on an int demand; the slot above the highest order exists and is empty, which `buddy_init` does not set up.
- Buddy.Buddy.Free: the size must have an order of the allocator's (`buddy_free` does not round up to the smallest as `buddy_alloc` does), and addresses lie below `size`, because the bit sets are indexed by address, whatever `base` is; the allocator of mm/physical.c whose addresses do not is covered by `Buddy.RegionFitsIff` only.
- Buddy.Buddy.FreeRegion: starts are aligned to the largest block, and nothing is known yet up to the end of the last enclosing one.
- Buddy.Init: orders outside 12 to 30 are excluded, as for `Buddy.Buddy.Alloc`.
- RunQueue.RunQueue.Next: a tick with the cursor on the idle thread and threads on the ring is excluded; it would follow the idle thread's own link.
- `thread_switch` and `current_thread`.
- ClockView.Advance: the conversion of an unsigned 64-bit sum to a long, which C leaves to the compiler, keeps the low 64 bits.
- Clock.Clock.Update: the frequency of a source is not 0, since the code divides by it.
- Spinlock.Serialised: the source does not change while threads run; memory is sequentially consistent.
- Printf.Sink.PutItem: the negation of the least int, which C leaves undefined, gives the least int, and an argument wider than its conversion takes is cut to its low 32 bits.
- Printf.Sink.Format: a format is given as parsed directives; the code collects the width in five bytes without a terminator, and a format that ends in `%` runs past its end.
- HashMap.HashMap.Set: keys of one length, as in `HashMap.HashMap.Get`.
- HashMap.HashMap.Get: keys of one length; murmur is any function, and the bucket lists are sequences, since `Lists` proves the links.
- Drivers, VFS, initfs, Multiboot, symbol lookup: mostly input and output or dispatch.
