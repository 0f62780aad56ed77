# A verified model of the TypeOS kernel core

TypeOS is a small x86-64 kernel. This project models its core in Dafny and proves
what the parts promise together: memory that is never handed out twice, page tables
that stay trees, address spaces that stay apart, a heap that never overlaps itself,
pipes that never lose or reuse an end in use, a fair scheduler, an archive that comes
back file by file, and programs that start with the memory and stack they expect.

| part | files | kernel source |
|---|---|---|
| physical frames | Frames, FrameRuns | core/mm/paging.c |
| page tables and physical memory | PageTables, Paging, Boot | core/mm/paging.c |
| cloning address spaces | CloneSpec, CloneStores, CloneDirect, Clone, CloneRuns | core/mm/paging.c |
| memory for programs | UserRange | core/mm/paging.c, core/syscall.c |
| kernel heap | HeapSpec, HeapList, Heap | core/mm/heap.c |
| descriptors, pipes, tasks, scheduler | ProcSpec, ProcCalls, ProcInv, ProcOps, ProcTasks, ProcPids, Pipe, Proc, Sched | core/syscall.c, core/proc.c, core/sched.c |
| file tree and lookup | Paths, VfsSpec, VfsLinks, VfsCreate, Vfs | core/fs/vfs.c |
| boot archive | CpioSpec, CpioImage, CpioTree, Cpio | core/fs/cpio.c |
| program images and stacks | ElfSpec, Elf, UserStack | core/elf.c |

Code that works in place is modelled in place: the frame bitmap is an array of bytes,
the page tables, header fields, task and pipe tables, inode table and stack are fields
that methods update with the kernel's own loops. Each such method is proved against a
value (a set of used frames, a walk through tables, a list of blocks, a kernel state, a
tree of inodes), and the main results are lemmas about those values, over every input,
every run or every reachable state.

Main results:

* Page tables: every operation keeps the tables a forest of distinct used frames, with
  one place for each table; mapping changes one page and no other, from any root, even
  when it splits a 2 MiB page (`Paging.Machine.MapPageFlags`); the split is harmless
  exactly when no huge page is open to user mode (`PageTables.SplitKeepsRootIff`).
* Cloning gives every user page its own fresh frame with the same bytes and shares the
  rest (`Clone.CloneCurrentAddressSpace`), where its direct copies reach the frames they
  are meant for (`CloneDirect.DirectCopyIff`); apart from that it fails only when frames
  for tables have run out. Over every later run of mappings, unmappings and window uses,
  at any pages of either space, each space sees only its own deeds at the pages that were
  user pages (`CloneRuns.CloneIsIsolated`); whole calls of mmap and brk are such runs
  (`UserRange.MapUserRange`, `UserRange.SysBrk`). Kernel page tables stay shared, and
  entries there show in both (`CloneRuns.EntryStaysIff`).
* What a clone needs of the space it copies is an invariant on a machine with at most
  64 MiB: the boot establishes it (`CloneDirect.BootIsReady`), and mmap and brk above
  256 MiB, the image loader and the clone itself keep it (`UserRange.MapUserRange`,
  `UserRange.SysBrk`, `Elf.Load`, `Clone.CloneKeepsReady`, `CloneRuns.ChildIsReady`).
* The heap is honest from its start over every run (`HeapSpec.StartIsHonest`,
  `HeapSpec.RunsAreHonest`), and the linked headers refine that list of blocks without
  storing into any live payload. A request fails only when no block fits and frames for
  more have run out (`Heap.Heap.Kmalloc`).
* Pipe counts cover the live descriptors over every run, and each call is shown to keep
  them exact under an exact condition. When pipe, dup, dup2, F_DUPFD, open, close and fork
  succeed, and what they, exec, exit and wait leave, is stated call by call (ProcCalls).
* Creating a file, directory or link succeeds exactly on a path of short names with nothing
  but directories on its way (`VfsCreate.EnterIff`) and makes nothing but what it is to make
  (`VfsCreate.CreatesNothingElse`).
* With absolute links and texts that fit, a lookup that follows links ends if and only if
  recursive substitution gives its path a meaning, for which it is enough to look as deep
  as there are links (`VfsLinks.LookupEndsIff`, `VfsLinks.DepthIsBounded`), and then with
  that meaning (`VfsLinks.FollowingLookupMeans`).
* An archive goes from its writer through either parser and the tree to a reader without
  loss, its numbers written in upper or lower case (`Cpio.ArchiveRoundTrip`). On any input
  whose names end, the two parsers agree if and only if no padding passes the end
  (`CpioSpec.ParsersAgreeIff`).
* After boot exactly the acceptable images load, if a frame is left for the kernel window
  (`Elf.Load`). A loaded image is in place (`Elf.SegmentInPlace`) exactly when clearing its
  pages worked or they were zero before (`Elf.ContentsIff`), and the initial stack reads
  back as section 3.4.1 of the System V AMD64 ABI demands (`UserStack.Stack.Build`).

## Where the code does less than one would expect

These are proved as they are in the code.

* The split of a huge page drops its user bit (core/mm/paging.c:182):
  `PageTables.SplitKeepsRootIff`.
* The header speaks of a 256 MiB identity map (core/include/paging.h:16-17); the code
  maps 64 MiB, and `Boot.PagingInit` says so. Between the two, and wherever a page was
  remapped, reading at the physical address goes astray: `Paging.Machine.CopyFromPhys`
  says exactly when, `Boot.BootStraysIff` what that means after boot, and
  `Boot.ModuleAt80MiB` gives an input.
* The clone copies frames below 256 MiB at their physical addresses, through whatever is
  mapped there (core/mm/paging.c:522-526), and no check keeps user mappings away from
  these addresses (core/syscall.c:892-898). `CloneDirect.DirectCopyIff` says when such a
  copy is one of the two frames, `CloneDirect.MmapAfterBoot` gives a call of mmap after
  which it is not, and `CloneDirect.UnmappedFrameBreaks` the frames from 64 MiB on.
  `Clone.CloneCurrentAddressSpace` keeps its promises where every frame below the limit
  that is free or backs a user page is mapped to itself, writable, outside the window;
  the clone keeps that condition, and `CloneDirect.EnterKeepsIff` says exactly which
  entered pages keep it.
* A failing zeroing of a page for mmap is ignored (core/mm/paging.c:770-772): the page
  then holds what its frame held before. `UserRange.MapUserRange` says exactly when. A brk
  that runs out of frames returns the old break but has moved it (core/syscall.c:850-866):
  `UserRange.SysBrk`.
* An expansion past the heap limit is clamped and still reported as success
  (core/mm/heap.c:24-27): `Heap.Heap.Kmalloc` says exactly when the heap stays backed. Once
  the heap is mapped up to its limit, every request gets a pointer.
* Descriptors dropped by dup2, exec, a failing fork and reaping leave their pipe counts
  behind: `ProcOps.Dup2Keeps`, `ProcTasks.CloseAllKeeps`, `ProcTasks.ForkKeeps` and
  `ProcTasks.ReapKeeps` give the exact conditions. A descriptor duplicated to itself with
  dup2 loses its inode and position: `ProcCalls.Dup2Copies`. A failing fork uses up an id:
  `ProcCalls.ForkUsesAnId`.
* The counter of followed links starts over with every restart (core/fs/vfs.c:316), so
  lookups can run forever. Among lookups through absolute links whose texts fit, these are
  exactly those that `VfsLinks.LookupEndsIff` excludes, such as
  `VfsLinks.SelfLinkNeverEnds`. A relative link with a slash behind it, in mid-path or at
  the end of a path, is taken relative to itself: `VfsLinks.RelativeTargets`. A relative
  target too long for its buffer is dropped, and the lookup goes on from the root:
  `VfsLinks.OverlongTarget`.
* Any prefix of the trailer's name ends an archive: `CpioSpec.TrailerIsAnyPrefix`.
  Alignment works below 4 GiB only: `CpioSpec.AlignRoundsUpIff`. The parser over
  addresses runs past an unaligned end: `CpioSpec.ParsersAgreeIff` says exactly when, and
  `Cpio.SmallFileParts` gives an image.
* The image loader ignores a failing clear (core/elf.c:74): when no frame is left for the
  page table of the kernel window, pages without file bytes keep what they held, and the
  load succeeds. `Elf.Load` and `Elf.ContentsIff` say exactly when.
* It does not notice a short read either (core/elf.c:85) and then copies bytes its buffer
  happened to hold: `ElfSpec.StaleIff`, and `ElfSpec.ShortImageIsStale` gives an image.
* The initial stack is built without a look at its size: `UserStack.BelowTheStackIff` says
  exactly when the pointer leaves it. The kernel's own callers never get there:
  `UserStack.ExecFits`.

## Model

| member | source | states |
|---|---|---|
| Frames.FrameBitmap.constructor | core/mm/paging.c:223-289 | after the boot scan a frame below 2 GiB is free exactly if an available region covers it (or none covers any) and no reserved range does; region ends wrap at 64 bits as in the code |
| Frames.FrameBitmap.AddRegion | core/mm/paging.c:240-260 | one available region frees exactly its frames below 2 GiB and raises the frame total to the last of them |
| Frames.FrameBitmap.Set | core/mm/paging.c:37-42 | the bit store marks exactly one frame used and no other bit of its byte changes |
| Frames.FrameBitmap.Clear | core/mm/paging.c:44-49 | the bit store frees exactly one frame |
| Frames.FrameBitmap.Test | core/mm/paging.c:51-56 | the bit read is membership in the set of used frames; frames out of range read as used |
| Frames.FrameBitmap.Reserve | core/mm/paging.c:58-68 | exactly the frames that meet the page-rounded range become used |
| Frames.FrameBitmap.AllocPage | core/mm/paging.c:70-78 | the result is the lowest free frame and becomes used; 0 exactly when every frame is used; never frame 0 |
| Frames.FrameBitmap.AllocTable | core/mm/paging.c:100-128 | a free frame below the identity limit and outside the gap between kernel end and stack top, or 0 when there is none |
| Frames.TableFramesAre | core/mm/paging.c:106-116 | page tables come from frames below the total and 256 MiB that do not begin between the kernel's end and the top of the boot stack |
| Frames.FrameBitmap.FreePage | core/mm/paging.c:298-306 | exactly the frame given back becomes free; address 0 and frames beyond the total are ignored |
| Frames.BitUpdates | core/mm/paging.c:41-48 | setting or clearing one bit of a byte changes that bit and keeps the other seven |
| Frames.ReservedIff | core/mm/paging.c:271-289 | a frame is reserved if and only if it meets the kernel image below 2 GiB, the boot stack or a boot module, or lies from 4 MiB to 8 MiB |
| Frames.InRegionIff | core/mm/paging.c:240-260 | a frame is taken from a region if and only if the region is available and one of its steps of 4096 bytes falls in the frame, below 2 GiB and below base plus length, less 2^64 where that wraps |
| FrameRuns.NoUsedFrameHandedOut | core/mm/paging.c:70-128 | in any run of page and table allocations and give-backs a used frame is handed out again only after it was given back |
| FrameRuns.HandOutsAreSeparated | core/mm/paging.c:70-128 | two hand-outs of one frame have a give-back between them |
| FrameRuns.ReservedStaysReserved | core/mm/paging.c:271-287 | frames that are used but not on loan, such as all boot reservations, are never handed out in any run |
| FrameRuns.AllocPageStep | core/mm/paging.c:294-296 | the bitmap operation is a step of the runs above |
| FrameRuns.AllocTableStep | core/mm/paging.c:100-128 | the bitmap operation is a step of the runs above |
| FrameRuns.FreePageStep | core/mm/paging.c:298-306 | giving back a page on loan is a step of the runs above |
| PageTables.LinkFreshTable | core/mm/paging.c:197-205 | hanging a zeroed table into an empty entry keeps the tables a forest of distinct used frames and changes no translation from any root |
| PageTables.SplitKeepsWalks | core/mm/paging.c:157-185 | splitting a 2 MiB page that is not open to user mode keeps the forest, every translation and every permission, from every root |
| PageTables.SplitKeepsRootIff | core/mm/paging.c:182-182 | the split keeps all translations seen from a root if and only if the huge entry is not reachable in user mode from it, because the new entry drops the user bit |
| PageTables.LeafStore | core/mm/paging.c:340-340 | a store to a page table changes exactly one page, in exactly the roots that reach that table, and keeps the forest |
| PageTables.StoreLeaf | core/mm/paging.c:340-340 | the page stored to has exactly the new translation, all other pages keep theirs, and no huge page becomes a user page |
| PageTables.OpenPath | core/mm/paging.c:700-720 | setting the user bits on a path keeps the forest and changes no translation except that user leaves may become reachable in user mode |
| PageTables.WalkThroughTable | core/mm/paging.c:401-428 | with the links in place a translation is the leaf entry with the permissions of the links above it |
| Paging.BootIsGood | core/mm/paging.c:224-226 | the boot tables are a well-formed forest that maps 0 to 4 MiB to itself and nothing else |
| Paging.Machine.GetOrCreateTable | core/mm/paging.c:187-207 | returns the table linked at the entry or a fresh zeroed one; fails only on a huge entry or without a free table frame; no translation changes |
| Paging.Machine.FillSplit | core/mm/paging.c:178-180 | the loop writes the 512 entries that replace a huge entry |
| Paging.Machine.SplitHugePage | core/mm/paging.c:157-185 | the huge entry is replaced without changing any translation; on failure nothing changes |
| Paging.Machine.MakePath | core/mm/paging.c:315-338 | the page table of a page exists afterwards unless tables ran out, and no translation changes |
| Paging.Machine.MapPageFlags | core/mm/paging.c:308-343 | on success the page translates to exactly the frame and flags given and no other page changes from any root, splits included; a failing call changes no translation; failure means misalignment or no table frame for a missing table, and then the same call fails again and changes nothing |
| Paging.Machine.MapPage | core/mm/paging.c:345-348 | the same with supervisor tables; a present leaf then has exactly its own writable and no-execute permissions and is closed to user mode |
| Paging.Machine.MapUserPage | core/mm/paging.c:758-763 | the same with the user bit on leaf and tables; the page is then open to user mode if and only if no link on its way was there without the user bit and no huge page was split |
| Paging.OpensIff | core/mm/paging.c:315-338 | the links above a page all carry the user bit afterwards if and only if those that were there did and new ones are made with it |
| Paging.Machine.UnmapPage | core/mm/paging.c:350-368 | exactly the 4 KiB translation of the page goes; a huge page and everything else stays |
| Paging.Machine.VirtToPhys | core/mm/paging.c:401-428 | the result is the translation of the walk plus the offset, for 4 KiB and 2 MiB pages, and 0 without one |
| Paging.Machine.SetUserPath | core/mm/paging.c:699-720 | the three links above a page get the user bit; other translations at most become open |
| Paging.Machine.GetPt | core/mm/paging.c:492-517 | the page table of a page, 0 exactly when links do not lead to one |
| Paging.Machine.PromoteUserIdentity | core/mm/paging.c:722-741 | succeeds exactly inside the image window with a page table; the page then maps to itself, user and writable at every level; other pages keep their translation or become reachable where their leaf was a user leaf |
| Paging.Machine.StoreThroughWindow | core/mm/paging.c:845-852 | bytes stored through the window land in the frame given, all other memory and all translations outside the window stay; cannot fail once the window has its page table, and a failure leaves it without one and with no frame for it |
| Paging.Machine.WritePhys | core/mm/paging.c:832-859 | on success the physical range holds the source bytes and no other byte changes, across page borders; it fails only where the window has no page table and no frame for one |
| Paging.Machine.ClearPhys | core/mm/paging.c:804-830 | on success the physical range is zero and no other byte changes; it fails only where the window has no page table and no frame for one, and then changes nothing |
| Paging.Machine.LoadThroughWindow | core/mm/paging.c:453-459 | the bytes read through the window are those of the frame; it fails only where the window has no page table and no frame for one |
| Paging.Machine.CopyFromPhys | core/mm/paging.c:436-468 | on success the result is the bytes of the physical range, read at their own addresses below the identity limit and through the window above it; astray is reported exactly when the range has an address below the limit that is not mapped to itself, which the code does not check; any other failure leaves the window without a page table and no frame for one |
| Boot.ExtendIdentityMap | core/mm/paging.c:209-221 | pages from 4 MiB up to the point where tables run out, at most 64 MiB, map to themselves; nothing else changes; each of these pages has a page table |
| Boot.PagingInit | core/mm/paging.c:223-292 | for any memory map: frames are free exactly when available, not reserved and not a new table, and exactly the pages below the reached limit map to themselves |
| Boot.BootStraysIff | core/mm/paging.c:436-468 | after boot, reading a range at its own addresses goes astray if and only if the range is not empty, begins below the limit and passes the end of the identity map |
| Boot.ModuleAt80MiB | core/mm/paging.c:436-468 | so a boot module at 80 MiB cannot be read |
| Boot.NumOfAddress | core/mm/paging.c:6-9 | the four table indices of a 48-bit address are the digits of its page number |
| Boot.NumIsInjective | core/mm/paging.c:6-9 | pages with equal numbers are equal |
| CloneDirect.DirectCopyIff | core/mm/paging.c:522-526 | the copy below 256 MiB at the physical addresses of both frames copies the one to the other, whatever memory holds, if and only if both are mapped to themselves and the target is writable |
| CloneDirect.CopyIsStraight | core/mm/paging.c:522-526 | in an address space where every frame below the limit that is free or backs a user page is mapped to itself, writable and outside the window, each copy that a clone makes directly is such a copy |
| CloneDirect.DirectKept | core/mm/paging.c:530-543 | mapping through the window and creating tables keep that condition |
| CloneDirect.BootIsDirect | core/mm/paging.c:209-221 | the identity map of the boot satisfies it on a machine with at most 64 MiB |
| CloneDirect.UnmappedFrameBreaks | core/mm/paging.c:522-526 | a free frame below the limit whose own address is not mapped breaks it, and the direct copy to that frame faults |
| CloneDirect.MappingOverAFreeFrame | core/mm/paging.c:522-526 | where the page at 0x900000 maps another frame and frame 0x900 is free, a direct copy to that frame lands in the other one, and frame 0x900 keeps its old bytes |
| CloneDirect.MmapAfterBoot | core/syscall.c:892-898 | what mapping a page for user mode at 0x900000 leaves of the state after boot is such a state, under the links that the boot made: the condition holds before the call and is broken after it |
| CloneDirect.EnterKeepsIff | core/mm/paging.c:758-763 | entering one page keeps the condition if and only if the page is not the own address of a frame that a clone may copy, or maps that frame to itself; the frame entered must be one that can be reached at its own address |
| CloneDirect.ReadyToClone | core/mm/paging.c:667-697 | what a clone needs follows from two conditions on user leaves and free frames, which do not depend on the links above them |
| CloneDirect.BootIsReady | core/mm/paging.c:209-221 | the boot establishes them on a machine with at most 64 MiB |
| CloneDirect.WindowKeeps | core/mm/paging.c:845-852 | using the window and creating tables keep them |
| CloneDirect.EnteredDirect | core/mm/paging.c:773-799 | entering a free frame at a page above the limit keeps the condition on direct copies |
| CloneDirect.EnteredOwned | core/mm/paging.c:773-799 | entering a frame anywhere keeps the condition on the frames of user leaves |
| CloneDirect.PromoteKeeps | core/mm/paging.c:722-741 | giving an image page to user mode keeps both, whatever other pages it opens |
| Clone.CopyFrame | core/mm/paging.c:519-543 | the target frame gets the bytes of the source frame, by both ways of copying; astray is reported exactly when the direct way is taken and does not lead to the two frames; on failure no byte changes; translations outside the window stay; it fails otherwise only when no frame is left for a table |
| Clone.CopyThroughWindow | core/mm/paging.c:528-543 | the target frame gets the bytes of the source frame through the two window pages; on failure no byte changes; it fails only when no frame is left for a table |
| Clone.CloneUserPage | core/mm/paging.c:574-586 | one user page gets a fresh frame with the same bytes and leaf flags; a failed copy gives the frame back; a copy that goes astray is reported, which the condition on the source space excludes; a failure that is not astray leaves at most one free frame that could hold a table |
| Clone.CloneUserPt | core/mm/paging.c:545-590 | a page table's range is cloned page by page, user pages copied, others shared; astray is passed on; a failure that is not astray leaves at most one free frame that could hold a table |
| Clone.CloneUserPd | core/mm/paging.c:592-630 | the same for a page directory, huge entries shared; a failure that is not astray leaves at most one free frame that could hold a table |
| Clone.CloneUserPdpt | core/mm/paging.c:632-665 | the same for a directory pointer table; a failure that is not astray leaves at most one free frame that could hold a table |
| Clone.CopyRoot | core/mm/paging.c:678-694 | the copying clone of all 512 root entries; a failure that is not astray leaves at most one free frame that could hold a table |
| Clone.ShareRoot | core/mm/paging.c:678-688 | the sharing clone of all root entries |
| Clone.CloneCurrentAddressSpace | core/mm/paging.c:667-697 | with copying, every user page maps to a frame that was free before, different from all others, with the same bytes and flags, and every other page translates as in the source; without, every page does; unless a direct copy goes astray, all old roots and all bytes of used frames stay, also on failure; none goes astray where the condition of CloneDirect holds, and the clone keeps that condition; a failing clone that is not astray leaves at most one free frame that could hold a table, and a sharing clone fails exactly when there was none at all |
| Clone.CloneKeepsReady | core/mm/paging.c:667-697 | a space that satisfies both conditions is cloned without going astray and satisfies both afterwards |
| Clone.StoresAreIsolated | core/mm/paging.c:585-585 | right after a copying clone an entry stored for a user page in parent or child changes no translation of the other |
| Clone.FramesAreIsolated | core/mm/paging.c:574-585 | no user page of the child shares a frame with a user page of the parent |
| CloneRuns.CloneIsIsolated | core/mm/paging.c:667-697 | after a copying clone, over every run of mappings, unmappings and window uses at any pages, in parent and child in any order and with any tables created on the way, each space translates every page that was a user page as its own last deed there says, and as the clone left it where it has none |
| CloneRuns.OwnDeedsOnly | core/mm/paging.c:308-368 | the same from any state where the two spaces have own tables for these pages, which every such run keeps |
| CloneRuns.UntouchedStays | core/mm/paging.c:308-368 | a page outside the window that no deed names translates as before in every address space |
| CloneRuns.EntryStaysIff | core/mm/paging.c:592-630 | for any page with a page table in both spaces, later entries in one leave the translation in the other alone if and only if the two do not share the table |
| CloneRuns.ChildIsReady | core/mm/paging.c:667-697 | the child satisfies both conditions if the parent did, where no open page below the limit shares its frame with a closed one |
| CloneRuns.ChildIsDirect | core/mm/paging.c:667-697 | the child can be cloned in turn without going astray if the parent could |
| CloneRuns.MapUserPage | core/mm/paging.c:758-763 | the machine's call is one such deed, also when it fails |
| CloneRuns.UnmapPage | core/mm/paging.c:350-368 | the machine's call is one such deed |
| UserRange.TakeFrame | core/mm/paging.c:773-783 | a free frame is taken and zeroed; the zeroing fails exactly when no table is left for the window |
| UserRange.MapFreshPage | core/mm/paging.c:787-796 | one page of mmap or brk: a fresh frame entered there, or the frame given back; fails only at an unaligned address or when tables run out |
| UserRange.MapUserRange | core/mm/paging.c:781-802 | the call is a run of deeds that enters distinct free frames at consecutive pages, all of them exactly on success; used frames keep their bytes; the new pages are zero if the window has its page table afterwards, otherwise no zeroing succeeded; the conditions for the next clone stay, for pages above the limit of direct copies |
| UserRange.SysBrk | core/syscall.c:833-874 | the same for brk, whose pages are always zero; when frames or tables run out the pages entered stay, the break stays behind them, and the old break is returned; a page is entered only while the break lies below the address asked for |
| UserRange.NewBreakIs | core/syscall.c:868-871 | the new break is the next multiple of 4096, or the address itself where that wraps around |
| UserRange.PagesMeet | core/mm/paging.c:781-784 | the pages of a range are those that it meets, and none where its end wraps around |
| UserRange.PagesAreMapped | core/mm/paging.c:781-802 | after such a run within 48 bits each page outside the window maps its frame, and every other page outside the window translates as before from every root |
| UserRange.RunsJoin | core/mm/paging.c:781-802 | the runs of several calls join to one |
| CloneSpec.AppendDistinct | core/mm/paging.c:606-627 | ranges of cloned pages with distinct fresh frames join into one with distinct fresh frames |
| CloneStores.UnderIsInterval | core/mm/paging.c:623-624 | the pages below a table are an interval of page numbers |
| HeapSpec.TakeLive | core/mm/heap.c:108-115 | allocating from a free block adds exactly one payload, at a new address, to the live payloads |
| HeapSpec.GrowLive | core/mm/heap.c:127-145 | allocating from new memory adds exactly one payload behind everything |
| HeapSpec.ReleaseLive | core/mm/heap.c:148-156 | freeing removes exactly the payload freed, with the right size, through both merges |
| HeapSpec.TakeInv | core/mm/heap.c:45-64 | allocation keeps sizes multiples of 16 and at least 16 and no two neighbours free |
| HeapSpec.ReleaseInv | core/mm/heap.c:66-82 | freeing keeps the same invariant |
| HeapSpec.ReleaseUndoesTake | core/mm/heap.c:101-156 | freeing what was just allocated without expansion restores the block list exactly |
| HeapSpec.FreeingAllLeavesOneBlock | core/mm/heap.c:148-156 | freeing every live pointer once, in any order, leaves one free block that covers the heap |
| HeapSpec.BlocksApart | core/mm/heap.c:45-64 | blocks with their headers lie inside the heap and apart from each other |
| HeapSpec.PayloadAligned | core/mm/heap.c:114-114 | payload addresses are multiples of 16 |
| HeapSpec.ExpansionCoversIff | core/mm/heap.c:106-121 | new memory covers a request and its header exactly up to a stated bound; beyond it the 64-bit sums wrap |
| HeapSpec.MallocFits | core/mm/heap.c:45-64 | with a block that fits, the first such is cut if it exceeds the size, rounded up to 16, by 48 bytes or more, and the rest stays free; otherwise it is taken whole; the pointer lies 32 bytes into the block |
| HeapSpec.MallocGrows | core/mm/heap.c:117-145 | with none, new memory of whole pages, 64 KiB at least, is appended and cut by the same rule; without new memory the list stays and the result is 0 |
| HeapSpec.HeadersAt | core/mm/heap.c:84-99 | the first header lies at 256 MiB and each further one behind the 32-byte header and the payload of the block before it |
| HeapSpec.StartIsHonest | core/mm/heap.c:84-99 | the heap as it is set up satisfies the invariant with no pointer held |
| HeapSpec.RunsAreHonest | core/mm/heap.c:101-156 | over any run of allocations and frees of held pointers the invariant holds, the used blocks are exactly the pointers held, and each is as large as asked |
| HeapSpec.FreedServes | core/mm/heap.c:101-156 | giving back a pointer makes the next request that is not larger succeed without new memory |
| HeapSpec.HeldDisjoint | core/mm/heap.c:101-156 | in such a state the payloads of two held pointers do not overlap and are 16-aligned |
| HeapList.SplitLinked | core/mm/heap.c:50-61 | the stores of a split turn the doubly linked headers of a list into those of the split list |
| HeapList.JoinLinked | core/mm/heap.c:66-82 | the stores of a merge turn the headers of a list into those of the merged list |
| HeapList.AppendLinked | core/mm/heap.c:127-142 | the stores that append a block turn the headers of a list into those of the longer list |
| Heap.Heap.constructor | core/mm/heap.c:84-99 | the heap starts as one free block, or empty when pages run out; it is empty only if at most one free frame is left that could hold a table |
| Heap.Heap.MapMore | core/mm/heap.c:23-43 | the pages of the heap map to pairwise distinct used frames that are no tables, also when mapping fails part-way; a target past the limit is clamped, and a heap mapped up to its limit always reports success; it fails only below the limit with at most one free frame left that could hold a table |
| Heap.Heap.SplitBlock | core/mm/heap.c:45-64 | the header stores do the split of the list model |
| Heap.Heap.Coalesce | core/mm/heap.c:66-82 | the header stores merge with the free neighbours, next first |
| Heap.Heap.Kmalloc | core/mm/heap.c:101-146 | first fit or new memory, exactly as in the list model, with no store into a live payload; the heap stays backed by its pages exactly when the expansion ends within the limit; once it is mapped up to the limit every request returns a pointer; a request of at least one byte fails only if no block fits, the heap is below its limit and at most one free frame is left that could hold a table |
| Heap.Heap.Kfree | core/mm/heap.c:148-156 | freeing a live pointer does what the list model says, with no store into a live payload |
| ProcOps.PipeKeeps | core/syscall.c:512-568 | pipe keeps counts at least, and exactly, the live descriptors, on every error path |
| ProcOps.OpenKeeps | core/syscall.c:608-638 | open keeps both |
| ProcOps.DupKeeps | core/syscall.c:428-472 | so does dup |
| ProcOps.DupFromKeeps | core/syscall.c:474-510 | so does fcntl F_DUPFD |
| ProcOps.Dup2Keeps | core/syscall.c:445-471 | dup2 keeps counts at least the live descriptors, and exact if and only if it does not replace an open pipe end |
| ProcOps.CloseKeeps | core/syscall.c:1057-1085 | close keeps both |
| ProcOps.FreeSlotIsUnnamed | core/proc.c:129-143 | a pipe slot that can be taken is named by no live descriptor |
| ProcOps.EndOfFileMeansNoWriter | core/syscall.c:755-757 | a writer count of 0 means no live descriptor on the write end |
| ProcCalls.OpenOpens | core/syscall.c:608-638 | open succeeds exactly when a descriptor is closed, a record can be had and the path leads to a file; the file is then on the lowest closed descriptor; a failure changes nothing |
| ProcCalls.Dup2Copies | core/syscall.c:445-471 | dup2 succeeds exactly when both descriptors are in order and, for a closed target, a record can be had; a failure changes nothing; it copies to the target, except that a descriptor copied to itself keeps inode and position only if the record just given back still holds them |
| ProcCalls.DupCopies | core/syscall.c:428-472 | dup succeeds exactly when the source is open, a descriptor is closed and a record can be had; it copies to the lowest closed one and changes nothing else; a failure changes nothing |
| ProcCalls.DupFromCopies | core/syscall.c:474-510 | F_DUPFD does the same for the lowest closed descriptor not below the bound |
| ProcCalls.PipeOpensBothEnds | core/syscall.c:512-568 | a successful pipe puts both ends of a slot that was free on the two lowest closed descriptors; a failing one leaves tasks and free slots as they were |
| ProcCalls.PipeSucceedsIff | core/syscall.c:512-568 | pipe returns 0 exactly with a free slot, two closed descriptors, two records and a copy that goes through, -14 exactly when only the copy fails, and -12 in all other cases |
| ProcCalls.CloseCloses | core/syscall.c:1057-1085 | close empties an open descriptor and no other, and returns 0; for a pipe end that end's count is one lower, 0 staying 0, the other end and all other slots stay, and the slot is free exactly without readers and writers; on a closed descriptor it returns -9 and changes nothing |
| ProcCalls.LastWriterCloses | core/syscall.c:1069-1076 | where counts are exact, closing the only live write end leaves no writer, so that readers come to the end of file |
| ProcCalls.ErrorCodes | core/syscall.c:428-510 | which error each failing call returns |
| ProcCalls.CopyFdsInherits | core/proc.c:275-292 | the copying loop leaves the child the parent's descriptors and touches no other task |
| ProcCalls.ForkCopies | core/proc.c:243-297 | a successful fork adds exactly one runnable child with the next pid and the caller's descriptors, in a slot that was free; a failing one adds no task |
| ProcCalls.ForkSucceedsIff | core/proc.c:243-297 | fork succeeds exactly with an unused task, a kernel stack, an address space and a record for each open descriptor |
| ProcCalls.ForkUsesAnId | core/proc.c:40-63 | fork uses up an id exactly when there is an unused task, also when it then fails |
| ProcCalls.ExecEmpties | core/proc.c:153-165 | exec's closing empties descriptors 3 and up of the caller and changes no count, slot or other task |
| ProcCalls.ExitLeaves | core/proc.c:443-453 | exit leaves a zombie with the status given, wakes the parent exactly if it was blocked, and changes nothing else |
| ProcCalls.WaitReports | core/proc.c:215-241 | reaping reports the first zombie child that matches, with its status, and frees its slot, exactly if there is one; otherwise it reports -1 and changes nothing |
| ProcCalls.SwitchLeaves | core/sched.c:56-79 | a switch makes the next task the current, running one, the task left runnable if it was running, and changes nothing else |
| ProcCalls.WakeLeaves | core/sched.c:152-163 | waking makes every blocked task runnable and changes nothing else |
| ProcCalls.StartMeans | core/proc.c:510-529 | at the start one task with id 1 runs with the console on descriptors 0 to 2, and nothing else is in use |
| ProcTasks.ForkKeeps | core/proc.c:243-297 | fork keeps the cover, and exactness if and only if it does not run out of records after copying a pipe end |
| ProcTasks.CloseAllKeeps | core/proc.c:153-165 | exec's closing keeps the cover, and exactness if and only if it drops no pipe end |
| ProcTasks.ExitKeeps | core/proc.c:443-453 | exit keeps cover and exactness |
| ProcTasks.ReapKeeps | core/proc.c:215-241 | reaping keeps the cover, and exactness if and only if the task reaped has no pipe end |
| ProcTasks.SwitchKeeps | core/sched.c:56-79 | switching tasks keeps cover and exactness |
| ProcTasks.WakeAllKeeps | core/sched.c:152-163 | waking keeps cover and exactness |
| ProcTasks.StartIsCovered | core/proc.c:510-529 | the first task with the console open satisfies the invariant |
| ProcTasks.RunsKeepCover | core/syscall.c:428-568 | over every run of pipe, open, dup, dup2, F_DUPFD, close, fork, exec, exit, wait, blocking, waking and switching each pipe counts at least its live descriptors, and a named slot is in use |
| ProcTasks.CarefulRunsAreExact | core/syscall.c:428-568 | over every run that avoids the dropping cases the counts are exact |
| ProcPids.RunsKeepPids | core/proc.c:40-63 | over every run live pids are distinct and apart from all pids reported |
| ProcPids.WaitReportsOnce | core/proc.c:215-241 | a pid that wait reports is a zombie child's, comes with the status of its last exit, was never reported before, and is dead afterwards |
| ProcPids.NoIdTwice | core/proc.c:215-241 | two waits of one run never report the same pid |
| ProcPids.StartPids | core/proc.c:510-529 | the first state satisfies the pid invariant |
| Proc.Table.SysPipe | core/syscall.c:512-568 | the code on task and pipe arrays does what the call on values says; the slot taken has an empty ring of its own, and other slots' rings stay |
| Proc.Table.PipeAlloc | core/proc.c:129-143 | the first free slot is taken with zero counts and an empty ring; other rings stay |
| Proc.Table.FdAlloc | core/syscall.c:331-357 | the lowest closed descriptor gets a fresh record |
| Proc.Table.SysOpen | core/syscall.c:608-638 | open on the arrays |
| Proc.Table.DupTo | core/syscall.c:428-472 | dup and dup2 on the arrays |
| Proc.Table.DupFrom | core/syscall.c:474-510 | fcntl F_DUPFD on the arrays |
| Proc.Table.SysClose | core/syscall.c:1057-1085 | close on the arrays |
| Proc.Table.FdCloseAll | core/proc.c:153-165 | exec's closing loop on the arrays |
| Proc.Table.AllocTask | core/proc.c:40-63 | the first unused slot becomes a task with the next pid |
| Proc.Table.Fork | core/proc.c:243-297 | fork on the arrays, with every way to fail |
| Proc.Table.Exit | core/proc.c:443-453 | exit on the arrays |
| Proc.Table.ReapChild | core/proc.c:215-241 | reaping on the arrays |
| Pipe.Ring.Read | core/syscall.c:570-587 | takes the oldest bytes, as many as there are and are asked for, and delivers them in order |
| Pipe.Ring.Write | core/syscall.c:589-606 | appends as many bytes as fit; delivered bytes followed by buffered bytes are always the accepted bytes |
| Pipe.Ring.SysWrite | core/syscall.c:664-702 | under any interleaving of other readers and writers the bytes written lie in the accepted stream in order; a result of count means all of them do; a broken pipe means no reader was left; a bad address is reported exactly when the next chunk of the buffer cannot be copied; the call blocks only while the pipe is full and has readers, a broken pipe and a write still blocked find it full, and data that fits is written at once, at the end of the queue |
| Sched.PickComesNearer | core/sched.c:37-54 | a pick is a task that can run and is the one waited for or strictly nearer to it |
| Sched.PickedWithinDistance | core/sched.c:37-54 | a task that can run at each call is picked within its cyclic distance, whatever the others do |
| Sched.PickedWithinSixteen | core/sched.c:37-54 | any 16 consecutive picks include every task that can run throughout |
| Sched.SixteenIsTight | core/sched.c:37-54 | 15 are not enough |
| Sched.CanRunMeans | core/sched.c:20-35 | runnable and running tasks can run, no others |
| Sched.SeveralReady | core/sched.c:20-35 | the count is positive, or more than one, exactly with one such task, or two |
| Sched.Scheduler.CountRunnable | core/sched.c:20-35 | counts the tasks that can run |
| Sched.Scheduler.PickNext | core/sched.c:37-54 | the scan from the round-robin index, the current task when none can run |
| Sched.Scheduler.SwitchTask | core/sched.c:56-79 | task states and the current task as the call on values says |
| Sched.Scheduler.Yield | core/sched.c:105-113 | switches to the pick exactly when more than one task can run |
| Paths.ComponentsConcat | core/fs/vfs.c:57-64 | two paths joined by a slash have the components of both |
| Paths.ComponentsOfJoined | core/fs/vfs.c:57-64 | a path written as a slash and a name in turn has exactly these names as components |
| Vfs.NameMatchesIsEquality | core/fs/vfs.c:76-76 | the prefix comparison with the check of the terminator is equality of names |
| VfsSpec.AddChildKeepsTree | core/fs/vfs.c:84-112 | entering a new inode under a fresh good name keeps the inode graph a tree with unique, non-empty, slash-free names |
| VfsSpec.EnterKeeps | core/fs/vfs.c:346-445 | mkdir, create and symlink keep the tree, intermediate directories and failures included |
| VfsSpec.LookupKept | core/fs/vfs.c:346-445 | a no-follow lookup that succeeded before any creation returns the same inode after it |
| VfsSpec.RunsKeepTree | core/fs/vfs.c:346-445 | every run of creating calls keeps the tree and every no-follow lookup that succeeded before |
| VfsSpec.CreatedIsFound | core/fs/vfs.c:369-408 | after a successful creation a lookup of the path finds exactly the new inode, for paths lookups do not cut off |
| VfsCreate.EnterIff | core/fs/vfs.c:346-445 | for every path: the call makes the entry exactly if the path is absolute with at least one name, all names have at most 255 bytes, nothing but directories lies on the way, and nothing is there; where something is there it returns the result for an existing name and changes nothing; otherwise it returns -1 |
| VfsCreate.ParentIff | core/fs/vfs.c:129-193 | the directory for the last name is found exactly with short names and nothing but directories on the way |
| VfsCreate.CreatesNothingElse | core/fs/vfs.c:129-193 | whatever the outcome, paths that come to lead somewhere are the path itself, with the new inode, and missing directories on its way, with mode 0755 |
| VfsCreate.ExistingName | core/fs/vfs.c:357-426 | for a path that a lookup finds, create and symlink return -1, mkdir returns 0, and nothing changes |
| VfsCreate.NewName | core/fs/vfs.c:346-445 | for a path that can be entered and holds nothing, each call returns 0, and the lookup then finds the file with its mode and bytes, the link with its text and mode 0777, or the empty directory with its mode |
| VfsLinks.LoopIsSubstitution | core/fs/vfs.c:246-318 | where components have a meaning with links nested to some depth, restarting from the root with a rewritten path computes it, in a number of restarts known in advance |
| VfsLinks.EndingMeans | core/fs/vfs.c:246-318 | where the restarting ends within n restarts, the components have a meaning with links nested at most n deep |
| VfsLinks.DepthIsBounded | core/fs/vfs.c:246-318 | a meaning at any depth is the meaning with links nested as deep as there are links |
| VfsLinks.LoopEndsIff | core/fs/vfs.c:246-318 | restarting ends if and only if the components have a meaning with links nested no deeper than there are links |
| VfsLinks.LookupEndsIff | core/fs/vfs.c:229-332 | with absolute links and texts that fit the buffers a following lookup ends if and only if its path has a meaning with links nested no deeper than there are links, which can be computed |
| VfsLinks.AcyclicHasMeaning | core/fs/vfs.c:279-318 | when every link has a meaning at some depth, every path has one, one level deeper |
| VfsLinks.FollowingLookupMeans | core/fs/vfs.c:229-332 | a following lookup whose path has a meaning then ends after that many restarts with the inode of recursive substitution |
| VfsLinks.RelativeTargets | core/fs/vfs.c:195-318 | for a path through a plain directory to a link with a relative target that fits, the pass restarts with a path whose components are those of the directory, the target and the rest if and only if no slash follows the link; otherwise the name of the link stands in between |
| VfsLinks.LinkBuffers | core/fs/vfs.c:195-318 | what the buffers of 512 and 256 bytes do at any link: an absolute target keeps 511 bytes and the rest of the path 255, a relative target that does not fit is dropped, and text and rest that do not fit together end the lookup with nothing |
| VfsLinks.OverlongTarget | core/fs/vfs.c:219-222 | so with a relative target that does not fit the rest of the path is looked up from the root, and a link at the end of a path leads to the root |
| VfsLinks.SelfLinkNeverEnds | core/fs/vfs.c:316-316 | because the counter of followed links starts over, a lookup of a link to itself does not end: its path is cyclic at every depth |
| VfsLinks.CreatedIsFollowed | core/fs/vfs.c:369-408 | a directory or file just created is also what a following lookup finds |
| VfsLinks.NotALinkFollows | core/fs/vfs.c:250-279 | a lookup that ends at anything but a link gives the same with following |
| VfsLinks.NoLinksFollow | core/fs/vfs.c:250-279 | without links following changes nothing |
| Vfs.FileSystem.DirFind | core/fs/vfs.c:66-82 | the inode under a name in a directory, none in anything else |
| Vfs.FileSystem.DirAdd | core/fs/vfs.c:84-112 | adds the entry exactly when the directory is one and the name is new |
| Vfs.FileSystem.LookupParentDir | core/fs/vfs.c:129-193 | the directory and last name of a path, made as needed; names over 255 bytes fail |
| Vfs.FileSystem.LookupPath | core/fs/vfs.c:229-332 | without following, the walk over the components of the first 511 bytes; with following, the restart loop |
| Vfs.FileSystem.OnePass | core/fs/vfs.c:246-318 | one pass from the root, to an answer or to the path to restart with |
| Vfs.FileSystem.MakeDir | core/fs/vfs.c:346-367 | mkdir; an existing name is success |
| Vfs.FileSystem.CreateFile | core/fs/vfs.c:369-408 | create; an existing name is an error |
| Vfs.FileSystem.MakeSymlink | core/fs/vfs.c:410-445 | symlink; an existing name is an error |
| Vfs.FileSystem.ReadAt | core/fs/vfs.c:575-600 | the bytes of the file from the offset on, at most count |
| CpioSpec.ParseInvertsPrint | core/fs/cpio.c:36-59 | reading a hexadecimal number inverts printing it, in upper and in lower case |
| CpioSpec.DigitsSpelled | core/fs/cpio.c:44-54 | the sixteen digits are read as their values in both cases, and every other character as 0 |
| CpioSpec.AlignRoundsUpIff | core/fs/cpio.c:61-65 | the alignment rounds up if and only if the sum stays below 4 GiB: the mask has 32 bits |
| CpioSpec.TrailerIsAnyPrefix | core/fs/cpio.c:239-241 | a name ends the archive if and only if it is a prefix of the trailer's name, the empty name included |
| CpioSpec.NormalStrips | core/fs/cpio.c:81-101 | a normalised path is the name without its leading dots and the slashes behind them, one slash in front; a name of only those gives none |
| CpioSpec.NormalNoNul | core/fs/cpio.c:74-102 | a normalised path is a C string with at least one component |
| CpioSpec.ParsersAgreeIff | core/fs/cpio.c:200-349 | on every input, well-formed or not, given an aligned archive below 4 GiB whose names end within their sizes and are at most 4096 bytes, both parsers return the same code and build the same tree if and only if no entry that goes in has padding that passes the end; otherwise the physical parser reports a missing trailer and the pointer parser reads on behind the archive |
| CpioSpec.ParsersAgree | core/fs/cpio.c:200-349 | so in an image whose size is a multiple of four they always agree |
| CpioSpec.PaddingPastTheEnd | core/fs/cpio.c:210-210 | one such step: the padding passes the end, the size is no multiple of four, and the parsers part |
| CpioImage.RecordParses | core/fs/cpio.c:278-345 | a written record is read back as its path, mode and bytes, and the next record follows it |
| CpioImage.LoadsEncoding | core/fs/cpio.c:273-349 | loading a written archive installs exactly its entries in order |
| CpioImage.UnpaddedParts | core/fs/cpio.c:200-349 | the parsers part on every image of one entry that goes in, with data of no multiple of four bytes and no padding behind it |
| VfsCreate.WalkAfterAdd | core/fs/vfs.c:108-110 | a walk that succeeds after an entry was added succeeded before or ends with the new entry |
| VfsCreate.WalkUnique | core/fs/vfs.c:84-112 | in a tree there is one way to an inode |
| CpioTree.EnterWorks | core/fs/vfs.c:346-445 | with no file or link on its way an entry goes in, or is a directory that was there already |
| CpioTree.AllInstalled | core/fs/cpio.c:104-161 | every entry of a well-formed list goes in and all are there in the end |
| CpioTree.InstallMakes | core/fs/cpio.c:163-198 | at a path that is free, type 4 makes a directory, type 10 a link to the text up to its first NUL, type 8 a file, and no type a file with the file bit added; an empty link is an error, every other type is skipped |
| CpioTree.BadRecordRefused | core/fs/cpio.c:221-250 | both loaders return -1 at a record with another magic, an empty name, or a header, name or contents past the end |
| CpioTree.LongNameRefused | core/fs/cpio.c:299-301 | the physical loader also at a name of more than 4096 bytes |
| CpioTree.DuplicateStops | core/fs/cpio.c:258-266 | a file or link at a path that exists stops both loaders with -1, and what was loaded before stays |
| Cpio.ParseHexText | core/fs/cpio.c:36-59 | the loop computes the number |
| Cpio.NormalizePath | core/fs/cpio.c:74-102 | leading dots and then slashes go; nothing is left of a name of only those |
| Cpio.InstallOne | core/fs/cpio.c:163-198 | directories, links, files and other types as the type bits say |
| Cpio.ReadPhys | core/fs/cpio.c:287-345 | one turn of the physical parser, all checks in order |
| Cpio.ReadPointer | core/fs/cpio.c:221-267 | one turn of the pointer parser |
| Cpio.PopulateVfsPhys | core/fs/cpio.c:273-349 | the loop over physical offsets, with the case that it reads outside the archive |
| Cpio.PopulateVfs | core/fs/cpio.c:200-271 | the loop over addresses, with the case that it reads outside the archive |
| Cpio.ArchiveRoundTrip | core/fs/cpio.c:200-349 | any well-formed list of entries written as an archive, with digits in either case, is accepted by both loaders with code 0; every entry is then found under its normalised path and every regular file reads back byte for byte |
| Cpio.SmallFileParts | core/fs/cpio.c:200-349 | an image of 113 bytes on which they do: the physical parser creates the file and reports -1, the other reads on |
| ElfSpec.LeInvertsStore | core/elf.c:165-200 | a word is read back as it was stored |
| ElfSpec.LowestByteFirst | core/elf.c:165-200 | numbers are read lowest byte first |
| ElfSpec.PhdrReads | core/include/elf.h:34-43 | every program header, written field by field as the format lays it out, is read as its fields |
| ElfSpec.EhdrReads | core/elf.c:12-33 | every file header likewise; it is accepted exactly with the magic bytes, class 2, encoding 1, type 2 or 3 and machine 62 |
| ElfSpec.WrittenPhdr | core/elf.c:238-243 | program headers written one behind the other, 56 bytes each, from the place the file header gives, are the ones read |
| ElfSpec.SegmentPages | core/elf.c:50-64 | a segment whose end does not wrap has exactly the pages that its bytes in memory meet, and its place is accepted exactly if these lie from 4 MiB to 8 MiB |
| ElfSpec.SegmentRule | core/elf.c:50-92 | the pages of a proper segment hold its file bytes at its address and zero elsewhere, and cover it |
| ElfSpec.StaleIff | core/elf.c:79-87 | the byte left at an address is one that the copy buffer happened to hold if and only if the file part covers it and the file ends before its place |
| ElfSpec.ShortFileIsStale | core/elf.c:79-87 | a segment whose file part reaches past the end of the file leaves such a byte at its end |
| ElfSpec.ShortImageIsStale | core/elf.c:217-259 | an image of 120 bytes with headers in order does: its one byte is the buffer's |
| ElfSpec.DisjointImage | core/elf.c:238-253 | with page-disjoint segments each page holds its own segment whatever the order |
| Elf.SplitHugeRange | core/mm/paging.c:470-490 | huge pages in the range are split without changing any translation |
| Elf.ReadPage | core/elf.c:71-87 | the buffer for one page: bytes of the file, and what it held before where the file is too short |
| Elf.FillPage | core/elf.c:74-92 | where the window has its page table afterwards the page is cleared and filled; otherwise the clear failed, no byte changed, and the failure shows exactly if the file has bytes for the page; no other byte and no translation outside the window changes |
| Elf.LoadPage | core/elf.c:66-97 | the page then also belongs to user mode; when no frame is left for the window's page table the load of a page succeeds exactly if the file has no bytes for it and its own page table is there; where its page table is there it succeeds exactly if the window then has its own or the file has no bytes for the page |
| Elf.MapSegment | core/elf.c:47-100 | all pages of a segment are filled and belong to user mode; segments outside the window are refused without any change; where the pages for images have their tables a segment in the window succeeds under the same condition |
| Elf.Load | core/elf.c:217-259 | on success the header is valid and all loadable segments lie in the window and belong to user mode; all of memory is as the segments leave it if the kernel window has its page table, and as it was otherwise, when no segment had bytes in the file; the conditions that a clone needs stay, also on failure; where the pages for images have their tables, the load succeeds exactly for a file that is long enough, with a good header, all program headers and all loadable segments in the window, if the kernel window has its page table or no segment has bytes in the file |
| Elf.BootHasImageTables | core/mm/paging.c:209-221 | once the boot has mapped the first 8 MiB, the pages for images have their tables |
| Elf.ContentsIff | core/elf.c:74-74 | after a successful load memory is as the segments leave it if and only if the clears did not fail, which the window's page table tells, or all bytes of the segments were zero before |
| Elf.SegmentInPlace | core/elf.c:217-259 | after a successful load with either of these each page-disjoint proper segment holds its file bytes and zeros, on pages mapped to themselves, user and writable |
| UserStack.TableReadsBack | core/elf.c:182-196 | reading a null-terminated table of pointers to strings recovers the strings |
| UserStack.Stack.PushBytes | core/elf.c:132-135 | the stack pointer goes down to a multiple of 16 and the bytes lie there; what was stored before stays |
| UserStack.Stack.PushStrings | core/elf.c:129-147 | all strings are stored with their terminators where the pointers say |
| UserStack.Stack.PushAux | core/elf.c:151-177 | the random bytes and the three auxiliary pairs |
| UserStack.Stack.PushTable | core/elf.c:182-196 | the pointers and a null pointer, in order |
| UserStack.Stack.Build | core/elf.c:102-215 | a reader of the stack at the returned pointer recovers argc, the first 15 arguments and environment strings and the auxiliary vector; the pointer is that of the pushes one by one, and 16-aligned if and only if argc + envc is odd |
| UserStack.ProgramFinds | core/elf.c:121-200 | address by address: the count is the number of arguments, at most 15; the tables lead to the first arguments and environment strings in order and end with 0; the auxiliary pairs are 6 with 4096, 25 with the address of the 16 fixed bytes, and 0 |
| UserStack.BelowTheStackIff | core/elf.c:129-200 | the pointer after all pushes lies below the stack if and only if strings, pairs and tables do not fit its 128 KiB |
| UserStack.ExecFits | core/syscall.c:1474-1512 | strings of at most 255 bytes, which is what execve copies in, always fit |

## Left out

- Hardware effects: CR3 and MSR writes, TLB flushes, descriptor tables, interrupts, timers, ports and the screen; switching the address space sets the root, flushing does nothing.
- Accessed and dirty bits that the processor sets in page-table entries.
- Page-table entries are a frame number with named flag bits; their packing into 64-bit words is not modelled. Tables and data are two maps over frames, so that a data store into a table frame cannot be expressed; methods that store data require a frame that is no table.
- Tables are edited through their physical addresses; that they are reachable through the live mapping is not claimed.
- Walking the multiboot tags: the memory map and the module list are parameters.
- Failing allocations of small kernel objects are boolean or count parameters of the calls in ProcSpec and Proc; in the file tree, the archive loader and the image loader they are taken to succeed.
- Frame conservation on failed clones and on mapping over an existing page: the code leaks frames there.
- UserStack.Stack.Build: the stack is its own buffer, and whether its pages could be mapped is a parameter; where the code would store below the stack the model stops.
- proc_run_runnable and its setjmp control flow (core/proc.c:299-332), and the halting loop of sched_block_current: other tasks run as arbitrary steps, in any order.
- Isolation after exec: images are loaded at fixed physical addresses and a non-copying clone shares its tables.
- Stub system calls, console input and output, pointer checks on user addresses, and the standard descriptors' console files beyond their being open.
- sys_read: `Pipe.Ring.Read` has its own contract instead of the caller's stack buffer.
- File records are values in the descriptor tables; inode, position and path fields that no modelled call looks at are kept abstract.
- String and memory routines are sequence operations; strncmp is modelled where it decides something.
- Inodes are indices into a table instead of pointers, and a directory's linked entries a sequence with the newest first.
- stat, readlink, reading through open handles and directory listing of the file system.
- Heap.Heap.Kmalloc: requires that the size sums do not wrap around 64 bits; `HeapSpec.ExpansionCoversIff` says exactly up to which size they cover the request.
- Clone.CloneCurrentAddressSpace: from a direct copy that goes astray on, nothing is said about what the code does; likewise for `Paging.Machine.CopyFromPhys`.
- UserRange.PagesAreMapped: covers ranges within 48 bits, beyond which addresses of different pages share their table indices.
- CloneRuns.ChildIsReady: does not cover a space in which an open page below the limit maps, at its own address, the frame of a page whose links are closed.
- Proc.Table.DupTo: with equal descriptors the source is the record just given back. Its first two words, inode and position, are a parameter, because a block header of the heap may have been written over them (core/mm/heap.c:50-54); no header reaches the pipe fields 272 bytes further in, and the copy is taken to run forward where the two records overlap.
- CpioSpec.ParsersAgreeIff: a parser that reads outside its archive or past an unterminated name ends in the outcome Lost, about whose bytes nothing is said; `Cpio.PopulateVfs` and `Cpio.PopulateVfsPhys` report it and stop there.
- VfsLinks.LookupEndsIff: restricted to absolute links and to texts that fit the 512-byte buffers; outside of that the lookup does not mean substitution.
- Elf.Load: image frames must be reserved and no tables, as the boot reservation leaves them; instruction and data protection of segments is not claimed, since every image page is made writable.
