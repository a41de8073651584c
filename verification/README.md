# YACK: memory management, console and formatter

This project models the parts of the YACK kernel whose code has an abstract meaning worth stating, and
proves that the code has that meaning. Run `dafny verify dfyconfig.toml` to check all of it.

- **Memory.** `Words.Ram` is one memory of 32-bit words that list nodes, page headers, page tables and
  directories share, as they do in the kernel. A cell is named by the kernel (direct map) address of
  its word; the word at physical address `pa` is the cell at `pa + KERNEL_BASE`, modulo 2^32. Pointers
  and address arithmetic are 32-bit with wrap-around. Bitwise operators are defined bit by bit in
  `Bits`, and the macros of x86.h use them as the C code does.
- **Lists.** `Lists` gives the meaning of the circular lists (a sequence of node addresses read along
  `next`) and proves what each operation does to it; `ListCode` holds the operations statement by
  statement. `HLists` does the same for hlists, where `pprev` is the address of the word that points
  at the node.
- **Page allocator.** `Pages`: the free list threaded through the free pages is a FIFO queue.
- **Page tables.** `Paging` is the processor's walk (section 4.3 of the Intel 64 and IA-32
  Architectures Software Developer's Manual, Volume 3A, 32-bit paging with CR4.PSE set and 32 bits of
  physical address). `Kvm` says what mapping pages does to memory and proves it on that walk, under
  the ownership invariant `Kvm.Owned`; `KvmCode` holds the code. `VmLaws` and `VmRuns` state the
  laws of `vm_map_pages`, `Boot` those of `kvm_create` and `kvm_init`.
- **Console.** `Memop` (byte copying) and `Console`: the screen is the tail of everything ever
  written, wrapped at 80 columns.
- **Formatter.** `Digits`, `Format` and `FormatCode`: `kvsnprintf` writes what a recursive rendering
  of the format says. `FormatLaws` says what that is for every directive, byte by byte.
  `FormatCode.Kprintf` joins it to the console.

Functions over memory values say what an operation does; each imperative method is proved equal to its
function, and the theorems are about the functions. `hide` at the top of a proof keeps definitions it
does not need away from the verifier. Most modules end with laws in plain numbers, which lean on no
constant or helper of the model: what a list is in words of memory, where a mapped range starts and
ends, what the 4000 bytes of a screen hold. The lemmas named `...Elsewhere` say what an operation
leaves alone.

Where the code does not do what its comments or its purpose suggest, the model follows the code and
says exactly when the purpose is met:

- `vm_map_pages` takes its size in bytes (kernel/mm/kvm.c:99), although kernel/include/mm/vm.h:23 says
  pages, and never returns -1. It covers the whole request exactly when the request stays out of the
  last page of the address space (`VmLaws.CoversRequest`), and it keeps frame addresses intact exactly
  when the permissions are below 4096 (`VmLaws.PermissionsFit`).
- `vm_map_page_` overlooks 4 MB pages. It maps its page exactly when the directory slot does not hold
  one, or one that says the same already, which permissions below 0x80 rule out, or one that the write
  happens to land on and replace by a word that will do (`VmLaws.MapPageExact`, `VmLaws.Effective`).
  The kernel makes such a slot itself, see the next point.
- `kvm_create` does not clear the page it makes a directory of. Its first word is still the
  allocator's magic number, which the processor reads as a 4 MB entry with a reserved bit set, so the
  low 4 MB fault (`Boot.BootView`). They can never be mapped: any number of requests to do so leaves
  them faulting (`Boot.LowRequests`, on any memory with that word in place). The entries are aimed at
  the page at 0x5EADB000, which nobody gave the kernel; under the boot directory, where `kvm_init`
  leaves the processor, that page is not mapped, so that the first such store would itself fault
  (`Boot.BootLow`). Elsewhere the page keeps what it held. The kernel's own 4 MB come out right at an
  address exactly when the word found in the kernel's slot is harmless for it (`Boot.CreateExact`, and
  `Boot.BootExact` on the memory `kvm_init` starts from): it has no present bit, or it names a table
  rather than a 4 MB page, lets writes through where the kernel needs to write, and names no page of
  its own past the kernel. A word that names the directory page itself is overwritten half-way by a
  kernel that reaches past 2 MB; then it depends on the words at 0x80200000 (`Boot.SelfHarmless`). A
  stray 4 MB entry that stays is wrong at every address (`Boot.CreateShadowed`); `Boot.BootFails` is a
  start state with one.
- `kpfree_range` frees the page `start` lies in only if `start` is page-aligned and the page `end` lies
  in only if `end` is not, whatever kernel/include/mm/pages.h:28-31 says; an `end` inside the last page
  of the address space frees nothing (`Pages.FreeRangeEnds`).
- `kpalloc` works through address 4 when the pool is empty, before it looks at the pointer. It keeps to
  the pool's own links exactly when the pool is not empty or the words around NULL are zero
  (`Pages.AllocNeedsPage`); callers must not let it run dry.
- `itoa` prints a number correctly exactly when it is not negative (`Digits.ItoaExact`), and hence
  `kvsnprintf` renders a format correctly exactly when no `%d` argument is (`Format.WrittenExact`).
  A negative number of ten digits prints nothing at all, whatever was printed before, because the
  first five bytes of the static buffer are never written (`Format.LostRun`).
- `kvsnprintf` checks its room only between directives, and not at all before its NUL. Output and NUL
  stay within the buffer if the rendering is shorter than the buffer and, as long as no negative `%d`
  argument cuts the output short, only then (`Format.RoomExact`), so plain text just as long as the
  buffer already runs over (`Format.PlainOverrun`).
  Without `%s` it runs over by less than 10, whatever the arguments and whatever was printed before
  (`Format.OvershootRun`), and `%p` shows that the bound is met (`Format.OvershootReached`).
- `memcpy` copies overlapping ranges correctly exactly when the destination does not start inside the
  source (`Memop.ForwardCopyExact`); `memmove` always does.

## Model

| member | source | states |
|---|---|---|
| Words.WrapAround | arch/i386/include/x86.h:15-16 | addresses are added and subtracted modulo 2^32 |
| Layout.DirectMap | arch/i386/include/x86.h:7-16 | a physical address appears 0x80000000 higher, modulo 2^32 |
| Layout.PdIndex | arch/i386/include/x86.h:84 | the shift and mask extract bits 31 to 22 of an address |
| Layout.PtIndex | arch/i386/include/x86.h:86 | the shift and mask extract bits 21 to 12 |
| Layout.PteAddr | arch/i386/include/x86.h:87 | masking with ~0xFFF clears the low 12 bits and nothing else |
| Layout.PageUp | arch/i386/include/x86.h:95 | rounds up to a page, except that anything in the last page but its first byte wraps to 0 |
| Layout.VaRoundTrip | arch/i386/include/x86.h:84-93 | an address split into its indices and offset is rebuilt by MKVA |
| Layout.VaParts | arch/i386/include/x86.h:84-93 | an address built by MKVA splits into the indices and offset it was built from |
| Lists.AddHeadRing | utils/include/list.h:83-108 | list_add puts a node right after the head of a ring |
| Lists.AddTailRing | utils/include/list.h:83-122 | list_add_tail puts a node at the end of a ring |
| Lists.DeleteRing | utils/include/list.h:131-174 | list_del takes an entry out of a ring wherever it is and clears its links |
| Lists.ReplaceRing | utils/include/list.h:183-190 | list_replace puts the new node in the old one's place, also when the old one is alone |
| Lists.SwapExchanges | utils/include/list.h:211-221 | list_swap exchanges two entries of one ring of any length, in either argument order, adjacent or not |
| Lists.SwapAcross | utils/include/list.h:211-221 | it exchanges entries of two rings as well, unless the second is alone in its ring, which the first then joins it in |
| Lists.BulkMoveTailRing | utils/include/list.h:267-279 | list_bulk_move_tail turns A++S++B into A++B++S, also with B empty or S every entry |
| Lists.RotateLeftRing | utils/include/list.h:328-337 | list_rotate_left moves the first entry to the end and touches no cell outside the ring |
| Lists.RotateToFrontIsRotations | utils/include/list.h:328-355 | list_rotate_to_front on the k-th entry leaves the same memory as k rotations to the left |
| Lists.FullRotation | utils/include/list.h:328-337 | n rotations of an n-entry list restore memory exactly |
| Lists.CutRings | utils/include/list.h:367-437 | list_cut_position and list_cut_before split a ring into prefix and suffix rings and do the same to memory |
| Lists.CutAtHead | utils/include/list.h:394-407 | cutting at the head yields an empty list and leaves the ring alone; splicing that back changes nothing |
| Lists.SpliceRing | utils/include/list.h:439-463 | list_splice inserts all entries of one ring after the head of another, and does nothing for an empty one |
| Lists.CutThenSplice | utils/include/list.h:367-463 | cutting and splicing back restores the ring and all memory but the spare head |
| Lists.CutNothing | utils/include/list.h:394-401 | list_cut_position does nothing on an empty list, nor on a list of one entry asked to cut at another |
| Lists.RingCells | utils/include/list.h:17-19 | a ring is exactly this: each node's first word is the next node's address, its second the previous one's, nodes aligned and apart |
| Lists.AddElsewhere | utils/include/list.h:83-122 | adding writes to the new entry and the list only |
| Lists.DeleteElsewhere | utils/include/list.h:131-174 | deleting writes to the list only |
| Lists.ReplaceElsewhere | utils/include/list.h:183-190 | replacing writes to the two entries and the list only |
| Lists.SwapElsewhere | utils/include/list.h:211-221 | swapping writes to the rings of the two entries only |
| Lists.MoveElsewhere | utils/include/list.h:251-256 | moving writes to the list left and the list joined only |
| Lists.BulkMoveElsewhere | utils/include/list.h:267-279 | a bulk move writes to the list only |
| Lists.CutListElsewhere | utils/include/list.h:367-407 | cutting writes to the list and the spare head only |
| Lists.SpliceElsewhere | utils/include/list.h:439-463 | splicing writes to the two lists only |
| ListCode.InitListHead | utils/include/list.h:51-56 | makes a one-node ring |
| ListCode.ListAdd | utils/include/list.h:83-108 | the code's memory effect, and the ring it leaves |
| ListCode.ListAddTail | utils/include/list.h:118-122 | the code's memory effect, and the ring it leaves |
| ListCode.ListDel | utils/include/list.h:131-174 | the code's memory effect, and the ring it leaves |
| ListCode.ListReplace | utils/include/list.h:183-190 | the code's memory effect, and the ring it leaves |
| ListCode.ListSwap | utils/include/list.h:211-221 | the code, adjacency test included, has the effect SwapExchanges and SwapAcross are about |
| Lists.MoveTailRings | utils/include/list.h:251-256 | list_move_tail makes the entry the last of the head's list, within one list or from another, which keeps its other nodes |
| ListCode.ListMoveTail | utils/include/list.h:251-256 | the code's memory effect, and the rings it leaves |
| ListCode.ListBulkMoveTail | utils/include/list.h:267-279 | the code's six writes, in order and re-reading memory, move the segment to the tail |
| ListCode.ListRotateLeft | utils/include/list.h:328-337 | the code's effect; an empty list stays as it is |
| ListCode.ListRotateToFront | utils/include/list.h:346-355 | the code's effect: the given entry becomes the first |
| ListCode.ListCutPosition | utils/include/list.h:367-407 | the code, with its early returns, cuts after the given entry |
| ListCode.ListCutBefore | utils/include/list.h:423-437 | the code cuts before the given entry |
| ListCode.ListSplice | utils/include/list.h:439-463 | the code joins the two rings |
| HLists.InsertHList | utils/include/list.h:936-975 | a node inserted after any location (head, or next word of a node) joins the hlist there, every pprev right |
| HLists.RemoveHList | utils/include/list.h:887-911 | deleting a node closes the gap and clears its links |
| HLists.MoveHList | utils/include/list.h:1023-1030 | a list moves to another head with its first pprev fixed up, and the old head is empty |
| HLists.HListCells | utils/include/list.h:21-27 | each word that points at a node, the node's second word pointing back at that word, 0 at the end |
| HLists.InsertElsewhere | utils/include/list.h:936-975 | inserting writes to the node and the hlist only |
| HLists.RemoveElsewhere | utils/include/list.h:887-911 | deleting writes to the hlist only |
| HLists.MoveElsewhere | utils/include/list.h:1023-1030 | moving writes to the two heads and the first node's pprev only |
| HLists.HlistAddHead | utils/include/list.h:936-945 | the code inserts after the head |
| HLists.HlistAddBefore | utils/include/list.h:952-959 | the code inserts at the location that held the pointer to the next node |
| HLists.HlistAddBehind | utils/include/list.h:966-975 | the code inserts behind a node |
| HLists.HlistDel | utils/include/list.h:887-911 | the code removes a node |
| HLists.HlistMoveList | utils/include/list.h:1023-1030 | the code moves the list |
| Pages.AllocPool | kernel/mm/pages.c:21-39 | kpalloc takes the longest-waiting page, its magic number intact, and writes to nothing but links |
| Pages.AllocNeedsPage | kernel/mm/pages.c:21-39 | kpalloc returns NULL exactly on an empty pool, and then changes memory outside the pool's links unless what it overwrites is zero |
| Pages.FreePool | kernel/mm/pages.c:53-64 | kpfree queues the page last and writes to nothing but links and the page's magic word |
| Pages.FreeAllPool | kernel/mm/pages.c:41-64 | freeing several pages queues them in order |
| Pages.PagesFromExact | kernel/mm/pages.c:41-51 | the pages freed are exactly the aligned addresses in the range |
| Pages.PagesFromAscending | kernel/mm/pages.c:41-51 | they are freed in strictly ascending order, so each once |
| Pages.FreeRangeEnds | kernel/mm/pages.c:41-51 | when the pages holding the two ends of the range are freed, for any two addresses |
| Pages.FifoRun | kernel/mm/pages.c:21-64 | over every legal run, pages taken ++ pages free = pages free at first ++ pages given back, and every magic number check passes |
| Pages.PartitionRun | kernel/mm/pages.c:21-64 | over every legal run, free and held pages partition all pages ever in the pool |
| Pages.PoolCells | kernel/mm/pages.c:7-19 | the words of the registry and of every free page: magic number 0xDEADBEAF, then the links |
| Pages.FreeRangePlain | kernel/mm/pages.c:41-51 | the pages freed are the multiples of 0x1000 from start up to, not including, end |
| Pages.Kpalloc | kernel/mm/pages.c:21-39 | the code returns the head of the queue; its assertion holds |
| Pages.Kpfree | kernel/mm/pages.c:53-64 | the code appends the page to the queue; its assertion holds |
| Pages.KpfreeRange | kernel/mm/pages.c:41-51 | the loop appends exactly the pages of the range, in order |
| Paging.EntryBits | arch/i386/include/x86.h:48-66 | present, writable, user and 4 MB page are bits 0, 1, 2 and 7 of an entry |
| Paging.BigBits | arch/i386/include/x86.h:55 | a 4 MB entry is malformed exactly when one of bits 13 to 21 is set, and maps from the address in its upper ten bits on |
| Paging.WalkIs | arch/i386/include/x86.h:15-16 | the processor's walk from the physical address of a directory page reads the words the kernel sees in it |
| Kvm.EnsureTableOwned | kernel/mm/kvm.c:219-232 | a slot without a table gets the first free page, cleared; nothing else that is owned changes |
| Kvm.MapPageOwned | kernel/mm/kvm.c:207-241 | mapping a page keeps directories, tables and free pages disjoint and unshared |
| Kvm.MapPageTranslate | kernel/mm/kvm.c:207-241 | one page of one directory is remapped; every other translation in every directory stays |
| Kvm.MapRangeOwned | kernel/mm/kvm.c:99-108 | a range takes exactly one free page for each slot it crosses that had no table, and keeps ownership |
| Kvm.MapRangeTranslate | kernel/mm/kvm.c:99-108 | what a range of pages does to the translation of any address |
| Kvm.TableEntryIs | kernel/mm/kvm.c:230-231 | the directory entry is the table's physical address plus 7 |
| Kvm.PageEntryIs | kernel/mm/kvm.c:239 | the page entry is the frame's address plus the permissions with bit 0 set |
| Kvm.MapPageElsewhere | kernel/mm/kvm.c:207-241 | outside free pages and directories, mapping a page writes to one table only |
| Kvm.MapRangeElsewhere | kernel/mm/kvm.c:99-108 | outside free pages and directories, mapping a range writes to that directory's tables only |
| Kvm.OwnedPlain | kernel/mm/kvm.c:207-241 | what ownership says of any two directory words |
| KvmCode.ClearPage | kernel/mm/kvm.c:229 | the page is all zeroes and the rest of memory unchanged |
| KvmCode.VmMapPage | kernel/mm/kvm.c:207-241 | the code has the effect of Kvm.MapPage and returns 0; its assertions hold whenever the slot has the present bit or a page is free |
| KvmCode.ReadyServed | kernel/mm/kvm.c:99-108 | under ownership, free pages for the missing tables are all the loop needs |
| KvmCode.FirstPageOf | kernel/mm/kvm.c:98 | mapping starts at vaddr - vaddr % 0x1000 |
| KvmCode.EndPageOf | kernel/mm/kvm.c:99 | and ends at vaddr + size modulo 2^32, rounded up, which is 0 inside the last page |
| KvmCode.VmMapPages | kernel/mm/kvm.c:84-108 | the loop has the effect of Kvm.MapRange and returns the number of pages in the range |
| VmLaws.VmMapIsRangeUpdate | kernel/mm/kvm.c:84-108 | the walk reaches paddr + (x - first) with the given rights inside the mapped pages, and is unchanged everywhere else |
| VmLaws.VmMapPlain | kernel/mm/kvm.c:84-108 | the same in vaddr, paddr, size and permissions alone, for every request |
| VmLaws.CoversRequest | kernel/mm/kvm.c:98-99 | the mapped pages cover the request exactly when it stays out of the last page |
| VmLaws.PermissionsFit | kernel/mm/kvm.c:239 | the page entry keeps every frame address exactly when the permissions are below 4096 |
| VmLaws.BigPageShadows | kernel/mm/kvm.c:219-239 | in a slot with a 4 MB page the call writes to that page's memory and changes no translation of the slot, unless it hits the slot's own word, which then decides |
| VmLaws.MapPageExact | kernel/mm/kvm.c:207-241 | the page gets the translation asked for exactly when its slot holds no 4 MB page, or one that already gives it, or one replaced by a word that does |
| VmLaws.RangeInPlace | kernel/mm/kvm.c:99-108 | in a present slot, whatever page it names as its table, the range's entries are filled in there and the others stay |
| VmLaws.RangeElsewhere | kernel/mm/kvm.c:99-108 | and no other page is written to |
| VmLaws.RangeInstalls | kernel/mm/kvm.c:99-108 | after the call, every page of the range has a table whose entry holds its frame and permissions |
| VmLaws.VmMapTwice | kernel/mm/kvm.c:84-108 | the same call again changes no word of memory |
| VmRuns.RequestSlots | kernel/mm/kvm.c:99-108 | a call gives each slot it reaches into a table and leaves every other slot of every directory alone |
| VmRuns.RequestsCommute | kernel/mm/kvm.c:84-108 | calls for different pages that can be served in one order can be in the other, for as many pages, and give the same translations |
| VmRuns.VmRunOwned | kernel/mm/kvm.c:84-108 | every legal run of mapping, allocating, freeing, new directories and client writes keeps ownership |
| Boot.CreateView | kernel/mm/kvm.c:26-50 | the kernel's 4 MB translate as intended: up to end, read-only from KERNEL_LINK to data, nothing beyond |
| Boot.CreateElsewhere | kernel/mm/kvm.c:26-50 | no directory already in use translates anything differently |
| Boot.CreateShadowed | kernel/mm/kvm.c:30-46 | a stray 4 MB entry in the uncleared page that no write lands on survives and spoils the view at every address |
| Boot.SelfSteps | kernel/mm/kvm.c:34-46 | what becomes of a page whose kernel slot names the page itself, turn by turn |
| Boot.CreateExact | kernel/mm/kvm.c:26-50 | the view is right at an address exactly when the word the uncleared page holds in the kernel's slot is harmless for it |
| Boot.BootOwned | kernel/mm/kvm.c:53-72 | kvm_init's directory is the first page past the kernel, its one table the next, and ownership holds |
| Boot.BootFree | kernel/mm/kvm.c:70-72 | the free pages are exactly the whole pages past those two, up to 4 MB |
| Boot.BootView | kernel/mm/kvm.c:53-74 | the new directory shows the intended view and agrees with the boot directory on physical addresses; the boot directory maps nothing else, and the low 4 MB fault in the new one |
| Boot.BootExact | kernel/mm/kvm.c:53-74 | the same exact condition for kvm_init, on the memory it starts from |
| Boot.BootFails | kernel/mm/kvm.c:53-74 | a start state from which every address of the kernel comes out wrong |
| Boot.LowRequest | kernel/mm/kvm.c:84-108 | with the magic number as its first word, a request for low pages writes each entry to one unrelated page and nothing else |
| Boot.LowRequests | kernel/mm/kvm.c:84-108 | any number of such requests leaves the low 4 MB faulting |
| Boot.BootLow | kernel/mm/kvm.c:53-108 | this is so for the directory kvm_init builds, and the boot directory does not map the page those entries are aimed at |
| Boot.BootPlain | kernel/mm/kvm.c:53-74 | what every address of the kernel reaches after kvm_init under either directory, and which pages are free, in plain numbers |
| Boot.CreateMemory | kernel/mm/kvm.c:26-50 | kvm_create writes to the registry and to free pages only |
| Boot.BootMemory | kernel/mm/kvm.c:53-74 | kvm_init changes nothing outside the pages it frees but the boot directory's page and the registry |
| Boot.KvmCreate | kernel/mm/kvm.c:26-50 | the code has the effect CreateView and CreateExact are about; its assertion holds |
| Boot.KvmInit | kernel/mm/kvm.c:53-74 | the code has the effect BootView and BootExact are about |
| Memop.ForwardCopyExact | kernel/memop.c:12-20 | a forward copy is right for all contents exactly when the destination does not start inside the source |
| Memop.Memset | kernel/memop.c:3-11 | fills exactly the range |
| Memop.Memcpy | kernel/memop.c:12-20 | copies byte by byte from the front |
| Memop.Memmove | kernel/memop.c:22-33 | the destination becomes the old source range for every overlap, and nothing else changes |
| Memop.FilledWords | kernel/memop.c:3-11 | filling bytes fills words; clearing a page's bytes clears its words |
| Console.LinesAppend | kernel/io/write.c:61-97 | one more character extends or completes the last line of the wrapped history |
| Console.LinesBreak | kernel/io/write.c:89-90 | byte 10 ends a line: the lines before it and the lines after it are the lines of the whole |
| Console.LinesPlain | kernel/io/write.c:75-81 | without byte 10, line i is the bytes from 80 * i on, up to 80 of them |
| Console.ScreenPlain | kernel/io/write.c:26-30 | the 4000 bytes of a screen that has been written to, and the cursor |
| Console.ToVga | kernel/io/write.c:29-30 | a cell is the character and its attribute byte |
| Console.AsciiIsGrey | kernel/io/write.c:29-30 | for ASCII output every cell has attribute 7 |
| Console.Screen.InitBuffer | kernel/io/write.c:53-59 | a blank screen |
| Console.Screen.NewLine | kernel/io/write.c:61-73 | the screen shows one more, empty line, scrolled if need be |
| Console.Screen.Advance | kernel/io/write.c:75-81 | a full line is followed by a new one |
| Console.Screen.Putchar | kernel/io/write.c:83-97 | the screen shows the last 25 lines of the history with the character added, the cursor after it |
| Console.Screen.Write | kernel/io/write.c:99-108 | the same for a whole string, and its length |
| Digits.ParseNumeral | kernel/io/kvsnprintf.c:25-45 | the digits parse back to the number |
| Digits.NumeralDigits | kernel/io/kvsnprintf.c:34-41 | every character is a digit of the base: 0 to 9, then A on |
| Digits.DigitsPlain | kernel/io/kvsnprintf.c:36-41 | which character each digit is |
| Digits.ParsePlain | kernel/io/kvsnprintf.c:34-43 | what parsing means |
| Digits.NoLeadingZero | kernel/io/kvsnprintf.c:30-43 | only 0 starts with a zero |
| Digits.UtoaPlain | kernel/io/kvsnprintf.c:25-45 | what utoa leaves in the buffer, index by index |
| Digits.StringPlain | kernel/io/kvsnprintf.c:4-23 | a C string is the bytes before its first NUL |
| Digits.NumeralLength | kernel/io/kvsnprintf.c:25-45 | there are just as many digits as the number needs |
| Digits.BufferFits | kernel/io/kvsnprintf.c:28-29 | the static buffer holds every 32-bit value exactly from base 5 on |
| Digits.ItoaNegative | kernel/io/kvsnprintf.c:47-59 | what itoa's text is for a negative number in any base, given the buffer's earlier contents |
| Digits.ItoaLost | kernel/io/kvsnprintf.c:25-59 | with the buffer as it can really be, a negative number of ten digits prints nothing |
| Digits.ItoaExact | kernel/io/kvsnprintf.c:47-59 | itoa is right exactly for non-negative numbers, and never too long |
| Format.WrittenExact | kernel/io/kvsnprintf.c:61-120 | with room for all of it, the output is the rendering exactly when no %d argument is negative |
| Format.WrittenPrefix | kernel/io/kvsnprintf.c:69-120 | with less room, the output is a prefix of the rendering |
| Format.RoomExact | kernel/io/kvsnprintf.c:69-119 | output and NUL stay within bufsz bytes if the rendering is shorter than that, and, without negative %d arguments, only then |
| Format.PlainOverrun | kernel/io/kvsnprintf.c:69-119 | plain text of exactly bufsz characters puts its NUL past the buffer |
| Format.RunFresh | kernel/io/kvsnprintf.c:25-120 | over every run of calls the first five bytes of the static buffer stay zero |
| Format.Overshoot | kernel/io/kvsnprintf.c:69-119 | without %s the output stays below bufsz + 10 for every argument |
| Format.OvershootRun | kernel/io/kvsnprintf.c:25-120 | and so it does after every run of calls |
| Format.LostRun | kernel/io/kvsnprintf.c:25-120 | after every run of calls, %d of a negative number of ten digits writes nothing |
| Format.OvershootReached | kernel/io/kvsnprintf.c:69-119 | with bufsz 1, %p writes 10 bytes for every argument |
| Format.HexField | kernel/io/kvsnprintf.c:88-96 | %0x and %p write exactly eight hexadecimal digits that stand for the argument, %p after 0x |
| FormatLaws.RenderJoin | kernel/io/kvsnprintf.c:69-117 | formats rendered one after the other render as one, arguments taken from left to right |
| FormatLaws.PlainConditions | kernel/io/kvsnprintf.c:76-113 | which formats have no %s, and which arguments no negative number, at a glance |
| FormatLaws.TextRenders | kernel/io/kvsnprintf.c:72-75 | plain text stands for itself |
| FormatLaws.DRenders | kernel/io/kvsnprintf.c:84-87 | %d means the decimal digits of the word as a signed number, after a minus sign if negative |
| FormatLaws.URenders | kernel/io/kvsnprintf.c:104-106 | %u means the decimal digits of the word |
| FormatLaws.XRenders | kernel/io/kvsnprintf.c:93-96 | %x means its hexadecimal digits, without leading zeroes |
| FormatLaws.PRenders | kernel/io/kvsnprintf.c:88-96 | %p means 0x and eight hexadecimal digits |
| FormatLaws.SRenders | kernel/io/kvsnprintf.c:97-99 | %s means the string |
| FormatLaws.CRenders | kernel/io/kvsnprintf.c:100-103 | %c means the low byte of the word |
| FormatLaws.OtherRenders | kernel/io/kvsnprintf.c:81-83 | %% means a percent sign, an unknown letter nothing; neither takes an argument |
| FormatLaws.ZeroFlag | kernel/io/kvsnprintf.c:78-80 | zero flags fill %d up to ten and %x up to eight characters, and matter to no other letter |
| FormatCode.Strlen | kernel/io/kvsnprintf.c:15-23 | the length of the string |
| FormatCode.Strcpy | kernel/io/kvsnprintf.c:4-13 | the string and its NUL, and nothing else |
| FormatCode.Printer.Utoa | kernel/io/kvsnprintf.c:25-45 | in any base in which they fit, the digits end at index 14, bytes before them and byte 15 stay |
| FormatCode.Printer.Itoa | kernel/io/kvsnprintf.c:47-59 | the code's effect on the shared buffer and the pointer it returns, in any base |
| FormatCode.Printer.Kvsnprintf | kernel/io/kvsnprintf.c:61-120 | the buffer holds exactly the output and a NUL, the result is its length, bytes beyond are untouched |
| FormatCode.Kprintf | kernel/io/kprintf.c:3-14 | the console's history grows by the rendering, exactly when no %d argument is negative |

## Left out

- Serial port, PIC, PIT, keyboard, traps and `kmain`: port input and output whose behaviour depends on devices.
- Assembly, the linker script and inline assembly, `kmv_switch` included: from arch/i386/linker.ld only the page alignment of `data` is used.
- GDT and IDT packing: straight-line bit packing.
- Spinlocks: the macros expand to nothing.
- `klog`, `panic` and the output of `kassert`: a `kassert` is something to prove, and its logging is dropped.
- The cursor ports in `putchar` and the serial copy in `write`: only the cursor position is kept.
- Accessed and dirty bits: the processor may set them; the walk here only reads.
- Physical addresses above 4 GB in 4 MB entries (PSE-36): those bits count as reserved.
- `memset` on a page: `KvmCode.ClearPage` clears words; `Memop.Memset` and `Memop.FilledWords` cover the bytes.
- List iteration macros, `list_move`, `list_del_init`, the `_init` and `_tail` forms of splice and replace, `hlist_add_fake`: combinations of what is modelled, or reads.
- Volatile access (`READ_ONCE`, `WRITE_ONCE`): plain reads and writes.
- Lists.CutRings: not for an empty list, where the code does nothing and leaves the spare head uninitialised (Lists.CutNothing).
- Formats cut off in a directive, arguments of the wrong kind, and output longer than the memory behind the buffer: undefined in C, and preconditions here.
- FormatCode.Printer.Utoa: requires the digits to fit in the static buffer (below base 5 not every value does, Digits.BufferFits) and a base of at most 36, the end of the alphabet; beyond that the C code runs out of its buffer or its letters.
- Whether the kernel's own loads and stores are mapped: a word is taken to be reachable at its direct map address, although the boot directory maps only the kernel's 4 MB (Boot.BootView). Stray table pointers (Boot.CreateExact), 4 MB pages taken for tables (VmLaws.BigPageShadows, Boot.BootLow) and an empty pool (Pages.AllocNeedsPage) can lead out of them.
- The contents of the new directory outside the kernel's slot and its first three words: whatever the page held.
- Pages.Kpalloc: requires a non-empty pool, since on an empty one the code works through a NULL pointer.
