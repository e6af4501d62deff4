# Pintos kernel core, modelled in Dafny

Pintos is a small teaching operating system for 80x86. This repository holds four project stages built on it. This model covers the parts of them that hold the interesting state and arithmetic:

- **threads**: the 17.14 fixed-point arithmetic that the multi-level feedback queue scheduler uses (`fixed_point.h`) and the order-statistic treap behind the ready queue (`treap.h`);
- **userprog**: the command-line parser and argument stack, the ELF loader and its segment plan, the child-process records (`process.c`), and the system-call layer that checks user pointers, handles file descriptors and runs `mmap`/`munmap` (`syscall.c`);
- **vm**: the supplemental page table, frame table and the choice of the frame to evict (`page.c`, `frame.c`), and the swap slot map (`swap.c`);
- **filesys**: the 64-entry sector cache (`cache.c`), the three-level indexed inode with its growth, read, write and release paths (`inode.c`), directories (`directory.c`), and path resolution with create, open, remove and chdir (`filesys.c`).

Each Dafny module follows one source file, or one layer of one.

- Pure C helpers (fixed point, treap merge and split, the inode index arithmetic, the directory-slot codec) become functions over datatypes.
- Code that works by updating state becomes methods with loop invariants. These are the rank and select loops, the argument-stack pushes, the loader, the inode growth, read and write loops, the directory scans, and the page-fault path.
- Objects whose fields the source updates in place become classes: the treap, the frame table and page tables (`Vm.Vm`), the swap map, the sector cache, the open-inode list, the volume, and the user process with its descriptor and mapping tables.

Every such method is proved against a specification function over the old state or inputs. The properties the source relies on are proved about those functions as lemmas and as invariants that every method preserves.

The disk, the clock and user memory are parameters of the model:

- the disk is a map from sector to 512 bytes;
- the clock is the `now` argument the cache's LRU stamps come from;
- user memory is the bytes a page is filled from.

Where one source was refined in a later stage (`src/` and `proj4/` hold the same `filesys` files, and `proj2/` and `proj4/` the same `process.c`), the rows below cite the copy the model follows.

## Model

| member | source | states |
|---|---|---|
| FixedPoint.FIs2To14 | proj1/src/threads/fixed_point.h:8-11 | the format has 14 fraction bits, so F = 2^14 |
| FixedPoint.CDivTruncates | proj1/src/threads/fixed_point.h:24 | C's `/` leaves a remainder smaller than the divisor and either zero or of the dividend's sign, that is it truncates toward zero |
| FixedPoint.CDivUnique | proj1/src/threads/fixed_point.h:24 | the truncating quotient is the only quotient with such a remainder |
| FixedPoint.CDivAbs | proj1/src/threads/fixed_point.h:24 | the magnitude of a truncating quotient is the quotient of the magnitudes |
| FixedPoint.QuotientFits | proj1/src/threads/fixed_point.h:39 | a quotient whose magnitude is below 2^31 times the divisor fits in int32, so the cast back loses nothing |
| FixedPoint.Wrap32 | proj1/src/threads/fixed_point.h:39 | the int64 -> int32 cast keeps a value that fits and otherwise agrees with it modulo 2^32 |
| FixedPoint.IntToFp32 | proj1/src/threads/fixed_point.h:14-18 | given that n * F fits, int_to_fp32 n has no fraction bits and n as its integer part; IntRoundTrip and IntRoundTripNearest convert it back to n |
| FixedPoint.Fp32ToInt0 | proj1/src/threads/fixed_point.h:21-25 | fp32_to_int_0 rounds toward zero: r * F <= x < (r+1) * F for x >= 0, mirrored for x < 0 |
| FixedPoint.Fp32ToInt | proj1/src/threads/fixed_point.h:28-33 | fp32_to_int rounds to nearest: x is within F/2 of r * F, halves rounding away from zero |
| FixedPoint.Fp32DivInt | proj1/src/threads/fixed_point.h:57-61 | fp32_div_int is C's truncating quotient, undefined for a zero divisor and INT32_MIN / -1 |
| FixedPoint.IntRoundTrip | proj1/src/threads/fixed_point.h:14-25 | converting an int to fixed point and back, rounding toward zero, gives the int |
| FixedPoint.IntRoundTripNearest | proj1/src/threads/fixed_point.h:14-33 | the same with round-to-nearest |
| FixedPoint.Fp32Mul | proj1/src/threads/fixed_point.h:36-40 | fp32_mul is the int64 product divided by F toward zero and cast to int32: equal to that quotient when it fits and congruent to it modulo 2^32 otherwise; MulTruncates, MulByOne and MulIntAgreesWithMul state its arithmetic |
| FixedPoint.Fp32MulInt | proj1/src/threads/fixed_point.h:43-47 | fp32_mul_int x n is fp32_mul of x and n converted to fixed point, whenever that conversion fits (also MulIntAgreesWithMul) |
| FixedPoint.Fp32Div | proj1/src/threads/fixed_point.h:50-54 | fp32_div is x * F formed in int64, divided by y toward zero and cast to int32: equal to that quotient when it fits and congruent to it modulo 2^32 otherwise; DivTruncates, DivByOne and DivIntAgreesWithDiv state its arithmetic |
| FixedPoint.MulTruncates | proj1/src/threads/fixed_point.h:36-40 | when the product fits, fp32_mul is (x * y) / F truncated toward zero |
| FixedPoint.DivTruncates | proj1/src/threads/fixed_point.h:50-54 | when the quotient fits, fp32_div is (x * F) / y truncated toward zero |
| FixedPoint.MulByOne | proj1/src/threads/fixed_point.h:36-40 | multiplication by fixed-point one is the identity |
| FixedPoint.DivByOne | proj1/src/threads/fixed_point.h:50-54 | division by fixed-point one is the identity |
| FixedPoint.MulIntAgreesWithMul | proj1/src/threads/fixed_point.h:36-47 | fp32_mul_int x n equals fp32_mul of x and n converted to fixed point |
| FixedPoint.DivIntAgreesWithDiv | proj1/src/threads/fixed_point.h:50-61 | fp32_div_int x n equals fp32_div of x and n converted to fixed point |
| Treap.SizeIsCount | proj1/src/threads/treap.h:75-84 | in a tree whose size fields are maintained, a node's size is the number of nodes below it |
| Treap.Maintain | proj1/src/threads/treap.h:75-84 | treap_node_maintain keeps the in-order sequence and makes the size field the count of the subtree |
| Treap.Merge | proj1/src/threads/treap.h:89-112 | merge concatenates the in-order sequences and keeps the size fields right |
| Treap.MergeHeap | proj1/src/threads/treap.h:89-112 | merge keeps the heap order on ranks; the root takes the smaller rank |
| Treap.MergeRanks | proj1/src/threads/treap.h:89-112 | a rank bound on both inputs holds for the merged tree |
| Treap.Split | proj1/src/threads/treap.h:117-145 | split divides the in-order sequence in two, the left part holding min(max(k,0), n) nodes |
| Treap.SplitTakesPrefix | proj1/src/threads/treap.h:117-145 | the left part of a split at k is the first k nodes in order, and the right part is the rest |
| Treap.SplitHeap | proj1/src/threads/treap.h:117-145 | both halves of a split keep the heap order |
| Treap.SplitRanks | proj1/src/threads/treap.h:117-145 | a rank bound on the input holds for both halves |
| Treap.CountAtNode | proj1/src/threads/treap.h:148-175 | the descent step of the rank loop: going right adds the left size plus one |
| Treap.Rank | proj1/src/threads/treap.h:148-205 | the rank loop returns the number of nodes before x (strictly, or not) in the order |
| Treap.LowerRank | proj1/src/threads/treap.h:148-175 | treap_lower_rank counts the nodes that compare below x |
| Treap.UpperRank | proj1/src/threads/treap.h:178-205 | treap_upper_rank counts the nodes that compare at most x |
| Treap.CountBelowPrefix | proj1/src/threads/treap.h:148-205 | in a sorted sequence the rank splits the nodes below x from the rest |
| Treap.MemberAtLowerRank | proj1/src/threads/treap.h:243-254 | x is in the treap exactly when the node at its lower rank is x, which is how treap_find tests it |
| Treap.Select | proj1/src/threads/treap.h:208-240 | treap_select returns the k-th node in order (1-based) and no node when k is out of range |
| Treap.Find | proj1/src/threads/treap.h:243-254 | treap_find is true exactly when x is in the treap |
| Treap.Foreach | proj1/src/threads/treap.h:354-372 | treap_foreach applies the action to every node, in order |
| Treap.InsertAtShape | proj1/src/threads/treap.h:257-277 | splitting at k and merging a new node in keeps the size and heap invariants |
| Treap.InsertAtOrder | proj1/src/threads/treap.h:257-277 | the new node lands at in-order position k |
| Treap.InsertAtLowerRank | proj1/src/threads/treap.h:257-277 | inserting at the lower rank of x keeps a valid treap whose sequence is the sorted insertion of x |
| Treap.InsertSortedSorted | proj1/src/threads/treap.h:257-277 | inserting at the lower rank keeps the sequence sorted |
| Treap.EraseAtShape | proj1/src/threads/treap.h:280-301 | cutting out position k keeps the invariants and removes exactly that node |
| Treap.EraseAtLowerRank | proj1/src/threads/treap.h:280-301 | erasing at the lower rank of a present x keeps a valid treap without x |
| Treap.SortedWithout | proj1/src/threads/treap.h:280-301 | removing one node keeps the sequence sorted |
| Treap.Treap.constructor | proj1/src/threads/treap.h:47-56 | treap_init makes an empty treap |
| Treap.Treap.Size | proj1/src/threads/treap.h:304-317 | treap_size is the number of nodes |
| Treap.Treap.Insert | proj1/src/threads/treap.h:257-277 | insert adds x in sorted position when it is absent and otherwise changes nothing |
| Treap.Treap.Erase | proj1/src/threads/treap.h:280-301 | erase removes x when it is present, and reports whether it was |
| Treap.Treap.Front | proj1/src/threads/treap.h:375-386 | treap_front is the first node in order, or none when the treap is empty |
| Treap.Treap.PopFront | proj1/src/threads/treap.h:389-402 | treap_pop_front removes and returns the first node, and leaves an empty treap unchanged |
| Treap.Treap.NodeUpdate | proj1/src/threads/treap.h:323-351 | updating a node's key erases it and reinserts it under the new key, keeping the count |
| Process.Run | proj2/src/userprog/process.c:602-603 | the run of non-space bytes at the start of a string: a prefix with no space, followed by a space or the end |
| Process.StrTok | proj2/src/userprog/process.c:610 | strtok_r with the delimiter " " yields no token exactly when the rest holds none, and otherwise the first token and a strictly shorter rest |
| Process.TokensSkipRun | proj2/src/userprog/process.c:595-603 | a maximal non-space run is the first token and scanning continues after it |
| Process.TokensJoin | proj2/src/userprog/process.c:610-613 | splitting the space-joined words gives back the words |
| Process.CountArgs | proj2/src/userprog/process.c:590-604 | the counting loop yields one more than the number of space-separated tokens after the program name |
| Process.CollectArgs | proj2/src/userprog/process.c:607-614 | argv holds the program name followed by the tokens, and exactly argc of them (the ASSERT holds) |
| Process.ReadWordBytes | proj2/src/userprog/process.c:636-652 | a 32-bit word pushed on the stack reads back, little-endian, as the value modulo 2^32 |
| Process.ArgStack.constructor | proj2/src/userprog/process.c:587 | the argument stack starts at the given stack pointer and holds nothing |
| Process.ArgStack.Push | proj2/src/userprog/process.c:623-652 | a push lowers the stack pointer by the pushed length and puts the bytes below what is there |
| Process.PushStrings | proj2/src/userprog/process.c:617-628 | the strings are copied last argument first, each NUL-terminated, and each address recorded is where its string landed |
| Process.AlignStack | proj2/src/userprog/process.c:631-632 | zero bytes are pushed until the stack pointer is a multiple of 4, and no more |
| Process.PushPointers | proj2/src/userprog/process.c:639-642 | the argument addresses are pushed as words, argv[0]'s lowest |
| Process.ParseArgs | proj2/src/userprog/process.c:587-653 | the stack ends up holding exactly the argument image of the program name and tokens, on top of what was there |
| Process.ArgImageAligned | proj2/src/userprog/process.c:631-652 | the final stack pointer is word-aligned |
| Process.ArgHeader | proj2/src/userprog/process.c:636-652 | reading the image from the final stack pointer gives the return address 0, argc, argv pointing just above, and argv[argc] == NULL |
| Process.ArgPointer | proj2/src/userprog/process.c:617-642 | argv[i] points into the image at a copy of argument i followed by a NUL |
| Process.ArgString | proj2/src/userprog/process.c:619-628 | argument i is stored NUL-terminated where the address arithmetic says |
| Process.ProcessCreate | proj2/src/userprog/process.c:699-712 | process_create fails exactly when malloc does, and otherwise records the thread's tid, exit code -1 and status INIT |
| Process.FindChild | proj2/src/userprog/process.c:716-729 | the lookup yields the first record with the pid, or nothing when no record has it |
| Process.GetChildProcess | proj2/src/userprog/process.c:716-729 | the list walk returns what FindChild specifies |
| Process.FindAdded | proj2/src/userprog/process.c:92-94 | a child pushed onto a list that lacks its pid is found at the end |
| Process.RemoveChild | proj2/src/userprog/process.c:193 | removing a child from a list of distinct pids leaves distinct pids and no record with its pid |
| Process.ProcessThread.constructor | proj2/src/userprog/process.c:686-694 | process_thread_init leaves no children and the next descriptor 2 |
| Process.ProcessThread.AddChild | proj2/src/userprog/process.c:92-94 | process_execute appends the new child's record to the parent's list |
| Process.ProcessThread.Wait | proj2/src/userprog/process.c:182-203 | process_wait returns -1 for an unknown pid and changes nothing; otherwise it returns the child's exit code and removes the child, so a second wait returns -1 |
| Elf.DecodeEncode | proj2/src/userprog/process.c:260-261 | an n-byte little-endian field written from a value below 256^n reads back as that value |
| Elf.EncodeDecode | proj2/src/userprog/process.c:260-261 | re-encoding the value of a byte field gives the same bytes |
| Elf.LittleEndianBound | proj2/src/userprog/process.c:260-261 | an n-byte field's value is below 256^n |
| Elf.DecodeEhdr | proj2/src/userprog/process.c:269-287 | decoding the 52 header bytes gives fields that each fit their C width |
| Elf.EhdrRoundTrip | proj2/src/userprog/process.c:269-287 | decoding the encoding of a header gives the header back |
| Elf.EhdrBytesRoundTrip | proj2/src/userprog/process.c:269-287 | encoding a decoded header gives the 52 bytes back, so the decoder loses nothing |
| Elf.PhdrRoundTrip | proj2/src/userprog/process.c:289-302 | decoding the encoding of a program header gives it back |
| Elf.ReadHeader | proj2/src/userprog/process.c:353-361 | the header is accepted exactly when the file holds 52 bytes and they pass the ident, type, machine, version, phentsize and phnum tests, and then it re-encodes to those bytes |
| Elf.HeaderTestLoadable | proj2/src/userprog/process.c:354-357 | the memcmp against "\177ELF\1\1\1" and the field comparisons say the same as the per-field predicate |
| Elf.ValidateSegment | proj2/src/userprog/process.c:444-484 | validate_segment accepts exactly the headers whose offset and address share a page offset, whose offset is in the file, whose memsz is at least filesz and non-zero, whose region is in user space, does not wrap and does not touch page 0 |
| Elf.RoundUp | proj2/src/userprog/process.c:402 | ROUND_UP gives the least multiple of PGSIZE at or above x |
| Elf.SegmentOf | proj2/src/userprog/process.c:392-411 | the page-aligned file and memory starts, with read_bytes from the page offset to the end of the file part (0 for a segment that has none) and read+zero bytes rounded up to cover the whole region, writable from PF_W |
| Loader.FileBytes | proj2/src/userprog/process.c:523 | file_read returns all n bytes when the file holds them and otherwise a shorter prefix of what is there |
| Loader.SegmentPagesKeys | proj2/src/userprog/process.c:509-541 | the pages of a segment are exactly upage, upage + PGSIZE, ..., each holding its own share of the file |
| Loader.PageStep | proj2/src/userprog/process.c:514-535 | one trip of the page loop succeeds exactly when a page is free, the read is full and the address is unmapped, and then extends the partial load by this page |
| Loader.SegmentImageOf | proj2/src/userprog/process.c:486-499 | the pages of a segment laid end to end are its read_bytes of file followed by zero_bytes zeros |
| Loader.SegmentPlacesFile | proj2/src/userprog/process.c:389-414 | in the loaded image, the segment's memsz bytes at p_vaddr are its filesz bytes from p_offset followed by zeros |
| Loader.LoadablePlaceable | proj2/src/userprog/process.c:444-484 | a segment that passes validate_segment has page-aligned user addresses above page 0 |
| Loader.PlanPlaceable | proj2/src/userprog/process.c:363-420 | every segment in the plan of accepted program headers is placeable |
| Loader.PlanNext | proj2/src/userprog/process.c:365-419 | the header loop ignores every type but PT_LOAD and the refused PT_DYNAMIC, PT_INTERP and PT_SHLIB, and adds a valid PT_LOAD's segment to the plan |
| Loader.PlanFitsSnoc | proj2/src/userprog/process.c:412-414 | a plan fits exactly when its prefix fits and the last segment's pages fit into what the prefix leaves |
| Loader.PlanFitsPrefix | proj2/src/userprog/process.c:365-420 | every prefix of a plan that fits also fits |
| Loader.PlanGrows | proj2/src/userprog/process.c:365-420 | the plan after i headers is a prefix of the plan after n >= i headers |
| Loader.PlanFitsEarlier | proj2/src/userprog/process.c:365-420 | when the whole plan fits, the plan after any earlier header fits too |
| Loader.AddressSpace.constructor | proj2/src/userprog/process.c:340 | a fresh page directory maps nothing, with the given number of free user pages |
| Loader.AddressSpace.SetupStack | proj2/src/userprog/process.c:548-563 | setup_stack succeeds exactly when a page is free and the top page is unmapped; it then maps one zeroed writable page below PHYS_BASE and sets esp to PHYS_BASE, and otherwise changes nothing |
| Loader.LoadPage | proj2/src/userprog/process.c:514-535 | a page is installed exactly when a page is free, the read is full and upage is unmapped; it then holds the bytes read followed by zeros, and a failure changes nothing |
| Loader.LoadSegmentPage | proj2/src/userprog/process.c:509-541 | one loop trip either extends the partial load by page j or fails exactly when page j does not fit |
| Loader.LoadSegment | proj2/src/userprog/process.c:501-543 | load_segment succeeds exactly when all its pages fit, and then adds them and uses that many free pages; a failure leaves the pages before the one that did not fit installed |
| Loader.LoadPlanned | proj2/src/userprog/process.c:389-418 | a PT_LOAD that fails validate_segment aborts the load with nothing changed; a valid one is loaded exactly when its pages fit, extending the plan by its segment |
| Loader.LoadPlacedSegment | proj2/src/userprog/process.c:392-414 | loading a computed segment succeeds exactly when it fits, and then extends the plan by it |
| Loader.LoadHeader | proj2/src/userprog/process.c:365-419 | one trip of the header loop keeps the loaded-so-far invariant, and fails only when the plan through this header is undefined or does not fit |
| Loader.AddressSpace.LoadSegments | proj2/src/userprog/process.c:363-420 | the header loop succeeds exactly when the plan of all headers is defined and fits; then the page directory holds exactly the planned pages on top of the old ones |
| Loader.AddressSpace.Load | proj2/src/userprog/process.c:330-435 | load fails on a bad header without changing anything; it succeeds exactly when the header is good, the plan fits and leaves a free page for the stack, with the stack page not planned; then it returns e_entry and PHYS_BASE and maps the plan's pages and the stack page |
| Vm.StackLimit | proj3/src/vm/page.c:112 | (uint32_t) esp - 32 is esp - 32, wrapping below zero as 32-bit arithmetic does |
| Vm.NewSupEntry | proj3/src/vm/page.c:17-39 | new_sup_table_entry gives a record for the page of addr, not in swap, not from a file, read-only, with the given access time |
| Vm.NewSupEntryOk | proj3/src/vm/page.c:17-39 | a fresh record is well formed under the page it is filed at |
| Vm.SupTableFind | proj3/src/vm/page.c:88-100 | sup_table_find finds nothing for a null address, and otherwise finds the record filed under the page containing the address, if any |
| Vm.SupTableFindPage | proj3/src/vm/page.c:88-100 | two addresses in the same page find the same record, and that record's address is the page |
| Vm.FrameLess | proj3/src/vm/frame.c:161-177 | frame_access_time_less is the lexicographic order on (read-only, kernel address, access time): writable before read-only, user before kernel addresses, then older first |
| Vm.FrameLessStrictWeak | proj3/src/vm/frame.c:161-177 | that order is irreflexive and transitive, and incomparability is transitive, as list_min needs of it |
| Vm.ListMin | proj3/src/vm/frame.c:131-132 | list_min returns the first frame that no frame precedes under the order |
| Vm.FirstMinUnique | proj3/src/vm/frame.c:131-132 | that frame is unique |
| Vm.ForeachIf | proj3/src/vm/frame.c:93-110 | frame_table_foreach_if visits frames in list order, runs the action on every frame the test accepts, and stops after the first on which both return true |
| Vm.FrameIndex | proj3/src/vm/frame.c:83-90 | the frame frame_free_page acts on is the first one with that kernel page, or none |
| Vm.FrameIndexOf | proj3/src/vm/frame.c:83-90 | with distinct kernel pages, the lookup of a frame's own page finds that frame |
| Vm.FileReadAt | proj3/src/vm/page.c:238-240 | file_read at ofs returns the n file bytes when they exist, fewer near the end, none past it |
| Vm.FileWriteAt | proj3/src/vm/frame.c:144-146 | file_write at ofs replaces the bytes it covers within the file's length and keeps the length |
| Vm.PoolTake | proj3/src/vm/frame.c:56-64 | a kernel page taken from the pool for a new frame keeps every kernel page either free or held by exactly one frame |
| Vm.PoolRelease | proj3/src/vm/frame.c:71-80 | removing a frame and freeing its page keeps that invariant |
| Vm.PoolRebind | proj3/src/vm/frame.c:48-51 | rebinding a frame to a new owner and record keeps it |
| Vm.PageReadShape | proj3/src/vm/page.c:194-195 | page j of a region reads PGSIZE bytes while the file part lasts, then the rest, then nothing |
| Vm.LazyStep | proj3/src/vm/page.c:189-222 | one page of the lazy_load loop takes min(read_bytes, PGSIZE), leaves a zero part that fits, and advances the offset by what it read |
| Vm.LazyEntry | proj3/src/vm/page.c:197-208 | the record lazy_load files for page j covers one whole page and names the region's file |
| Vm.LazyEntryIs | proj3/src/vm/page.c:197-208 | that record is a fresh record with from_file, file, read and zero bytes, writable, offset and is_mmap set from the region |
| Vm.LazyPagesAt | proj3/src/vm/page.c:184-225 | the records of a region are filed at upage + j * PGSIZE, one per page |
| Vm.LazyPagesBelow | proj3/src/vm/page.c:184-225 | no record of the first m pages lies at or above upage + m * PGSIZE |
| Vm.LazyPagesFile | proj3/src/vm/page.c:202 | every record lazy_load files is a file page |
| Vm.LazyAdvance | proj3/src/vm/page.c:210-222 | inserting page j's record into a table lacking it extends the region's records to j + 1 pages |
| Vm.FreshPagesAt | proj3/src/vm/page.c:212-216 | the pages already inserted were all absent from the table before |
| Vm.LazyLoadDone | proj3/src/vm/page.c:189 | the loop ends after exactly PageCount pages |
| Vm.CoveredByAdd | proj3/src/vm/page.c:50-58 | the sectors held by a set of records grow by the run of one more record's slot |
| Vm.ReleaseStep | proj3/src/vm/page.c:50-58 | destroying one more record clears exactly its swap run from the bitmap |
| Vm.CoveredByAll | proj3/src/vm/page.c:62-65 | destroying every record of a thread clears the runs of exactly that thread's records |
| Vm.CoherentFrame | proj3/src/userprog/syscall.c:488-492 | a mapped page's kernel page belongs to exactly one frame, which holds that page's record |
| Vm.DropCoherent | proj3/src/vm/frame.c:71-80 | removing one page's frame and mapping keeps every other page coherent |
| Vm.DropMembers | proj3/src/vm/frame.c:71-80 | the frame list without that frame holds exactly the other frames |
| Vm.UnmapRecordAsWritten | proj3/src/userprog/syscall.c:494-495 | munmap's hash_delete removes the record and leaves the swap bitmap as it was |
| Vm.UnmapAsWrittenLeaks | proj3/src/userprog/syscall.c:494-495 | a clean mmap page evicted to swap slot 0 and then unmapped leaves all eight sectors in use with no record holding them |
| Vm.UnmapRecordReleases | proj3/src/vm/page.c:50-58 | deleting a record and releasing its slot frees exactly that run and leaks no sector that was not leaked before |
| Vm.WriteBack | proj3/src/userprog/syscall.c:479-486 | the write-back of an unmapped page changes no file unless the page is dirty, and keeps every file's length |
| Vm.UnmappedRecords | proj3/src/userprog/syscall.c:473-498 | unmapping a page changes the records and the bitmap as the as-written hash_delete does |
| Vm.UnmappedKeys | proj3/src/userprog/syscall.c:473-498 | it removes the page's record and mapping, and writes back a dirty page |
| Vm.UnmappedStep | proj3/src/userprog/syscall.c:473-498 | for a coherent page it also removes exactly that page's frame, keeps the frames distinct and bound to records, and keeps every other page coherent |
| Vm.DropBound | proj3/src/vm/frame.c:71-80 | dropping the frame of a removed record keeps the frames distinct and bound to filed records |
| Vm.PagedFault | proj3/src/vm/page.c:102-124 | under the paging invariant, a faulting page is held by no frame, and its record, when it is not a file page, has a swap slot to load from |
| Vm.PagedUnrecorded | proj3/src/vm/page.c:110-114 | a page with no record is unmapped and held by no frame |
| Vm.PagedMapped | proj3/src/vm/page.c:170-171 | a page mapped to the one frame that holds it satisfies the invariant |
| Vm.PagedUnheld | proj3/src/vm/page.c:172-178 | an unmapped page held by no frame satisfies it when its record can be loaded again |
| Vm.PagedAppend | proj3/src/vm/frame.c:64 | appending a frame for a page keeps the invariant at every other page |
| Vm.PagedDrop | proj3/src/vm/page.c:242 | freeing the frame of an unmapped page keeps the invariant at every other page |
| Vm.PagedTouch | proj3/src/vm/page.c:168-169 | changing only the page's own record or mapping keeps the invariant at every other page |
| Vm.PagedRebind | proj3/src/vm/frame.c:48-51 | reusing the victim's frame, with the victim unmapped and loadable again, keeps the invariant at every page but the new one |
| Vm.PagedDemote | proj3/src/vm/frame.c:149-154 | changing the victim's record keeps the invariant elsewhere |
| Vm.PagedRecords | proj3/src/vm/page.c:62-65 | removing records, or adding file-page records, keeps the invariant |
| Vm.PagedLazy | proj3/src/vm/page.c:184-225 | adding a region's lazy records keeps the invariant |
| Vm.PagedUnmapped | proj3/src/userprog/syscall.c:473-498 | unmapping one page keeps the invariant |
| Vm.Vm.constructor | proj3/src/vm/frame.c:120-125 | at boot every user page is free, no frame, record or mapping exists, the files are the given ones and the swap store is new; the paging invariant holds |
| Vm.Vm.SwapOut | proj3/src/vm/swap.c:56-67 | the victim stops being a file page and its page is copied to the first free run of eight sectors, which is marked used and filed as its slot; with no free run nothing is written |
| Vm.Vm.EvictOneFrame | proj3/src/vm/frame.c:127-159 | the victim is the first minimum under the eviction order; a dirty mmap file page (dirty in the current thread's directory) is written back and stays a file page, and any other victim is swapped out and stops being a file page; the victim's mapping is cleared and nothing else changes |
| Vm.Vm.EvictVictim | proj3/src/vm/frame.c:127-159 | the same, and a victim that was evicted is unmapped and can be loaded again |
| Vm.Vm.ReuseVictim | proj3/src/vm/frame.c:44-54 | the victim's frame is rebound to the current thread and the new record; a full swap device leaves the frames as they were |
| Vm.Vm.FrameNewPage | proj3/src/vm/frame.c:35-67 | no record gives no frame and no change; a free user page gives exactly one new frame at the end for the record; otherwise the first minimum frame is evicted and reused |
| Vm.Vm.FrameFreePage | proj3/src/vm/frame.c:82-90 | frame_free_page removes only the first frame with the page and frees the page; a null or unknown page changes nothing |
| Vm.Vm.HashInsert | proj3/src/vm/page.c:212 | hash_insert files the record exactly when its page has none, and otherwise changes nothing |
| Vm.Vm.LazyLoadPage | proj3/src/vm/page.c:197-216 | one page of the loop is inserted when its page is free in the table, and otherwise nothing changes |
| Vm.Vm.LazyLoadNext | proj3/src/vm/page.c:189-222 | one loop trip inserts page j and advances, or stops at a page already in the table |
| Vm.Vm.LazyLoad | proj3/src/vm/page.c:184-225 | lazy_load succeeds exactly when every page of the region was absent, and adds one record per page; on a clash at page m the records for pages before m stay |
| Vm.Vm.FreeRecord | proj3/src/vm/page.c:50-58 | destroying a record releases its swap run when it has one |
| Vm.Vm.SupTableFree | proj3/src/vm/page.c:62-65 | sup_table_free removes all of the thread's records and no other, and clears exactly the swap runs they held |
| Vm.Vm.InstallPage | proj2/src/userprog/process.c:575-583 | install_page maps the page exactly when it is not mapped yet, and otherwise changes nothing |
| Vm.Vm.ClaimFrame | proj3/src/vm/page.c:231-233 | a frame for the record is obtained, or the swap device was full and no frame held it; other records keep their files |
| Vm.Vm.WriteFrameBytes | proj3/src/vm/page.c:239-249 | bytes written into a frame replace exactly the bytes they cover |
| Vm.Vm.ReleaseFrame | proj3/src/vm/page.c:242 | freeing the frame removes it and returns its page to the pool |
| Vm.Vm.FillFromFile | proj3/src/vm/page.c:234-258 | the frame gets the record's read_bytes from the file followed by zero_bytes zeros and the page is mapped with the record's writable flag; a short read or an occupied mapping frees the frame |
| Vm.Vm.LoadFromFile | proj3/src/vm/page.c:227-259 | load_from_file maps the page filled from its file; a short read or a failed install leaves it unmapped and its frame free; the paging invariant is kept |
| Vm.Vm.DropPage | proj3/src/vm/page.c:174-176 | a failed install frees the frame and deletes the record |
| Vm.Vm.MapNewPage | proj3/src/vm/page.c:170-179 | the page is mapped with the given flag, or, when it was mapped already, the frame and record are dropped |
| Vm.Vm.SwapIn | proj3/src/vm/swap.c:41-53 | read_frame_from_block copies the slot's eight sectors into the frame and releases the run; the record leaves swap and gets the current time |
| Vm.Vm.FillFromSwap | proj3/src/vm/page.c:163-181 | the page comes back from its slot and is mapped with its flag, or the frame and record are dropped |
| Vm.Vm.LoadFromSwap | proj3/src/vm/page.c:159-182 | load_from_swap maps the page with the slot's bytes and files NOT_IN_SWAP and the new time; if install fails it frees the frame and deletes the record; the paging invariant is kept |
| Vm.Vm.GrowStack | proj3/src/vm/page.c:126-157 | grow_stack maps one new writable page for the faulting page and files a fresh record for it; on failure the page has no record and no frame, and it terminates the thread only when no frame was free |
| Vm.Vm.TryGetPage | proj3/src/vm/page.c:102-124 | a fault with no record below esp - 32 fails and changes nothing; with no record at or above it the stack grows, never failing, and a success maps a fresh writable record; a file record maps the page with the record's writable bit holding the file bytes then zeros, and fails only on a short read; any other record maps the page holding its swap slot's bytes and never fails; the thread is terminated only when no frame was free; the paging invariant is kept |
| Vm.Vm.FileReopen | proj3/src/userprog/syscall.c:536 | file_reopen gives a new handle on the same inode |
| Vm.Vm.UnmapPage | proj3/src/userprog/syscall.c:475-497 | one page of do_free_mmap_entry changes the tables as Unmapped says, and the page ends up unmapped with no frame |
| Vm.Vm.UnmapRecorded | proj3/src/userprog/syscall.c:477-496 | the same for a page that has a record |
| Vm.Vm.DeleteRecord | proj3/src/userprog/syscall.c:495 | hash_delete removes the record |
| Vm.Vm.WriteBackPage | proj3/src/userprog/syscall.c:479-486 | a dirty page's bytes are written back to its file |
| Vm.Vm.UnmapFrame | proj3/src/userprog/syscall.c:488-493 | the page's frame is freed and its mapping cleared |
| Swap.SwapRoundTrip | proj3/src/vm/swap.c:41-67 | a page written to a free run reads back unchanged, and marking the run used and then released restores the bitmap |
| Swap.ReadSectorsChunks | proj3/src/vm/swap.c:45-50 | reading n of the eight sectors of a written page gives its first n * 512 bytes |
| Swap.SwapStore.constructor | proj3/src/vm/swap.c:15-24 | swap_init gives a bitmap with one clear bit per sector of the device |
| Swap.SwapStore.FindFreeRun | proj3/src/vm/swap.c:75 | bitmap_scan finds the first run of eight clear bits, or reports that there is none |
| Swap.SwapStore.GetNewSwapSlot | proj3/src/vm/swap.c:70-81 | get_new_swap_slot marks the first free run used and returns it; with no free run it reports that and changes nothing |
| Swap.SwapStore.Release | proj3/src/vm/swap.c:32-38 | swap_release clears the eight bits of the run |
| Swap.SwapStore.WriteFrame | proj3/src/vm/swap.c:61-66 | the page's eight 512-byte parts are written to the run's sectors |
| Swap.SwapStore.ReadFrame | proj3/src/vm/swap.c:41-53 | the page read back is the run's eight sectors, and the run is released |
| Syscall.FindFd | proj3/src/userprog/syscall.c:294-308 | get_file's search: the first open file with the descriptor, or none when no open file has it |
| Syscall.FilesDrop | proj3/src/userprog/syscall.c:446 | removing one entry from the open-file list keeps every handle live, every descriptor below the next one and all descriptors distinct |
| Syscall.FindFdAppend | proj3/src/userprog/syscall.c:353-356 | a new descriptor appended to the open-file list is found at its end |
| Syscall.FindFdRemove | proj3/src/userprog/syscall.c:446 | after close's list_remove the closed descriptor is gone and every other descriptor is found exactly when it was before |
| Syscall.MapsAppend | proj3/src/userprog/syscall.c:459 | appending a mapping with the next id keeps every mapping id below the next one, distinct, and every address non-null and page aligned (also line 557) |
| Syscall.FindMap | proj3/src/userprog/syscall.c:566-571 | munmap's search: the first mapping with the id, or none when no mapping has it |
| Syscall.FindMapRemove | proj3/src/userprog/syscall.c:572 | after list_remove the id is no longer found |
| Syscall.PadBytes | proj3/src/userprog/syscall.c:547 | zero_bytes is less than a page and pads the file size to whole pages |
| Syscall.MapRegionPages | proj3/src/userprog/syscall.c:546-548 | page m of a mapping exists exactly when it holds some byte of the file |
| Syscall.NoOverlapFresh | proj3/src/userprog/syscall.c:506-522 | once check_mmap_overlaps accepts, none of the mapping's pages has a record, so lazy_load adds only new records |
| Syscall.WriteBacksClean | proj3/src/userprog/syscall.c:479-486 | with no dirty page in the range, unmapping writes nothing back to any file |
| Syscall.WriteBacksShape | proj3/src/userprog/syscall.c:479-486 | writing dirty pages back keeps every file's length (file_write does not grow a file) |
| Syscall.Recorded | proj3/src/userprog/syscall.c:475-477 | the keys of the range that have a record, exactly |
| Syscall.SwapStep | proj3/src/userprog/syscall.c:495 | one page of the corrected teardown releases exactly the swap run of that page's record |
| Syscall.CoversNext | proj3/src/userprog/syscall.c:473-497 | the first n + 1 pages are the first n and the page at base + n * 4096 |
| Syscall.TeardownSucc | proj3/src/userprog/syscall.c:473-498 | the teardown of j + 1 pages is one unmapping step after the teardown of j |
| Syscall.TeardownOutside | proj3/src/userprog/syscall.c:473-498 | pages outside the mapping keep their records and page-table entries |
| Syscall.TeardownCoherent | proj3/src/userprog/syscall.c:488-493 | the frame table keeps distinct frames, loses exactly the frames of the mapping, and every other page stays mapped exactly when resident |
| Syscall.TeardownGone | proj3/src/userprog/syscall.c:488-495 | after munmap no page of the mapping has a record or a page-table entry |
| Syscall.TeardownTables | proj3/src/userprog/syscall.c:473-498 | the record, page-table and frame tables after munmap are those of the original less the mapping's pages |
| Syscall.TeardownFiles | proj3/src/userprog/syscall.c:479-486 | the files after munmap are the originals with every dirty page of the mapping written back to its record's offset |
| Syscall.TeardownRecords | proj3/src/userprog/syscall.c:495 | as written, the records after munmap are the corrected ones but the swap bitmap is left as it was |
| Syscall.RecordsAfterSwap | proj3/src/userprog/syscall.c:495 | the corrected teardown removes exactly the mapping's records, keeps the rest unchanged and frees exactly their swap runs |
| Syscall.TeardownLeaks | proj3/src/userprog/syscall.c:495 | every swap slot held by a record of the mapping is free after the corrected teardown and stays used after the one as written |
| Syscall.LazyCovers | proj3/src/userprog/syscall.c:551 | the mapping's pages are exactly the new lazy records, each naming the mapped file |
| Syscall.BackedAppend | proj3/src/userprog/syscall.c:551-557 | adding a mapping whose pages all have file records keeps every mapping's pages backed by file records |
| Syscall.BackedRemove | proj3/src/userprog/syscall.c:572-573 | removing a mapping from the list keeps the others backed, leaves them apart from it, and its own pages still name files |
| Syscall.BackedTorn | proj3/src/userprog/syscall.c:573 | tearing down one mapping keeps every other mapping's pages backed |
| Syscall.UnmapNext | proj3/src/userprog/syscall.c:475-497 | one iteration of do_free_mmap_entry's loop advances the state to the teardown of one more page |
| Syscall.UnmapPages | proj3/src/userprog/syscall.c:473-498 | the loop leaves the machine in the teardown state of all n pages, and Valid and Paged hold |
| Syscall.LoadMapping | proj3/src/userprog/syscall.c:546-551 | mmap's lazy_load adds to the old records exactly one new file-backed record per page of the mapping, none of which existed before |
| Syscall.CheckValidPtr | proj3/src/userprog/syscall.c:172-185 | a null, kernel or below-0x08048000 pointer kills the process and changes nothing; a mapped page succeeds and changes nothing; success means the page is mapped; an unrecorded page below the stack limit kills the process and leaves the tables alone |
| Syscall.SpannedPages | proj3/src/userprog/syscall.c:188-199 | the pages a buffer spans, strictly increasing, empty exactly for size 0 |
| Syscall.RoundDownOffset | proj3/src/userprog/syscall.c:195 | rounding b + x down, for an aligned b, adds whole pages of x |
| Syscall.SpannedPagesCover | proj3/src/userprog/syscall.c:188-199 | every spanned page is aligned and meets the buffer, and every byte of the buffer is on one of them |
| Syscall.SpannedStep | proj3/src/userprog/syscall.c:193-197 | one more byte adds its page exactly when it starts a new page |
| Syscall.WithoutNull | proj3/src/userprog/syscall.c:191-196 | the spanned pages other than page 0, in order |
| Syscall.CheckedPagesAsWritten | proj3/src/userprog/syscall.c:188-199 | as written, check_valid_mem checks the spanned pages except page 0 |
| Syscall.NullBufferUnchecked | proj3/src/userprog/syscall.c:191-197 | a buffer at address 0 spans page 0 alone, check_valid_ptr would reject it, and as written no page is checked |
| Syscall.CheckedPages | proj3/src/userprog/syscall.c:188-199 | corrected, check_valid_mem checks every spanned page, page 0 included |
| Syscall.UserProcess.constructor | proj3/src/userprog/syscall.c:294-308 | a process with no open file and no mapping |
| Syscall.UserProcess.GetFile | proj3/src/userprog/syscall.c:294-308 | the loop finds what FindFd specifies |
| Syscall.UserProcess.Open | proj3/src/userprog/syscall.c:337-358 | a failed filesys_open returns -1 and changes nothing; otherwise the new descriptor is the next one, appended and found at the end |
| Syscall.UserProcess.Close | proj3/src/userprog/syscall.c:435-449 | an unknown descriptor kills the process and changes nothing; otherwise exactly that entry leaves the list and other descriptors are unaffected |
| Syscall.UserProcess.Mmap | proj3/src/userprog/syscall.c:524-559 | an unknown descriptor kills the process; otherwise it returns a non-negative id exactly when the descriptor is not the console, the address is aligned and non-null, the file is non-empty, the reopen succeeds and no probed page overlaps; on success one mapping with the next id and one lazy record per page are added, and on failure nothing changes |
| Syscall.UserProcess.MapReopened | proj3/src/userprog/syscall.c:541-558 | after the reopen, the mapping is made exactly when the address is non-null and nothing overlaps, adding one mapping and its lazy records |
| Syscall.UserProcess.MapFile | proj3/src/userprog/syscall.c:546-558 | the mapping gets the next id, is appended, and lazy records cover exactly its pages |
| Syscall.UserProcess.DoFreeMmapEntry | proj3/src/userprog/syscall.c:466-504 | the machine is left in the teardown state of the mapping's pages |
| Syscall.UserProcess.FindMapping | proj3/src/userprog/syscall.c:566-571 | the loop finds what FindMap specifies |
| Syscall.UserProcess.Munmap | proj3/src/userprog/syscall.c:561-577 | an unknown id changes nothing; otherwise exactly that mapping leaves the list and the machine is left in its teardown state |
| Syscall.UserProcess.RemoveMapping | proj3/src/userprog/syscall.c:572 | exactly that mapping leaves the list, and its pages are ready for the teardown |
| Syscall.UserProcess.CheckMmapOverlaps | proj3/src/userprog/syscall.c:506-522 | false for a null address or negative size; otherwise true exactly when no page at base + m * 4096 with m * 4096 <= size has a record or mapping, which includes one page past an aligned end |
| Cache.Flush | proj4/src/filesys/cache.c:28-34 | an entry in use and dirty is written to its sector; every other sector, and every sector for any other entry, is unchanged |
| Cache.HitIndex | proj4/src/filesys/cache.c:65-76 | the first slot whose sector matches, whether in use or not, or none when no slot matches |
| Cache.FreeIndex | proj4/src/filesys/cache.c:68-69 | the first slot not in use, or none when all are in use |
| Cache.LruIndex | proj4/src/filesys/cache.c:37-52 | the slot with the least access time, the first such on ties |
| Cache.CacheGet | proj4/src/filesys/cache.c:59-91 | the returned slot holds the sector with the current time and no other slot changes; a hit only refreshes the time; a miss takes the first free slot, or evicts the least recently used (flushing it), and reloads it from disk |
| Cache.MissSlot | proj4/src/filesys/cache.c:86-87 | a miss uses the first free slot if there is one, else the least recently used |
| Cache.CacheRead | proj4/src/filesys/cache.c:113-122 | a read returns a whole sector and keeps the cache well formed |
| Cache.CacheWrite | proj4/src/filesys/cache.c:125-136 | a write keeps the cache well formed |
| Cache.FlushAll | proj4/src/filesys/cache.c:102-110 | flushing every slot keeps a well-formed disk |
| Cache.ReadAfterWrite | proj4/src/filesys/cache.c:113-136 | reading a sector right after writing it returns what was written |
| Cache.FlushAllUnused | proj4/src/filesys/cache.c:17-32 | when no slot is in use, buffer_cache_close writes nothing |
| Cache.GetKeepsUnused | proj4/src/filesys/cache.c:59-91 | as written no slot ever becomes in use and the disk is never written by a get (also line 17) |
| Cache.WriteKeepsUnused | proj4/src/filesys/cache.c:125-136 | the same for a write (also line 17) |
| Cache.CloseLosesWrite | proj4/src/filesys/cache.c:102-110 | as written, a write followed by buffer_cache_close leaves the disk exactly as it was (also lines 17, 32) |
| Cache.SectorZeroMasked | proj4/src/filesys/cache.c:71-99 | as written, after buffer_cache_init reading sector 0 returns zeros whatever the disk holds |
| Cache.FixedHit | proj4/src/filesys/cache.c:71 | corrected hit test: the first slot in use holding the sector, or none |
| Cache.FixedGet | proj4/src/filesys/cache.c:59-91 | corrected get: keeps the cache well formed, changes only the returned slot |
| Cache.FixedRead | proj4/src/filesys/cache.c:113-122 | corrected read returns a whole sector |
| Cache.FixedWrite | proj4/src/filesys/cache.c:125-136 | corrected write keeps the cache well formed |
| Cache.ViewHit | proj4/src/filesys/cache.c:71 | in a coherent cache a slot in use is the one found for its sector, and the view of that sector is its data |
| Cache.ViewMiss | proj4/src/filesys/cache.c:71 | a sector in no slot in use is viewed as the disk holds it |
| Cache.InitialCoherent | proj4/src/filesys/cache.c:95-99 | the initialised cache is coherent and its view is the disk |
| Cache.SameView | proj4/src/filesys/cache.c:59-91 | a change that keeps the slots holding a sector and, if none did, the disk sector, keeps the view of that sector |
| Cache.FixedGetKeepsView | proj4/src/filesys/cache.c:59-91 | with the correction, a get keeps the cache coherent, changes no sector's view, and leaves the sector in use in the returned slot |
| Cache.FixedEvictKeepsView | proj4/src/filesys/cache.c:37-56 | the same for a get that evicts: the flush stores what the evicted slot held (also lines 86-89) |
| Cache.FixedReadSeesView | proj4/src/filesys/cache.c:113-122 | with the correction, a read returns the sector's view and changes no view |
| Cache.FixedWriteSetsView | proj4/src/filesys/cache.c:125-136 | with the correction, a write sets the view of that sector to the buffer and of no other |
| Cache.FlushAllKeeps | proj4/src/filesys/cache.c:102-110 | closing leaves a sector that no dirty slot in use holds as it was |
| Cache.FlushAllStores | proj4/src/filesys/cache.c:102-110 | closing stores the data of the one dirty slot in use holding a sector |
| Cache.FixedCloseStoresView | proj4/src/filesys/cache.c:102-110 | with the correction, after buffer_cache_close every sector on disk is its view, so no write is lost |
| Cache.BufferCache.constructor | proj4/src/filesys/cache.c:95-99 | the initial cache over the disk |
| Cache.BufferCache.Init | proj4/src/filesys/cache.c:95-99 | buffer_cache_init's memset: every slot zeroed |
| Cache.BufferCache.EvictOne | proj4/src/filesys/cache.c:37-56 | the loop finds LruIndex and flushes that slot |
| Cache.BufferCache.Get | proj4/src/filesys/cache.c:59-91 | the array is left as CacheGet says |
| Cache.BufferCache.Read | proj4/src/filesys/cache.c:113-122 | the array and result are as CacheRead says |
| Cache.BufferCache.Write | proj4/src/filesys/cache.c:125-136 | the array is left as CacheWrite says |
| Cache.BufferCache.Close | proj4/src/filesys/cache.c:102-110 | the disk is left as FlushAll says |
| InodeLayout.WordsBytes | proj4/src/filesys/inode.h:25-40 | n 32-bit words take 4n bytes on disk |
| InodeLayout.WordsOf | proj4/src/filesys/inode.h:25-40 | the words read from a byte string are all 32-bit and use up all of it but a partial word |
| InodeLayout.WordsRoundTrip | proj4/src/filesys/inode.h:25-40 | reading back written 32-bit words gives the words |
| InodeLayout.ZeroWord | proj4/src/filesys/inode.c:144 | zero bytes decode to the word 0 |
| InodeLayout.WordsOfZeros | proj4/src/filesys/inode.c:144 | every word of a zeroed sector is 0 |
| InodeLayout.IndexOf | proj4/src/filesys/inode.c:18-21 | a sector read as struct indirect_inode_disk holds 128 32-bit sector numbers |
| InodeLayout.IndexBytes | proj4/src/filesys/inode.c:18-21 | 128 sector numbers fill one sector |
| InodeLayout.IndexRoundTrip | proj4/src/filesys/inode.c:18-43 | an index block written and loaded again gives the same sector numbers |
| InodeLayout.IndexOfZeros | proj4/src/filesys/inode.c:18-21 | a zeroed index block holds only sector 0 |
| InodeLayout.EncodeInode | proj4/src/filesys/inode.h:25-40 | an on-disk inode is exactly one sector |
| InodeLayout.DecodeInode | proj4/src/filesys/inode.h:25-40 | a sector read as an inode has 125 block numbers (123 direct, indirect, doubly indirect) |
| InodeLayout.InodeRoundTrip | proj4/src/filesys/inode.h:25-40 | writing an inode whose fields fit and reading it again gives the same blocks, length, directory flag and magic |
| InodeLayout.BytesToSectors | proj4/src/filesys/inode.c:52-56 | DIV_ROUND_UP: the least number of sectors that hold size bytes |
| InodeLayout.IndexToSector | proj4/src/filesys/inode.c:59-100 | index_to_sector of a data sector number at or past N_LEVEL2 is the not-found sector -1; InodeTree.IndexToSectorTree proves that below it the direct, indirect and doubly indirect lookups give the tree's data sector |
| InodeLayout.ByteToSector | proj4/src/filesys/inode.c:106-114 | -1 for a position before 0 or at or past the length; otherwise the sector index_to_sector gives for pos / 512 |
| InodeLayout.DoublySplit | proj4/src/filesys/inode.c:84-99 | an index in the doubly indirect range splits into an outer and inner index below 128 |
| InodeLayout.DoublyPlace | proj4/src/filesys/inode.c:84-99 | the outer and inner index recombine into that index and split back |
| InodeTree.IndexToSectorTree | proj4/src/filesys/inode.c:59-100 | for a header stored with a tree, index_to_sector of an allocated data sector number is that tree's data sector |
| InodeTree.WriteKeepsStored | proj4/src/filesys/inode.c:31-35 | writing a sector that is not an index sector of the tree keeps the tree stored |
| InodeTree.NotMeta | proj4/src/filesys/inode.c:18-21 | a free sector, or a data sector of the tree, is none of its index sectors |
| InodeTree.TakeFresh | proj4/src/filesys/inode.c:432 | a sector taken from the free map keeps the tree's sectors distinct and apart from the header and what stays free |
| InodeGrow.GrownTrans | proj4/src/filesys/inode.c:444-513 | growth composes: the old data sectors are kept and every new one was free and reads as zeros |
| InodeGrow.ExtendsTrans | proj4/src/filesys/inode.c:456-492 | a growth of the level below followed by one of this level is one growth |
| InodeGrow.TakeData | proj4/src/filesys/inode.c:432 | allocating the first unallocated data sector with a free sector keeps the tree filled to one more sector and owned |
| InodeGrow.AllocDirect | proj4/src/filesys/inode.c:508-510 | filling direct pointer p with a free, zeroed sector is a growth step that keeps the header stored |
| InodeGrow.CreateSector | proj4/src/filesys/inode.c:424-441 | a non-zero pointer is kept; a zero one gets a free sector, taken from the free map and zero-filled; failure only when the map is empty, changing nothing |
| InodeGrow.CreateDirect | proj4/src/filesys/inode.c:505-511 | direct pointers 0 .. n-1 are filled; on failure the free map is empty |
| InodeGrow.OpenIndirect | proj4/src/filesys/inode.c:496-498 | the indirect sector is allocated if absent and its entries are what the loop starts from |
| InodeGrow.IndirectEntry | proj4/src/filesys/inode.c:499-501 | one entry of the indirect block gets a data sector unless it has one |
| InodeGrow.CreateIndirect | proj4/src/filesys/inode.c:488-504 | data sectors through the indirect block are filled to n and the block is written back; on failure the free map is empty and the block is not written back |
| InodeGrow.OpenDoubly | proj4/src/filesys/inode.c:460-463 | the doubly indirect sector is allocated if absent and its entries read |
| InodeGrow.OpenLeaf | proj4/src/filesys/inode.c:467-471 | second level index sector l is allocated if absent, and is fresh when allocated |
| InodeGrow.LeafEntry | proj4/src/filesys/inode.c:477-479 | one entry of a second level block gets a data sector unless it has one |
| InodeGrow.FillLeaf | proj4/src/filesys/inode.c:473-479 | the first min(sectors, 128) entries of the second level block are filled |
| InodeGrow.CloseLeaf | proj4/src/filesys/inode.c:481-483 | the filled second level block is written back and the loop invariant holds for the next l |
| InodeGrow.DoublyEntry | proj4/src/filesys/inode.c:465-484 | one turn of the outer loop fills one second level block, or the free map ran out |
| InodeGrow.DoublyLeaves | proj4/src/filesys/inode.c:465-484 | the outer loop fills data sectors up to n |
| InodeGrow.CreateDoubly | proj4/src/filesys/inode.c:452-487 | data sectors through the doubly indirect block are filled to n and the block written back; on failure the free map is empty |
| InodeGrow.DoCreate | proj4/src/filesys/inode.c:444-513 | more than N_LEVEL2 sectors fails and changes nothing; otherwise the file gets max(p, n) data sectors, new ones fresh and zeroed, old ones kept, the level below filled first with its result ignored; a failure means the free map ran out, with the sectors taken so far left taken |
| InodeRelease.ReleaseRun | proj4/src/filesys/inode.c:543-570 | releasing the first n pointers of a block adds exactly those sectors to the free map |
| InodeRelease.LeafRead | proj4/src/filesys/inode.c:537 | for a stored tree, second level block l, when it has data, is allocated and holds that part of the data pointers |
| InodeRelease.DoublyRead | proj4/src/filesys/inode.c:530-531 | the doubly indirect block, when used, is allocated and holds the second level pointers |
| InodeRelease.IndirectRead | proj4/src/filesys/inode.c:560 | the indirect block, when used, is allocated and holds the level 1 data pointers |
| InodeRelease.ReleaseStep | proj4/src/filesys/inode.c:533-548 | one turn of the outer loop frees min(sectors, 128) data sectors of block l and block l itself |
| InodeRelease.ReleaseLeaf | proj4/src/filesys/inode.c:535-547 | the turn for block l keeps the loop invariant |
| InodeRelease.ReleaseDoubly | proj4/src/filesys/inode.c:528-550 | the doubly indirect part frees the data sectors from N_LEVEL1 to n, the second level blocks used and the doubly indirect block |
| InodeRelease.DoClose | proj4/src/filesys/inode.c:516-573 | more than N_LEVEL2 sectors fails and frees nothing; otherwise exactly the sectors Released names are added to the free map |
| InodeRelease.ReleasedAll | proj4/src/filesys/inode.c:516-573 | for a file with exactly n data sectors and no spare pointers, do_inode_close frees exactly the sectors it uses |
| InodeRelease.UsedReleased | proj4/src/filesys/inode.c:516-573 | every sector such a file uses is released |
| InodeRelease.ReleasedUsed | proj4/src/filesys/inode.c:516-573 | every sector released was used by the file |
| InodeData.Image | proj4/src/filesys/inode.c:59-100 | the first m data sectors of a tree, read in order, are 512 * m bytes |
| InodeData.Content | proj4/src/filesys/inode.c:261-311 | the bytes of a sound inode are exactly length bytes long |
| InodeData.ImagePrefix | proj4/src/filesys/inode.c:59-100 | the image of fewer sectors is a prefix of the image of more |
| InodeData.ImageSector | proj4/src/filesys/inode.c:59-100 | the k-th 512 bytes of the image are data sector k |
| InodeData.ImageWrite | proj4/src/filesys/inode.c:363-383 | writing data sector k replaces exactly the k-th 512 bytes of the image |
| InodeData.ImageGrown | proj4/src/filesys/inode.c:444-513 | after growth the image is the old image followed by zeros |
| InodeData.SectorAt | proj4/src/filesys/inode.c:106-114 | inside the length, byte_to_sector gives the tree's data sector of pos / 512 |
| InodeData.ChunkBytes | proj4/src/filesys/inode.c:270-301 | the bytes of a chunk within one sector, read through byte_to_sector, are that slice of the file's image |
| InodeData.ReadCount | proj4/src/filesys/inode.c:261-311 | inode_read_at returns no more than size bytes, none when size <= 0 or offset is at or past the end, and stops short only at the end of the file |
| InodeData.ChunkLen | proj4/src/filesys/inode.c:274-279 | chunk_size is the least of size, the bytes left in the sector and those left in the file |
| InodeData.ReadChunk | proj4/src/filesys/inode.c:270-301 | one turn of the read loop copies the next bytes of the file, up to the end of the sector, none past the end of the file |
| InodeData.ReadPart | proj4/src/filesys/inode.c:286-300 | the bytes of a sector from ofs, read whole or through the bounce buffer |
| InodeData.ReadAt | proj4/src/filesys/inode.c:261-311 | inode_read_at returns ReadCount bytes, and they are the file's bytes from offset |
| InodeData.Pad | proj4/src/filesys/inode.c:336-339 | the file extended with zero bytes to at least n bytes, the old bytes kept |
| InodeData.Splice | proj4/src/filesys/inode.c:344-390 | replacing bytes keeps the length |
| InodeData.WrittenBytes | proj4/src/filesys/inode.c:319-394 | after a write the file holds buf at off, the old bytes elsewhere and zeros in the gap it opened; its length is the larger of the old length and the write's end, or unchanged for an empty write |
| InodeData.WrittenReadBack | proj4/src/filesys/inode.c:261-394 | reading back the bytes just written returns them all |
| InodeData.GrowsAsWrittenPastEnd | proj4/src/filesys/inode.c:331 | the guard as written holds exactly when the write ends at 0 or past the end of the file, empty writes included |
| InodeData.EmptyWriteTruncates | proj4/src/filesys/inode.c:329-342 | as written, an empty write at offset 0 empties a nonempty file and one past the end extends the file to its offset, where the corrected write leaves the file alone; on every other write the two agree |
| InodeData.GrowsPastEnd | proj4/src/filesys/inode.c:331 | the corrected guard holds exactly for a nonempty write ending past the end |
| InodeData.InsideNamed | proj4/src/filesys/inode.c:110-113 | a byte inside a sound file has a sector, so byte_to_sector does not return -1 |
| InodeData.WriteChunk | proj4/src/filesys/inode.c:346-389 | one turn of the write loop splices the next chunk of buf into the image at offset, changing only that data sector |
| InodeData.WriteTurn | proj4/src/filesys/inode.c:344-390 | a turn makes progress and keeps the loop invariant |
| InodeData.WriteLoop | proj4/src/filesys/inode.c:344-390 | within the length, the loop writes all of buf, splicing it into the image and touching only data sectors |
| InodeData.GrowNone | proj4/src/filesys/inode.c:331 | a write the corrected guard does not grow leaves the inode as it was |
| InodeData.GrowStopped | proj4/src/filesys/inode.c:336-337 | a failed do_inode_create leaves length and content as they were |
| InodeData.GrowDone | proj4/src/filesys/inode.c:333-341 | a successful growth sets the length to the write's end, pads the content with zeros, and writes the header back |
| InodeData.WriteGrow | proj4/src/filesys/inode.c:329-342 | the growth step grows exactly the nonempty writes past the end; on success the file is its old bytes padded with zeros to the write's end; on failure nothing observable changes and the free map is empty or the write reaches past the largest file |
| InodeData.WriteAt | proj4/src/filesys/inode.c:319-394 | corrected for empty writes (see Findings): past the deny check, inode_write_at returns all of buf written, the content being Written of the old content, or 0 with nothing changed because growth failed; only free sectors, the header and the inode's own sectors change, and the header is rewritten exactly when the length changes |
| Inode.EmptyTree | proj4/src/filesys/inode.c:144 | calloc's header: a tree with no sector allocated |
| Inode.NewHeader | proj4/src/filesys/inode.c:144-150 | the new header has no sectors and the length, directory flag and INODE_MAGIC given |
| Inode.EmptySound | proj4/src/filesys/inode.c:144-150 | the fresh header is a valid starting point for do_inode_create, and with length 0 a sound, empty inode |
| Inode.TreeHeaderFits | proj4/src/filesys/inode.c:155 | the header of a stored tree fits its 32-bit on-disk fields |
| Inode.CreateDone | proj4/src/filesys/inode.c:152-156 | after a successful do_inode_create, writing the header leaves an inode created as inode_create promises |
| Inode.InodeCreate | proj4/src/filesys/inode.c:132-161 | on success sector hdr holds a header with the length, directory flag and magic number given, over exactly bytes_to_sectors (length) data sectors that read as length zeros; on failure the free map ran out or the length is too large, the header sector is not written, and the sectors taken stay taken |
| Inode.SoundFrame | proj4/src/filesys/inode.c:331-342 | an inode whose sectors are unchanged keeps its bytes |
| Inode.StoredFrame | proj4/src/filesys/inode.c:331-342 | likewise for its index tree |
| Inode.SoundMoreFree | proj4/src/filesys/inode.c:235-240 | freeing sectors that are not the inode's keeps its bytes |
| Inode.OthersKept | proj4/src/filesys/inode.c:319-394 | a change confined to one open inode's sectors keeps every other open inode and its bytes |
| Inode.SeparateFresh | proj4/src/filesys/inode.c:432 | sectors newly taken for one inode stay apart from the others' |
| Inode.TableUpdate | proj4/src/filesys/inode.c:319-394 | replacing one open inode after a confined change keeps the list valid and the other files as they were |
| Inode.Find | proj4/src/filesys/inode.c:173-182 | the first open inode on the sector, or -1 when there is none |
| Inode.FindOpen | proj4/src/filesys/inode.c:173-182 | the search loop finds what Find specifies |
| Inode.TablePush | proj4/src/filesys/inode.c:190 | list_push_front of an inode apart from the others keeps the list valid |
| Inode.TableDrop | proj4/src/filesys/inode.c:230 | list_remove keeps the rest of the list valid |
| Inode.Bumped | proj4/src/filesys/inode.c:205 | open_cnt + 1 |
| Inode.Denied | proj4/src/filesys/inode.c:399-403 | deny_write_cnt + 1 |
| Inode.AtCounts | proj4/src/filesys/inode.c:43-51 | an open inode has at least one opener and no more deniers than openers |
| Inode.RecountOk | proj4/src/filesys/inode.c:202-255 | changing only an open inode's counts or removed flag keeps the list valid, its sectors, order and files |
| Inode.OpenedOld | proj4/src/filesys/inode.c:173-182 | opening an inode already open counts one more opener |
| Inode.OpenedNew | proj4/src/filesys/inode.c:184-197 | opening an inode not open puts it at the front, once opened, denying no write, not removed, with the header read from its sector |
| Inode.CloseArgs | proj4/src/filesys/inode.c:236-240 | an open inode's length is non-negative and its sectors are the ones do_inode_close is given |
| Inode.ClosedLast | proj4/src/filesys/inode.c:227-245 | the last close takes the inode off the list and drops its file; a removed inode's header and data sectors go back to the free map |
| Inode.ClosedOne | proj4/src/filesys/inode.c:227 | another close only counts one opener fewer |
| Inode.WroteDone | proj4/src/filesys/inode.c:319-394 | corrected for empty writes (see Findings): a write with writes allowed changes that inode's bytes as WriteAt promises and no other file |
| Inode.WroteDenied | proj4/src/filesys/inode.c:326-327 | with writes denied, inode_write_at returns 0 and changes nothing |
| Inode.WriteOpen | proj4/src/filesys/inode.c:319-394 | inode_write_at on the list, corrected for empty writes (see Findings): 0 and nothing changed when denied, otherwise the write of WriteAt on that inode alone |
| OpenInodes.InodeTable.constructor | proj4/src/filesys/inode.c:122-125 | inode_init: no inode open |
| OpenInodes.InodeTable.Create | proj4/src/filesys/inode.c:132-161 | inode_create on a sector nobody has open: the open inodes and their bytes unchanged, and on success an inode of length zeros built apart from them |
| OpenInodes.InodeTable.Open | proj4/src/filesys/inode.c:166-198 | the list after inode_open is as Opened says: one more opener for an open inode, a new inode at the front otherwise |
| OpenInodes.InodeTable.SetEntry | proj4/src/filesys/inode.c:202-255 | the counts or flag of one open inode are replaced, nothing else changes |
| OpenInodes.InodeTable.Reopen | proj4/src/filesys/inode.c:201-207 | one more opener for an inode, nothing for a null one |
| OpenInodes.InodeTable.Close | proj4/src/filesys/inode.c:219-246 | nothing for a null inode; otherwise as Closed says: one opener fewer, the last close unlinking the inode and, when removed, freeing its sectors |
| OpenInodes.InodeTable.Remove | proj4/src/filesys/inode.c:250-255 | only the removed flag is set |
| OpenInodes.InodeTable.DenyWrite | proj4/src/filesys/inode.c:398-403 | deny_write_cnt + 1 and nothing else |
| OpenInodes.InodeTable.AllowWrite | proj4/src/filesys/inode.c:408-414 | deny_write_cnt - 1 and nothing else |
| OpenInodes.InodeTable.Length | proj4/src/filesys/inode.c:417-421 | the number of bytes of the file |
| OpenInodes.InodeTable.ReadAt | proj4/src/filesys/inode.c:261-311 | ReadCount bytes of the file from offset |
| OpenInodes.InodeTable.WriteAt | proj4/src/filesys/inode.c:319-394 | corrected for empty writes (see Findings), as Wrote says: 0 when denied, otherwise all of buf written into that file alone, or nothing when it cannot grow |
| DirSlots.CString | proj4/src/filesys/directory.c:20 | the name a NUL-terminated field holds: a prefix of the field with no NUL, followed by a NUL when shorter than the field |
| DirSlots.CStringOf | proj4/src/filesys/directory.c:231 | a name followed by NUL padding reads back as the name |
| DirSlots.LE32 | proj4/src/filesys/directory.c:19 | a little-endian 4-byte field holds a 32-bit value |
| DirSlots.U32Bytes | proj4/src/filesys/directory.c:19 | a 32-bit sector number written as four bytes reads back as itself |
| DirSlots.Encode | proj4/src/filesys/directory.c:17-22 | a slot written with a sector and a valid name is 20 bytes and reads back as that entry, in use (also lines 230-232) |
| DirSlots.Read | proj4/src/filesys/directory.c:161 | inode_read_at on a directory's content returns ReadCount bytes, the content's from ofs |
| DirSlots.Find | proj4/src/filesys/directory.c:161-170 | from slot k, the first slot in use named name, or none |
| DirSlots.FindHolds | proj4/src/filesys/directory.c:151-172 | lookup succeeds exactly when some slot in use holds the name |
| DirSlots.Lookup | proj4/src/filesys/directory.c:151-172 | the loop returns what Find specifies, with the entry and its byte offset |
| DirSlots.FreeSlot | proj4/src/filesys/directory.c:210-213 | from slot k, the first slot not in use or, if none, the end of the content |
| DirSlots.LookupAndOffset | proj4/src/filesys/directory.c:196-215 | -1 when the name is already there, otherwise the offset of the first free slot or of the end |
| DirSlots.SlotWritten | proj4/src/filesys/directory.c:233 | writing one slot changes that slot alone (growing the content by one slot at the end) (also line 298) |
| DirSlots.AddSlots | proj4/src/filesys/directory.c:219-236 | dir_add_entry's write puts the new entry in the first free slot and changes no other slot |
| DirSlots.EraseSlots | proj4/src/filesys/directory.c:296-299 | dir_remove's write clears in_use of that slot and changes no other |
| DirSlots.DecodeFreed | proj4/src/filesys/directory.c:297 | clearing the in_use byte of a slot only marks it free |
| DirSlots.AddHolds | proj4/src/filesys/directory.c:219-236 | after the add, the names held are the old ones plus the new name |
| DirSlots.AddFinds | proj4/src/filesys/directory.c:219-236 | after adding a new name, lookup finds it in the slot written, naming the given sector |
| DirSlots.AddOk | proj4/src/filesys/directory.c:219-236 | adding a valid name not yet there keeps a directory well formed (names distinct) |
| DirSlots.EraseGone | proj4/src/filesys/directory.c:296-299 | erasing a name's slot removes that name and no other |
| DirSlots.ZerosOk | proj4/src/filesys/directory.c:75 | a directory created as zero bytes is well formed and holds no name |
| DirSlots.IsEmpty | proj4/src/filesys/directory.c:56-69 | dir_is_empty is true exactly when every slot in use is "." or ".." |
| DirSlots.Copied | proj4/src/filesys/directory.c:324 | strlcpy of a name of at most NAME_MAX bytes copies it whole |
| DirSlots.NextEntry | proj4/src/filesys/directory.c:313-329 | dir_readdir advances by whole slots and returns the next listed name, or reports the end |
| DirSlots.ListingFrom | proj4/src/filesys/directory.c:313-329 | a name is listed from slot k0 exactly when some later slot in use shows it |
| DirSlots.EmptyListing | proj4/src/filesys/directory.c:313-329 | a directory is empty exactly when readdir lists nothing (also lines 56-69) |
| DirSlots.ListedFound | proj4/src/filesys/directory.c:313-329 | every name readdir lists is neither "." nor ".." and lookup finds it |
| Directory.Dir.constructor | proj4/src/filesys/directory.c:93-100 | a directory handle on the given inode, positioned at its first slot |
| Directory.Target | proj4/src/filesys/directory.c:151-172 | the sector an entry in use named name points to exists exactly when the directory holds that name, and it is a 32-bit sector |
| Directory.AddFindOther | proj4/src/filesys/directory.c:219-236 | adding an entry for name changes neither the slot found for nor the presence of any other name |
| Directory.FindSame | proj4/src/filesys/directory.c:151-172 | two directories with the same slots named x find x in the same slot |
| Directory.SelfedEmpty | proj4/src/filesys/directory.c:34-69 | adding "." to a directory does not change whether it counts as empty |
| Directory.AddKeepsNamed | proj4/src/filesys/directory.c:219-236 | adding an entry leaves every slot in use exactly as it was |
| Directory.TargetAddOther | proj4/src/filesys/directory.c:219-236 | adding name keeps the target of every other name |
| Directory.TargetEraseOther | proj4/src/filesys/directory.c:296-299 | erasing the slot of name keeps the target of every other name |
| Directory.EntrySame | proj4/src/filesys/directory.c:219-236 | a dir_add_entry that does not add (name present, invalid, no space) leaves the volume as it was |
| Directory.EntryAdds | proj4/src/filesys/directory.c:219-236 | a result of 1 means the name was valid and absent and now points to the sector; any result >= 0 means the name is present; names present stay present and other names keep their targets |
| Directory.EntryOk | proj4/src/filesys/directory.c:219-236 | dir_add_entry keeps the volume well formed (every directory holds well-formed slots) |
| Directory.EntryOpened | proj4/src/filesys/directory.c:219-236 | dir_add_entry does not depend on and commutes with another open of any inode |
| Directory.EntryKeepsNamed | proj4/src/filesys/directory.c:219-236 | dir_add_entry leaves every slot in use, in every directory, as it was |
| Directory.FatherFrame | proj4/src/filesys/directory.c:44-54 | the father link changes only the contents of the father and the child |
| Directory.FatherRefuses | proj4/src/filesys/directory.c:44-54 | a child that already has a ".." entry is never linked again |
| Directory.FatherLinked | proj4/src/filesys/directory.c:44-54 | a successful link leaves "." in both directories and a ".." in the child pointing to the father |
| Directory.FatherKeeps | proj4/src/filesys/directory.c:44-54 | the father keeps every name it held and the target of every name except "." |
| Directory.FatherOk | proj4/src/filesys/directory.c:44-54 | the father link keeps the volume well formed |
| Directory.FatherOpened | proj4/src/filesys/directory.c:44-54 | the father link commutes with an open of any inode |
| Directory.DirAddFrame | proj4/src/filesys/directory.c:244-261 | dir_add changes only the contents of the parent and of the new child |
| Directory.LinkKeeps | proj4/src/filesys/directory.c:244-261 | linking a child keeps every name of the parent and the target of every name but "." |
| Directory.DirAddRefuses | proj4/src/filesys/directory.c:219-261 | dir_add fails for an invalid or present name, for a subdirectory with no inode, and for a subdirectory that already has a ".." |
| Directory.DirAddLinks | proj4/src/filesys/directory.c:219-261 | on success the name points to the sector, and a subdirectory points back to the parent with ".." |
| Directory.DirAddKeeps | proj4/src/filesys/directory.c:244-261 | dir_add keeps every name of the parent and the target of every other name but "." |
| Directory.LinkOk | proj4/src/filesys/directory.c:244-261 | linking a child keeps the volume well formed |
| Directory.AddEntry | proj4/src/filesys/directory.c:219-236 | the result and new volume state of dir_add_entry, as the model functions whose properties the lemmas above prove; an entry that would grow the directory past MAX_LENGTH is refused with -1 |
| Directory.AddSelf | proj4/src/filesys/directory.c:34-40 | -1 and no change for no directory, otherwise adds "." for the directory's own sector |
| Directory.AddFather | proj4/src/filesys/directory.c:44-54 | -1 and no change when either directory is missing, otherwise the father link |
| Directory.DirOpen | proj4/src/filesys/directory.c:87-110 | no inode gives no directory; an inode that has or takes its "." gives a fresh handle at position 0; otherwise the inode's reference is closed and no directory results |
| Directory.DirClose | proj4/src/filesys/directory.c:129-137 | closing a handle closes its inode once; closing no handle changes nothing |
| Directory.DirOpenRoot | proj4/src/filesys/directory.c:114-118 | a handle on sector 1 exactly when the root inode exists and has or takes its "."; nothing changes otherwise |
| Directory.DirReopen | proj4/src/filesys/directory.c:122-126 | a second handle on the same inode, at position 0, exactly when it has or takes its "." |
| Directory.DirLookup | proj4/src/filesys/directory.c:178-192 | the inode named name opened once more when the entry exists and its inode does; none and no change otherwise |
| Directory.LinkChild | proj4/src/filesys/directory.c:244-261 | the ".." link for a new subdirectory, with the result and state of LinkR/LinkS |
| Directory.DirAdd | proj4/src/filesys/directory.c:244-261 | the result and state of dir_add as DirAddR/DirAddS, whose properties DirAddRefuses, DirAddLinks and DirAddKeeps state |
| Directory.ZerosFree | proj4/src/filesys/directory.c:219-236 | a directory file of zeros has its first slot free |
| Directory.DirCreate | proj4/src/filesys/directory.c:72-83 | succeeds exactly when the volume has room and the file is not too long, and then holds entry_cnt free slots plus "." for itself; no change on failure |
| Directory.CheckS | proj4/src/filesys/directory.c:282-294 | the test before removing a directory changes only contents and keeps every inode on disk |
| Directory.CheckKeepsNamed | proj4/src/filesys/directory.c:282-294 | the emptiness test keeps every slot in use as it was |
| Directory.RemoveClose | proj4/src/filesys/directory.c:302-306 | removing an inode one opened and closing it: freed when nobody else has it open, removed but kept otherwise |
| Directory.RemoveOpens | proj4/src/filesys/directory.c:266-308 | the corrected dir_remove (see Findings) leaves every open count as it was; DirRemoveAsWritten proves the source loses a reference for a directory entry |
| Directory.RemoveGone | proj4/src/filesys/directory.c:266-308 | on success the directory no longer holds name |
| Directory.RemoveKeeps | proj4/src/filesys/directory.c:266-308 | dir_remove keeps the target of every other name of the directory |
| Directory.RemoveFrees | proj4/src/filesys/directory.c:302-306 | corrected dir_remove (see Findings): on success the removed inode is freed, or marked removed while others have it open |
| Directory.EmptyCheck | proj4/src/filesys/directory.c:287-294 | the corrected emptiness test: true exactly when the directory opens and is empty, leaving it with its "." |
| Directory.Unlink | proj4/src/filesys/directory.c:296-306 | erases the slot and removes and closes the inode unless the directory's writes are denied, in which case nothing changes |
| Directory.DirRemove | proj4/src/filesys/directory.c:266-308 | the corrected dir_remove: result and state are RemoveR/RemoveS, whose properties RemoveGone, RemoveKeeps, RemoveFrees and RemoveOpens state |
| Directory.RemoveOpened | proj4/src/filesys/directory.c:287-306 | the corrected steps after the inode of the entry was opened end in RemoveS |
| Directory.DirRemoveAsWritten | proj4/src/filesys/directory.c:282-306 | as written: for a file it behaves as DirRemove; for a directory it drops one reference too many, a close of a freed inode when nobody else held it and the loss of someone else's reference otherwise |
| Directory.RemoveDirAsWritten | proj4/src/filesys/directory.c:287-306 | as written for a directory entry: a lost close exactly when nobody else had the inode open or it has no "."; otherwise one reference of another opener is gone |
| Directory.UnlinkAsWritten | proj4/src/filesys/directory.c:291-306 | after dir_close, the final inode_close takes a reference another opener held |
| Directory.Readdir | proj4/src/filesys/directory.c:313-329 | a returned name is the next one in the listing from the old position, which moves past whole slots; no name means the listing was empty and the position is at the end |
| Volumes.Opened | proj4/src/filesys/inode.c:166-198 | inode_open adds one opener to that inode and no other |
| Volumes.Closed | proj4/src/filesys/inode.c:219-246 | inode_close takes one opener from that inode and no other |
| Volumes.OpenClose | proj4/src/filesys/inode.c:166-198 | opening an inode on disk and closing it again leaves the volume state exactly as it was (also lines 219-246) |
| Volumes.ClosedFrees | proj4/src/filesys/inode.c:219-246 | the last close of a removed inode frees its sector and drops it from the disk; any other close keeps disk and free map; both keep the state well formed |
| Volumes.WroteOk | proj4/src/filesys/inode.c:319-394 | a write that leaves a directory well formed keeps the volume well formed |
| Volumes.Volume.constructor | proj4/src/filesys/inode.c:122-125 | a volume with the given inodes on disk and an empty open list |
| Volumes.Volume.Open | proj4/src/filesys/inode.c:166-198 | the inode at s with one more opener; none and no change when s holds no inode |
| Volumes.Volume.Reopen | proj4/src/filesys/inode.c:201-207 | one more opener of an open inode |
| Volumes.Volume.Close | proj4/src/filesys/inode.c:219-246 | closing an inode as Closed states; closing none changes nothing |
| Volumes.Volume.Remove | proj4/src/filesys/inode.c:250-255 | marks the open inode removed and changes nothing else |
| Volumes.Volume.Write | proj4/src/filesys/inode.c:319-394 | corrected for empty writes (see Findings): writes all of buf when writes are not denied and the write ends inside the file or the file can grow to at most MAX_LENGTH bytes, returning its length; otherwise 0 and no change |
| Volumes.Volume.Create | proj4/src/filesys/inode.c:132-161 | succeeds exactly when the free map has room and the length is at most the largest file, adding a zero-filled file (a directory when asked); no change otherwise |
| Volumes.Volume.Allocate | proj4/src/filesys/filesys.c:131 | takes some free sector out of the free map exactly when one exists; no change otherwise |
| Volumes.Volume.Release | proj4/src/filesys/filesys.c:134-135 | the sector is free again and holds no inode; nothing else changes |
| FileSys.Token | proj4/src/filesys/filesys.c:78-79 | the component at the head of a path is its longest slash-free prefix, non-empty when the path starts with another byte |
| FileSys.Parse | proj4/src/filesys/filesys.c:54-109 | a path splits into non-empty slash-free components before the last and a slash-free last component, which is a C string when the path is |
| FileSys.TokenBefore | proj4/src/filesys/filesys.c:78-79 | a component followed by a slash is read back as itself |
| FileSys.TokenPrefix | proj4/src/filesys/filesys.c:78-79 | what follows the first slash does not change the component before it |
| FileSys.TokenWhole | proj4/src/filesys/filesys.c:78-81 | a path with no slash is one whole component |
| FileSys.ParseJoin | proj4/src/filesys/filesys.c:75-109 | joining components with slashes and splitting the result gives the components back |
| FileSys.JoinParse | proj4/src/filesys/filesys.c:75-109 | splitting a path, joining and splitting again gives the same split |
| FileSys.ParseAfter | proj4/src/filesys/filesys.c:75-109 | a path whose first component is w splits as w followed by the split of the rest |
| FileSys.ParseCollapse | proj4/src/filesys/filesys.c:60-108 | a doubled slash anywhere splits as a single one |
| FileSys.CollapseAfter | proj4/src/filesys/filesys.c:107-108 | a doubled slash after the first component splits as a single one |
| FileSys.Regroup | proj4/src/filesys/filesys.c:75-109 | a regrouping of concatenations the path lemmas use |
| FileSys.ParseSkips | proj4/src/filesys/filesys.c:60-61 | skipping leading slashes does not change the split |
| FileSys.ParseStep | proj4/src/filesys/filesys.c:78-86 | a scan to the first slash is the head component, and the path is either that component alone or it followed by the rest |
| FileSys.TokenIs | proj4/src/filesys/filesys.c:78-79 | a scan that stops at a slash or the end has read the head component |
| FileSys.Descend | proj4/src/filesys/filesys.c:94-105 | one step of the walk keeps the state well formed and yields an open inode |
| FileSys.OpenNext | proj4/src/filesys/filesys.c:97-105 | opening the next directory and closing the current keeps the state well formed and yields an open inode |
| FileSys.OpenedOk | proj4/src/filesys/inode.c:166-198 | opening an inode on disk keeps the state well formed |
| FileSys.DescendCount | proj4/src/filesys/filesys.c:94-105 | one step closes the current directory and holds one reference on the directory reached, and moves no other count |
| FileSys.WalkS | proj4/src/filesys/filesys.c:75-109 | the walk keeps the state well formed and yields an open inode |
| FileSys.WalkCount | proj4/src/filesys/filesys.c:75-109 | the walk gives up the start directory's reference and holds exactly one on the directory reached |
| FileSys.StartS | proj4/src/filesys/filesys.c:50-72 | the start directory (root for an absolute path or no cwd, else the cwd reopened) is open and the state well formed |
| FileSys.ReachS | proj4/src/filesys/filesys.c:75-116 | the directory reached is open and not removed |
| FileSys.PathS | proj4/src/filesys/filesys.c:47-119 | dir_open_with_path yields an open directory that is not removed, or nothing, keeping the state well formed |
| FileSys.ReachCount | proj4/src/filesys/filesys.c:111-116 | refusing a removed directory gives back exactly the reference the walk took |
| FileSys.StartCount | proj4/src/filesys/filesys.c:50-72 | opening the start directory adds one reference to it and moves no other count |
| FileSys.PathCount | proj4/src/filesys/filesys.c:47-119 | dir_open_with_path leaks no reference: every count is as before, plus one on the directory returned |
| FileSys.PathCollapse | proj4/src/filesys/filesys.c:60-108 | a doubled slash anywhere in a path resolves as a single one, state included |
| FileSys.PathAbsolute | proj4/src/filesys/filesys.c:54-62 | an absolute path resolves the same whatever the cwd |
| FileSys.PathNoCwd | proj4/src/filesys/filesys.c:63-69 | with no cwd a relative path resolves as the same path under "/" |
| FileSys.PathRoot | proj4/src/filesys/filesys.c:54-62 | "/" resolves to the root with an empty last component |
| FileSys.PathHere | proj4/src/filesys/filesys.c:63-86 | a single component resolves to the cwd with that component as the last name |
| FileSys.DescendDot | proj4/src/filesys/filesys.c:94-105 | a directory a step reaches holds "." |
| FileSys.OpenNextDot | proj4/src/filesys/filesys.c:97 | a directory dir_open gives holds "." |
| FileSys.ClosedKeeps | proj4/src/filesys/inode.c:219-246 | closing one inode keeps the content of another that stays open |
| FileSys.WalkDot | proj4/src/filesys/filesys.c:75-109 | the walk ends in a directory that holds "." |
| FileSys.StartDot | proj4/src/filesys/filesys.c:50-72 | the start directory holds "." |
| FileSys.PathDot | proj4/src/filesys/filesys.c:47-119 | the directory dir_open_with_path returns holds "." |
| FileSys.Thread.constructor | proj4/src/filesys/filesys.c:66-68 | a thread with no cwd, which the path code reads as the root |
| FileSys.StartDir | proj4/src/filesys/filesys.c:50-72 | the start directory as StartS, and the index after the leading slashes, which leaves the split of the path unchanged |
| FileSys.OpenStart | proj4/src/filesys/filesys.c:54-69 | a handle on the start directory as StartS states |
| FileSys.Step | proj4/src/filesys/filesys.c:94-105 | one step of the walk in place, as Descend states |
| FileSys.TokenEnd | proj4/src/filesys/filesys.c:78-79 | the index of the next slash or the end, with no slash before it |
| FileSys.SkipSlashes | proj4/src/filesys/filesys.c:107-108 | the index past a run of slashes, which leaves the split unchanged |
| FileSys.TokenSplit | proj4/src/filesys/filesys.c:78-92 | the bytes between two scan positions are the head component of the split |
| FileSys.WalkCons | proj4/src/filesys/filesys.c:75-109 | the walk over one more component is a step followed by the walk over the rest |
| FileSys.Walk | proj4/src/filesys/filesys.c:75-109 | the loop over the components ends in the state and directory WalkS gives, and returns the last component |
| FileSys.Reach | proj4/src/filesys/filesys.c:75-116 | the walk followed by the removed test, as ReachS |
| FileSys.OpenWithPath | proj4/src/filesys/filesys.c:47-119 | dir_open_with_path as PathS, returning the last component of the split |
| FileSys.Released | proj4/src/filesys/filesys.c:134-135 | releasing a sector keeps the state well formed |
| FileSys.DirAddOk | proj4/src/filesys/directory.c:244-261 | dir_add keeps the state well formed |
| FileSys.MadeS | proj4/src/filesys/inode.c:132-161 | inode_create on a free sector leaves an inode there that nobody has open |
| FileSys.CreateS | proj4/src/filesys/filesys.c:131-136 | the create steps keep the state well formed |
| FileSys.CreateAdds | proj4/src/filesys/filesys.c:126-139 | on success the name points to the new inode, which is a directory exactly when asked (with ".." to the parent), or a zero-filled file, and its sector left the free map |
| FileSys.CreateReleases | proj4/src/filesys/filesys.c:134-135 | on failure the allocated sector is free again and no inode was added or dropped |
| FileSys.CreateRefuses | proj4/src/filesys/filesys.c:131-133 | an invalid or present name, no room or a too long file makes create fail |
| FileSys.Create | proj4/src/filesys/filesys.c:126-139 | filesys_create: fails when no directory resolves or no sector is free, otherwise result and state are CreateS |
| FileSys.CreateIn | proj4/src/filesys/filesys.c:131-136 | the steps after resolution, as CreateS, or a failure when the free map is empty |
| FileSys.OpenS | proj4/src/filesys/filesys.c:147-167 | filesys_open keeps the state well formed and yields an open inode |
| FileSys.LookS | proj4/src/filesys/filesys.c:155-165 | a lookup of the last component keeps the state well formed and yields an open inode |
| FileSys.OpenCount | proj4/src/filesys/filesys.c:147-167 | filesys_open leaks no reference: every count as before, plus one on the inode returned |
| FileSys.OpenFinds | proj4/src/filesys/filesys.c:147-167 | no directory gives no inode; an empty last component gives the directory itself; otherwise the inode the name points to |
| FileSys.Open | proj4/src/filesys/filesys.c:147-167 | filesys_open as OpenS |
| FileSys.Look | proj4/src/filesys/filesys.c:155-165 | the lookup of the last component, as LookS |
| FileSys.RemoveDrops | proj4/src/filesys/filesys.c:174-183 | over the corrected dir_remove (see Findings): on success the name is gone from its directory, and its inode is marked removed while open, freed otherwise |
| FileSys.CloseDrops | proj4/src/filesys/filesys.c:179-180 | closing the directory after a successful corrected dir_remove (see Findings) keeps the effects RemoveDrops states |
| FileSys.Remove | proj4/src/filesys/filesys.c:174-183 | filesys_remove as RemoveFS, which uses the corrected dir_remove (see Findings) |
| FileSys.EnterS | proj4/src/filesys/filesys.c:197-201 | entering the last component keeps the state well formed and yields an open inode |
| FileSys.EnterCount | proj4/src/filesys/filesys.c:197-201 | entering closes the directory and holds one reference on the one entered |
| FileSys.PathHeld | proj4/src/filesys/filesys.c:190 | resolution keeps the cwd open and leaves the returned directory able to replace it |
| FileSys.ChdirRootFails | proj4/src/filesys/filesys.c:193-201 | as written chdir("/") fails: the non-empty path makes it look up the empty last component |
| FileSys.LookEmptyFails | proj4/src/filesys/filesys.c:197-201 | looking up an empty name finds nothing, so the chdir fails |
| FileSys.ChdirRoot | proj4/src/filesys/filesys.c:186-209 | the corrected chdir("/") succeeds and makes the root the cwd |
| FileSys.ChdirFromCount | proj4/src/filesys/filesys.c:193-208 | on success the old cwd and the directory lose one reference and the new cwd holds one; on failure the cwd stays and only the directory's reference is given back |
| FileSys.ChdirCount | proj4/src/filesys/filesys.c:186-209 | the corrected chdir leaks no reference: on success the old cwd loses one and the new one holds one; on failure every count is as before |
| FileSys.ChdirAsWritten | proj4/src/filesys/filesys.c:186-209 | filesys_chdir as written, as ChdirAsWrittenS; the cwd changes only on success |
| FileSys.Chdir | proj4/src/filesys/filesys.c:186-209 | the corrected chdir, as ChdirS; the cwd changes only on success |
| FileSys.ChdirFrom | proj4/src/filesys/filesys.c:193-208 | the steps after resolution, as ChdirFromS; the cwd changes only on success |
| FileSys.Enter | proj4/src/filesys/filesys.c:197-201 | entering the last component in place, as EnterS |
| FileSys.Switch | proj4/src/filesys/filesys.c:203-208 | closing the old cwd and recording the new one, as SwitchS |

## Left out

- Concurrency: the file-system lock, `swap_table_lock`, the frame-table lock and the cache lock are not modelled. Every operation runs as one atomic step. So `syscall_close` taking the file-system lock only when the thread does not hold it has no counterpart; its removal of exactly that descriptor is modelled.
- Blocking: the semaphores `process_wait` sleeps on are not modelled. A wait reads the exit code the child record holds at that moment.
- Devices and time: the block devices are maps from sector to bytes, and the clock behind every access time is a `now` parameter. Interrupts, timing and the page directory's hardware bits are inputs.
- Memory allocation: `malloc` and `palloc` failures are modelled only where the source turns them into a result. That is `process_create` (`Process.ProcessCreate` takes whether malloc succeeds) and the user pool running out of frames. The other allocations (`dir_open`, `inode_open`, `new_sup_table_entry`, `new_mmap_entry`) always succeed in the model.
- `get_new_swap_slot`: when no run of eight free sectors is left, the source ends the process with `syscall_exit (-1)`. The model returns the `SwapFull` outcome (or `Killed` in the system-call layer). The process's exit itself (closing files, freeing tables) is not modelled.
- `free-map.c` is not part of this model. The free map is a set of sectors.
- Volumes: `room` stands for "the free map can supply the sectors this file or growth needs". The volume layer does not say which sectors those are; the module `InodeGrow` does.
- Volumes.Volume.Open: returns no inode for a sector that holds none. `inode_open` never checks this and builds an inode from whatever the sector holds. The directory and path code only open sectors that directory entries or `ROOT_DIR_SECTOR` name.
- InodeData.WriteAt: models the corrected empty write, which leaves the file as it was. The source truncates a nonempty file on an empty write at offset 0 and pads it on one past the end; InodeData.WrittenAsWritten and InodeData.EmptyWriteTruncates state that behaviour.
- Inode.WroteDone: rests on the corrected empty write of InodeData.WriteAt, so it does not promise the source's truncation or padding on an empty write.
- Inode.WriteOpen: writes as InodeData.WriteAt does, with the corrected empty write.
- OpenInodes.InodeTable.WriteAt: writes as Volumes.Wrote does, with the corrected empty write.
- Volumes.Volume.Write: writes with the corrected empty write of InodeData.Written; the source's empty write at offset 0 truncates the file.
- Directory.RemoveOpens: states the corrected dir_remove. For a directory entry the source closes the inode twice and loses a reference, as Directory.DirRemoveAsWritten proves.
- Directory.RemoveFrees: states the freeing of the corrected dir_remove, not the source's double close of a directory's inode.
- FileSys.RemoveDrops: rests on the corrected dir_remove, so it does not promise the source's lost reference for a directory.
- FileSys.CloseDrops: rests on the corrected dir_remove, as RemoveDrops does.
- FileSys.Remove: filesys_remove over the corrected dir_remove; the source's behaviour for a directory entry is Directory.DirRemoveAsWritten's.
- DirSlots.Encode: fills the name field after its terminating NUL with zeros. The source's `strlcpy` writes into an entry that still holds the bytes last read from the slot (or uninitialised bytes), so those padding bytes are not modelled; the decoded entries are the same.
- `struct file` and `file.c` are not part of this model. `filesys_open` yields the open inode that `file_open` would wrap.
- `filesys_init`, `filesys_done` and `do_format` are left out: they only set up the device, the free map and the cache. The root directory `do_format` makes is `Directory.DirCreate` at `ROOT_DIR_SECTOR`.
- The buffer cache is modelled on its own (module `Cache`). In the source too, `inode.c` reads and writes sectors through `read_wrapper`/`write_wrapper`, which call the block layer directly and bypass the cache.
- `inode_get_inumber` is the identity: the model names every inode by its header sector.
- The lengths `inode_create`, `inode_read_at` and `inode_write_at` take are `nat`. A negative `off_t` is not modelled (the source asserts `length >= 0` on create).
- InodeGrow.DoCreate: a growth that fails part-way leaves the data sectors it already took out of the free map, as the source does. The model states this as a weaker frame (the free map may shrink) rather than naming the leaked sectors.
- OpenInodes.InodeTable.Close: requires that the closer does not still hold a write denial (`deny_write_cnt < open_cnt`). The comment at `inode.c:405-407` demands this of every closer, and `file_close` allows writes before it closes.
- `dir_open_with_path` never checks that an intermediate component is a directory. The model follows the code: `dir_open` on a regular file adds a "." entry to its data.
- Vm.Vm.GrowStack: files the new record before it claims the frame, where the source inserts it after `install_page`. The final states agree, and a failure removes the record again, as the source does.
- Vm.Vm.GrowStack: requires that the page has no record. Its only caller reaches it after a failed lookup of a non-null address.
- Vm.Vm.TryGetPage: requires a non-null user address and a page that is not mapped. `check_valid_ptr` has already rejected null addresses, and the page-fault handler only calls it for pages that are not present.
- Vm.Vm.constructor: the boot state (user pool, swap device, files) is a parameter, in place of `palloc_init` and `swap_init` reading the hardware.
- Process.ProcessThread.AddChild: requires a pid no child has. The kernel hands out each tid once.
- Treap: nodes are identified with their integer keys, and `cmp` is `<` on them. The intrusive `list_elem` layout and the comparator macro are not modelled.
- Treap.Treap.NodeUpdate: requires that the new key is the old one or absent, since nodes are their keys.
- Process.ParseArgs: the model's stack has no lower bound. The source pushes onto the single stack page without checking that the arguments fit in it.
- FixedPoint: signed 32-bit overflow, undefined behaviour in C, is excluded by `requires`. The casts from 64 to 32 bits wrap, as the compiler does.
- The system calls outside the core (`read`, `write`, `exec`, `exit`, `halt`, `filesize`, `seek`, `tell`) and the page-directory code (`pagedir.c`) are not part of this model.

## Findings

| source | as written | input that shows it | evidently intended | confidence | as-written member | corrected member |
|---|---|---|---|---|---|---|
| proj3/src/userprog/syscall.c:494-495 | `do_free_mmap_entry` deletes a page's record with `hash_delete` and never releases the swap slot the record holds | a clean page of a mapping is evicted, so it gets swap slot 0, and the mapping is then unmapped: sectors 0-7 stay in use and no record is left to free them | release the slot as `do_sup_table_entry_free` does (`swap_release` when `swap_idx != NOT_IN_SWAP`) | high; not executed | Vm.UnmapRecordAsWritten, Vm.UnmapAsWrittenLeaks, Syscall.TeardownLeaks | Vm.UnmapRecord, Vm.UnmapRecordReleases |
| proj3/src/userprog/syscall.c:189-197 | `check_valid_mem` starts with `last_page = NULL`, so a byte in page 0 never differs from the last page checked and `check_valid_ptr` is never called for it | `start = 0`, `size = 16`: no page is checked, although `check_valid_ptr (0)` would kill the process | check every page the buffer spans, page 0 included | high; not executed | Syscall.CheckedPagesAsWritten, Syscall.NullBufferUnchecked | Syscall.CheckedPages |
| proj4/src/filesys/cache.c:17,32,71 | `buffer_cache_entry_init` sets `inuse = false` and nothing sets it true. So `buffer_cache_entry_flush` never writes a dirty entry back, and the hit test, which ignores `inuse`, matches the zeroed slots for sector 0 | (1) `buffer_cache_write (s, buf)` and then `buffer_cache_close ()`: the disk still holds the old sector s; (2) right after `buffer_cache_init ()`, `buffer_cache_read (0)` returns 512 zeros whatever sector 0 holds | a loaded slot is in use, and only slots in use hit and are written back | high; not executed | Cache.CloseLosesWrite, Cache.SectorZeroMasked | Cache.FixedGet, Cache.FixedRead, Cache.FixedWrite, Cache.FixedReadSeesView, Cache.FixedWriteSetsView, Cache.FixedCloseStoresView |
| proj4/src/filesys/inode.c:331-339 | the growth guard tests the byte at `offset + size - 1`, which for `size == 0` is the byte before the offset; the file then gets length `offset + size` | a write of 0 bytes at offset 0 to a 100-byte file: `byte_to_sector (inode, -1)` is -1, so the file's length becomes 0 | only a nonempty write that ends past the end grows the file | high; not executed | InodeData.GrowsAsWritten, InodeData.GrowsAsWrittenPastEnd, InodeData.WrittenAsWritten, InodeData.EmptyWriteTruncates | InodeData.Grows, InodeData.GrowsPastEnd, InodeData.Written, InodeData.WriteGrow, InodeData.WriteAt, Inode.WroteDone, Inode.WriteOpen, OpenInodes.InodeTable.WriteAt, Volumes.Volume.Write |
| proj4/src/filesys/filesys.c:193 | `filesys_chdir` tests `strlen (name)`, the whole path, so it always looks up the last component, even when that is empty | `chdir ("/")` with the root directory on disk: the lookup of "" finds nothing and the call fails | test `strlen (file_name)`, as `filesys_open` does at line 155, so that a path ending in a slash makes the directory reached the cwd | high; not executed | FileSys.ChdirAsWritten, FileSys.ChdirAsWrittenS, FileSys.ChdirRootFails | FileSys.Chdir, FileSys.ChdirS, FileSys.ChdirRoot |
| proj4/src/filesys/directory.c:289-291,306 | for a directory entry, `dir_open (inode)` takes over the reference `inode_open` gave at line 282, `dir_close` gives it up, and `inode_close (inode)` at line 306 closes the inode a second time | removing an empty subdirectory nobody else has open: `dir_close` frees the inode, and `inode_remove` and `inode_close` then use freed memory; if another thread has it open, that thread's reference is taken and the inode is freed under it | test emptiness on a handle that does not own the reference (for instance `dir_open (inode_reopen (inode))`), so that there is one close per open | high; not executed | Directory.DirRemoveAsWritten, Directory.RemoveDirAsWritten, Directory.UnlinkAsWritten | Directory.DirRemove, Directory.EmptyCheck, Directory.RemoveOpened, Directory.RemoveOpens, Directory.RemoveFrees, FileSys.RemoveDrops, FileSys.CloseDrops, FileSys.Remove |
