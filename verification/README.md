# Verified model of the Fenwick kernel's core

This project models the parts of the Fenwick kernel that are real state machines and data
structures, in Dafny, and proves their properties over every input and every run.

* **Virtual memory** (`Bits`, `PageTables`, `PageOps`, `AddressSpaces`, `PagingRuns`, `Tlb`,
  `Paging`). A bitmap frame allocator feeds four-level page tables that are built lazily in raw
  physical memory (the format of Intel SDM Vol. 3A, section 4.5). The main result is that this memory
  denotes one plain partial map from virtual page to (frame, flags) per directory, over every run,
  including runs that exhaust frames in the middle of a walk. The allocating walk of the kernel and the
  processor's walk are defined separately and proved to agree. A translation cache that may load any
  present translation at any step stays coherent (Intel SDM Vol. 3A, section 4.10.4). `PageManager` is
  the code itself, updating its bitmap and tables in place, with the order of its stores and
  invalidations recorded.
* **Block heap** (`BlockHeap`). A doubly linked list of headers laid over one address range, with
  best-fit search and in-place splitting.
* **Text output** (`Terminal`, `Consoles`). Two screen drivers over a 4000-byte buffer, one wrapping
  eagerly and one lazily, each showing the last 25 rows of a terminal with unlimited scrollback.
* **Formatting** (`Numbers`, `Printf`). The format interpreter and its digit loops.
* **Bump allocator** (`BumpHeap`), **keyboards** (`Keyboards`, `KeyboardDrivers`) and **driver
  binding** (`DriverBinding`).

Code that updates state is a class whose methods are proved to take the step of a specification
function; the lemmas state what those functions mean. Values of 64 and 8 bits are naturals below
2^64 and 256, and wrap-around is written out.

Machine-level assumptions: physical frames below 64 MB are identity-mapped, so a table entry's
address is where the kernel reads and writes the table. A directory is zeroed when it is first used
(the kernel's own because it is uninitialised static data, placed below the frame pool), and clients store
to tables or directories through the paging calls only. A directory may lie at any word: loading cr3
drops the low twelve bits of its address, so what is said of the processor's walk and cache holds for
page-aligned directories, and `SwitchSeenExactly` says that it holds for no others. The processor is taken
to leave table entries alone; one that sets the accessed and dirty flags (bits 5 and 6) makes the
statements about entries hold up to those two bits. A present entry is taken to be usable: the code
copies address bits from 52 up into an entry as they are, and for such addresses the processor reads them
as ignored, reserved or execute-disable bits, which is not part of this model. Probe functions are deterministic and leave the
registries alone.

Behaviour of the code that may surprise, each stated exactly by a lemma below:

* `mm_map_page` at virtual address 0, and `mm_unmap_page` of a page mapped to physical page 0, return
  null on success (`MapNullExactly`, `UnmapNullExactly`, `NullOnSuccess`). The methods have a ghost result
  that tells success apart.
* Nothing aligns the kernel's page directory. Off a page boundary, mapping succeeds but the processor
  walks from the boundary below (`SwitchSeenExactly`, `UnalignedSees`,
  `UnalignedNotSeen`).
* `invlpg` does nothing for a non-canonical address, while the table indices ignore bits 48..63. Mapping
  or unmapping through such an address can leave a stale translation (`MapCoherentExactly`,
  `StaleAfterBoot`).
* The guard of `heap_split_block` wraps for requests within 56 bytes of 2^64
  (`SplitKeepsTilingExactly`).
* Aligning up near 2^64 wraps to 0, returns null and still moves the heap pointer
  (`PointerMonotoneExactly`).
* After a line of exactly 80 characters a newline advances the driver by one row more than the console
  (`LinesDrift`, `StreamsAgreeExactly`, `FullLineParts`).
* `%d` prints its argument as an unsigned 64-bit number, and unknown directives print a percent sign and
  the character.

## Model

| member | source | states |
|---|---|---|
| PageTables.PageIsVpn | kernel/mm/paging.c:102-105 | The four table indices computed by shifts and masks agree for two addresses exactly when bits 12..47 agree |
| PageTables.TranslateSteps | kernel/mm/paging.c:101-150 | The processor's walk written out: four entries found by bits 39..47, 30..38, 21..29 and 12..20, each present and giving the next table by its bits from 12 up |
| Bits.PageMasks | kernel/mm/paging.c:102-118 | The masks 0xFFF, ~0xFFF, 0x1FF and the present bit mean remainder, rounding down, remainder and parity, for every 64-bit value |
| PageTables.TranslateIs | kernel/mm/paging.c:101-150 | In every state that satisfies the ownership invariant the four-level walk over raw memory from a directory's first word (the processor's walk when the directory is page-aligned) gives exactly the entry of the forest of owned tables |
| PageTables.TablesApart | kernel/mm/paging.c:112-147 | Distinct tables, directories included, occupy disjoint words of memory |
| PageOps.NextStep | kernel/mm/paging.c:107-130 | One level of `get_pte`: follows a present entry, or links one zeroed frame, or fails; invariant and all translations survive |
| PageOps.GrowKeeps | kernel/mm/paging.c:110-116 | Zeroing and linking the lowest free frame keeps the invariant and changes no translation in any directory |
| PageOps.WalkStep | kernel/mm/paging.c:101-150 | The allocating walk, stopped anywhere: succeeds iff the missing tables can be allocated, takes exactly that many frames (all of them when too few), and without `create` changes nothing |
| PageOps.WalkKeepsWord | kernel/mm/paging.c:107-147 | The walk, however far it gets, stores only to the current directory and to frames of the pool |
| PageOps.LeafStore | kernel/mm/paging.c:155 | Writing a last-level entry changes the translation of that one page of that one directory |
| AddressSpaces.MapMeaning | kernel/mm/paging.c:152-158 | `mm_map_page` sets exactly one key to the address with low bits cleared plus flags plus present; every other translation of every directory is kept; it fails iff frames run out and then changes no translation |
| AddressSpaces.UnmapMeaning | kernel/mm/paging.c:160-167 | `mm_unmap_page` removes exactly that key, returns the frame stored there, consumes no frame; on an unmapped page nothing changes |
| AddressSpaces.MapNullExactly | kernel/mm/paging.c:152-158 | `mm_map_page` returns null exactly when the missing tables cannot all be allocated or the virtual address is 0 |
| AddressSpaces.UnmapNullExactly | kernel/mm/paging.c:160-167 | `mm_unmap_page` returns null exactly when the page is not mapped or mapped to physical page 0 |
| AddressSpaces.MapReturns | kernel/mm/paging.c:152-158 | In every state: with frames enough `mm_map_page` returns the virtual address itself and the page is mapped; otherwise it returns null and no translation changed |
| AddressSpaces.UnmapReturns | kernel/mm/paging.c:160-167 | `mm_unmap_page` returns the stored entry with its low twelve bits cleared, and null for an unmapped page |
| AddressSpaces.UnmapClears | kernel/mm/paging.c:160-167 | `mm_unmap_page` of a mapped page sets the entry where the walk ends to 0 and stores nothing else; of an unmapped page it stores nothing |
| AddressSpaces.LinksPermit | kernel/mm/paging.c:116-142 | Every upper-level entry on a walk is present, writable and user, with no other flag |
| AddressSpaces.LeafRights | kernel/mm/paging.c:116-155 | The writable and user rights of a translated page, taken over all four levels, are those of its last-level entry |
| PagingRuns.AllocMeaning | kernel/mm/paging.c:81-92 | `mm_alloc_page` returns the lowest free frame, which no client, table or directory holds, and 0 exactly when none is free |
| PagingRuns.FreeMeaning | kernel/mm/paging.c:94-99 | Freeing a held frame makes exactly that frame free and keeps the invariant |
| PagingRuns.NewDirectoryMeaning | kernel/mm/paging.c:169-173 | A zeroed directory joins with no translations and disturbs no other |
| PagingRuns.ClientStoreMeaning | kernel/mm/paging.c:107-147 | Stores outside tables and directories change no translation |
| PagingRuns.StepRefines | kernel/mm/paging.c:81-173 | Each call keeps the invariant, acts on the abstract machine (partial maps, set of linked tables, set of free frames) as its abstract step says, and gives the answer that machine gives, the allocated frame included |
| PagingRuns.RunRefines | kernel/mm/paging.c:81-173 | Over every legal run of allocate, free, map, unmap, switch, new directory and client stores, raw tables denote the partial maps of an abstract machine that never reads them, which also predicts every success and failure and every address that an allocation or an unmap returns |
| PagingRuns.BootRunRefines | kernel/mm/paging.c:30-79 | The same from the state that `MmStart` reaches, starting from empty maps, no tables and the whole pool free |
| PagingRuns.NotReturned | kernel/mm/paging.c:81-99 | Over any run a frame that is not free, whether held, pinned or a table, is not returned by any allocation before a call frees it |
| PagingRuns.NoReissue | kernel/mm/paging.c:81-99 | Two allocations of a run that return the same frame have a call in between that frees it |
| PagingRuns.NullOnSuccess | kernel/mm/paging.c:152-167 | After boot, a page mapped to physical page 0 is unmapped with success and a null pointer, and mapping at virtual address 0 succeeds with a null pointer |
| PagingRuns.NoSharing | kernel/mm/paging.c:101-150 | If two walks from any directories at any depths reach the same table they took the same path from the same directory; the table's frame is neither free nor held |
| PagingRuns.TablesReachable | kernel/mm/paging.c:114-142 | Every frame owned as a table is reached by a walk, so none is lost |
| PagingRuns.FailedMapLeaksNothing | kernel/mm/paging.c:109-139 | When frames run out inside `get_pte`, every frame it took is linked in the tree and no translation changed |
| PagingRuns.FramesConserved | kernel/mm/paging.c:34-99 | In every reachable state free, linked, held and pinned frames number 15872 together |
| Tlb.WalkSilent | kernel/mm/paging.c:107-144 | At no store of a table-linking walk does any translation change, and the stores add up to the walk's memory |
| Tlb.EditRun | kernel/mm/paging.c:155-156 | Entry write then invalidation, with any cache fills and evictions in between, ends coherent |
| Tlb.CanonicalMeans | kernel/mm/paging.c:175-177 | An address is canonical, so that `invlpg` acts on it, iff its top seventeen bits are all clear or all set |
| Tlb.OpCoherent | kernel/mm/paging.c:152-177 | After any complete operation on canonical addresses and page-aligned directories every cached translation is the current one, whatever the processor cached in between, and the events lead to the memory the operation describes; a switch needs nothing of the processor before it |
| Tlb.RunCoherent | kernel/mm/paging.c:152-177 | The same after every run of such operations |
| Tlb.TraceMemory | kernel/mm/paging.c:101-173 | The stores recorded for an operation, in program order, turn memory into exactly what the operation describes |
| Tlb.CoherentSinceSwitch | kernel/mm/paging.c:152-177 | From any processor state over the system's memory, after any run with a switch to a page-aligned directory and only proper addresses since, the processor walks a directory of the system and every cached translation is current |
| Tlb.BootCoherent | kernel/mm/paging.c:30-177 | The same from boot, whatever the processor walked and cached by then; every cached translation is the one of the abstract run's maps |
| Tlb.SwitchSeenExactly | kernel/mm/paging.c:169-173 | Whatever the processor walked and cached before, after a switch it walks the current directory iff that directory is page-aligned, because loading cr3 drops the low twelve bits |
| Tlb.UnalignedSees | kernel/mm/paging.c:169-173 | From a directory k words above a page boundary the processor sees, at every page whose top-level index is at least k, the translation of the page k top-level indices lower |
| Tlb.UnalignedNotSeen | kernel/mm/paging.c:179-192 | With the kernel directory off a page boundary the first map call, at any address, succeeds while the processor finds no translation there; for top-level indices below the offset this needs the word read below the directory to be not present |
| Tlb.MapCoherentExactly | kernel/mm/paging.c:152-158 | A map call keeps every possible cache coherent iff it fails, or the address is canonical, or the page had no translation or already the new one |
| Tlb.UnmapCoherentExactly | kernel/mm/paging.c:160-167 | An unmap call keeps every possible cache coherent iff the address is canonical or the page was not mapped |
| Tlb.NonCanonicalGoesStale | kernel/mm/paging.c:160-167 | Unmapping page 0 through the address 2^48 can leave its translation cached |
| Tlb.StaleAfterBoot | kernel/mm/paging.c:152-167 | That state is reached: after boot and one map call at address 0 such an unmapping does leave a stale translation |
| Paging.ClearedBit | kernel/mm/paging.c:86 | Clearing a bitmap bit with a complemented mask removes exactly that frame from the free set |
| Paging.SetBit | kernel/mm/paging.c:67 | Setting a bitmap bit with a mask adds exactly that frame |
| Paging.LeafForm | kernel/mm/paging.c:155 | The or-ed and masked entry is the arithmetic entry of address and flags |
| Paging.IndexForms | kernel/mm/paging.c:102-105 | The shifted and masked indices are those of the page |
| Paging.PageManager.MmInit | kernel/mm/paging.c:30-70 | After the bitmap loops exactly frames 512..16383 are free |
| Paging.PageManager.PagingInit | kernel/mm/paging.c:181-197 | From what `mm_init` leaves, making the zeroed kernel directory current reaches the boot state, the invariant and empty maps |
| Paging.PageManager.MmStart | kernel/mm/mm.c:5-18 | From any bitmap, `mm_start` reaches the boot state without touching memory and reports 15872 free frames |
| Paging.PageManager.TakeFrame | kernel/mm/paging.c:81-92 | The scanning loop takes the lowest free frame |
| Paging.PageManager.MmAllocPage | kernel/mm/paging.c:81-92 | The in-place allocator takes the allocation step of the state machine |
| Paging.PageManager.MmFreePage | kernel/mm/paging.c:94-99 | The in-place free, with the frame number cut to a signed 32-bit index and out-of-range numbers ignored |
| Paging.PageManager.MmPrintStats | kernel/mm/paging.c:213-221 | The counting loop reports the number of free frames, and the rest as used |
| Paging.PageManager.NextLevel | kernel/mm/paging.c:107-118 | One level of `get_pte` in place: memory, bitmap and the order of its stores |
| Paging.PageManager.GetPte | kernel/mm/paging.c:101-150 | `get_pte` in place equals the specified walk, with its stores in order |
| Paging.PageManager.MmMapPage | kernel/mm/paging.c:152-158 | `mm_map_page` in place takes the map step, writes before it invalidates, and returns exactly `virt` on success and null on failure; on success the page translates to the entry asked for |
| Paging.PageManager.MmUnmapPage | kernel/mm/paging.c:160-167 | `mm_unmap_page` in place takes the unmap step, clears before it invalidates, and returns the address of the frame the page was mapped to, null for an unmapped page |
| Paging.PageManager.PagingSwitchDirectory | kernel/mm/paging.c:169-173 | Switching changes only the current directory and loads cr3 with its address, whose effect `SwitchSeenExactly` gives |
| BlockHeap.BytesAddUp | kernel/mm/paging.c:248-257 | In a tiled heap headers and payloads add up to HEAP_SIZE |
| BlockHeap.SplitTiles | kernel/mm/paging.c:275-295 | A carried-out split keeps the list doubly linked and tiling, gives the block the requested size, and makes one free remainder of more than 16 bytes right behind it; all other sizes are kept |
| BlockHeap.SplitKeepsTilingExactly | kernel/mm/paging.c:275-295 | For any listed block and any 64-bit size the heap stays tiled iff the wrapped guard does not let an oversized request through |
| BlockHeap.OversizedRequestBreaks | kernel/mm/paging.c:276 | A request of 2^64 - 1 bytes on the fresh heap does break it |
| BlockHeap.RunKeepsTiling | kernel/mm/paging.c:275-295 | Any run of splits of listed blocks, each meeting the sound guard, keeps the heap tiled |
| BlockHeap.RunFromInit | kernel/mm/paging.c:248-295 | From `heap_init`, after any such run headers and payloads still sum to HEAP_SIZE |
| BlockHeap.BestFitSplits | kernel/mm/paging.c:260-276 | Splitting a best-fit result at the requested size always meets the sound guard |
| BlockHeap.SplitRefusedExactly | kernel/mm/paging.c:276 | A split changes nothing iff the block has at most the requested size plus 56 bytes, in the wrapping arithmetic of the guard |
| BlockHeap.BestFitMeans | kernel/mm/paging.c:260-273 | A best fit is free and large enough, and any other such block is larger, or as large and behind it |
| BlockHeap.ExactFit | kernel/mm/paging.c:267 | Stopping at an exact fit misses no better block |
| BlockHeap.Heap.HeapInit | kernel/mm/paging.c:248-258 | One free block covers the heap |
| BlockHeap.Heap.FindBestFit | kernel/mm/paging.c:260-273 | Returns the earliest block of least sufficient size among free blocks, null exactly when none fits |
| BlockHeap.Heap.SplitBlock | kernel/mm/paging.c:275-295 | The in-place split, in the order of the source, gives the specified headers for every 64-bit size; some list tiles the heap afterwards iff the guard was sound |
| Terminal.EagerPutMeans | kernel/drv/drv_vga.c:42-66 | One byte to the driver, cell by cell: newline, return, backspace (which blanks the cell before the cursor, and does nothing at column 0) and printed bytes; new rows are blank in the current colour |
| Terminal.LazyPutMeans | lib/libk/src/stdio.rs:44-86 | The same for the console, whose new rows are zero bytes, which carries out a pending wrap before a character, and which ignores other control bytes |
| Terminal.EagerTabMeans | kernel/drv/drv_vga.c:49-51 | A tab to the driver is the spaces up to the next multiple of four, and nothing else |
| Terminal.LazyTabMeans | lib/libk/src/stdio.rs:56-68 | The same on the console |
| Terminal.EagerHistory | kernel/drv/drv_vga.c:24-66 | No byte stream to the driver changes a row that has scrolled off |
| Terminal.LazyHistory | lib/libk/src/stdio.rs:25-86 | No byte stream to the console changes a row that has scrolled off |
| Terminal.EagerText | kernel/drv/drv_vga.c:57-65 | Printable text fills consecutive cells from the cursor, across rows, and the cursor follows it |
| Terminal.LazyText | lib/libk/src/stdio.rs:75-83 | The same for the lazily wrapping console |
| Terminal.EagerTab | kernel/drv/drv_vga.c:49-51 | A tab prints 1 to 4 spaces up to the next multiple of four |
| Terminal.LazyTab | lib/libk/src/stdio.rs:56-68 | The same on the console, also with a wrap pending |
| Terminal.BackspaceTakesBack | kernel/drv/drv_vga.c:52-65 | On the console a backspace undoes the cursor move of any printed character; on the driver exactly of one that did not fill its row |
| Terminal.WrapsAgree | lib/libk/src/stdio.rs:75-83 | From the same position and colour, bytes from 0x20 up are written by both outputs as the same cells at the same place, and the two stay in step |
| Terminal.CursorsRelated | kernel/drv/drv_vga.c:60-64 | In step means equal cursors, or column 0 of the next row against column 80 |
| Terminal.NewlineAgreesExactly | lib/libk/src/stdio.rs:48-52 | A newline keeps the two in step iff the console has no wrap pending |
| Terminal.LinesDrift | kernel/drv/drv_vga.c:42-66 | Over any stream of text, tabs, newlines and carriage returns the driver gets ahead by one row for each line end that meets the console at column 80, and by nothing else |
| Terminal.LinesAgreeExactly | lib/libk/src/stdio.rs:44-86 | Such a stream leaves the two in step iff no line end meets the console at column 80 |
| Terminal.PutAgreesExactly | kernel/drv/drv_vga.c:42-66 | A byte of any kind keeps the two in step iff it is text or a tab, or a line end or backspace with the console off column 80 |
| Terminal.StreamsAgreeExactly | lib/libk/src/stdio.rs:44-86 | Any byte stream keeps the two in step throughout iff every byte is harmless in that sense at the column where it meets the console, a column computed from the bytes alone |
| Terminal.InStepOnPrefix | lib/libk/src/stdio.rs:44-86 | In step throughout is in step after every prefix of the stream |
| Terminal.FullLineParts | lib/libk/src/stdio.rs:48-83 | From blank screens any 80 characters and a newline do part them, at cells 160 and 80 |
| Consoles.PutcAt | kernel/drv/drv_vga.c:14-22 | Writes one cell inside the 4000-byte buffer and no other |
| Consoles.ScreenBytes | kernel/drv/drv_vga.c:14-22 | A shown terminal has the character and colour of its last 2000 cells in the buffer, row after row, and its cursor at the cursor |
| Consoles.ScrollUp | kernel/drv/drv_vga.c:26-38 | The nested copying loops move every row up by one in place and fill the last |
| Consoles.VgaDriver.Putc | kernel/drv/drv_vga.c:42-66 | After one byte the screen still shows the last 25 rows of the terminal fed that byte |
| Consoles.VgaDriver.DriverInit | kernel/drv/drv_vga.c:68-79 | The screen shows a blank terminal |
| Consoles.VgaDriver.DriverWrite | kernel/drv/drv_vga.c:86-94 | After any byte stream the 25x80 cells and cursor are those of the unbounded terminal fed the same stream; missing buffer and length cut included |
| Consoles.Console.Kputc | lib/libk/src/stdio.rs:44-86 | The same for the console, and the byte goes to the serial port |
| Consoles.VgaDriver.SetColor | kernel/drv/drv_vga.c:104 | The colour request changes the colour of later cells only |
| Consoles.Console.KsetColor | lib/libk/src/stdio.rs:196-198 | The same on the console |
| Consoles.Console.KclearScreen | lib/libk/src/stdio.rs:200-209 | Blanks the visible rows and homes the cursor |
| Numbers.DigitChars | lib/libk/src/stdio.rs:153-160 | The digit characters are 0 to 9 and a to f |
| Numbers.ParsePadded | lib/libk/src/stdio.rs:163-176 | The zero-padded hexadecimal text reads back as the number |
| Numbers.ValueOfDigits | lib/libk/src/stdio.rs:127-134 | The digits that repeated division produces are the positional notation of the number |
| Numbers.ParseText | lib/libk/src/stdio.rs:122-140 | Reading back the printed digits gives the number, with no leading zero |
| Numbers.TextUnique | lib/libk/src/stdio.rs:122-162 | The printed text is the only such digit string of the number |
| Numbers.WordDigitsFit | lib/libk/src/stdio.rs:127-159 | Every 64-bit value has at most 20 decimal and 16 hexadecimal digits |
| Numbers.PaddedHexAt | lib/libk/src/stdio.rs:167-174 | Each digit of `%p` is the nibble its shift exposes |
| Numbers.PaddedIsText | lib/libk/src/stdio.rs:163-176 | `%p` prints the digits of `%x` zero-padded to 16 |
| Printf.FillDecimal | lib/libk/src/stdio.rs:127-134 | The `%d` loop stays in its 20 bytes and leaves the decimal digits at the end |
| Printf.FillHex | lib/libk/src/stdio.rs:148-156 | The `%x` loop stays in its 16 bytes and leaves the hexadecimal digits at the end |
| Printf.PrintDecimal | lib/libk/src/stdio.rs:122-140 | `%d` prints the decimal text |
| Printf.PrintHex | lib/libk/src/stdio.rs:141-162 | `%x` prints "0x" and then what `print_hex64` prints |
| Printf.PrintPointer | lib/libk/src/stdio.rs:163-176 | `%p` prints "0x" and sixteen digits |
| Printf.PrintHex64 | lib/libk/src/stdio.rs:212-229 | `print_hex64`, filling forwards and printing backwards, prints the hexadecimal text |
| Printf.Kputs | lib/libk/src/stdio.rs:89-99 | Prints the bytes before the terminating zero |
| Printf.LiteralPrints | lib/libk/src/stdio.rs:188-190 | Outside directives a format prints its bytes |
| Printf.NothingPrints | lib/libk/src/stdio.rs:106-110 | The empty format and a lone final percent print nothing |
| Printf.DecimalPrints | lib/libk/src/stdio.rs:122-140 | `%d` prints a text without leading zeros that reads in base 10 as its argument, for every value, and takes one argument |
| Printf.HexPrints | lib/libk/src/stdio.rs:141-162 | `%x` and `%X` print "0x" and a text without leading zeros that reads in base 16 as their argument |
| Printf.PointerPrints | lib/libk/src/stdio.rs:163-176 | `%p` prints "0x" and sixteen digits that read as its argument |
| Printf.CharPrints | lib/libk/src/stdio.rs:118-121 | `%c` prints the low byte of its argument |
| Printf.StringPrints | lib/libk/src/stdio.rs:113-117 | `%s` prints the bytes before the first zero |
| Printf.OtherPrints | lib/libk/src/stdio.rs:177-184 | `%%` prints one percent; any other byte after a percent prints both; neither takes an argument |
| Printf.FormatComposes | lib/libk/src/stdio.rs:102-193 | A format cut outside a directive prints as its two parts with the arguments cut at the number the first part consumes |
| Printf.ExtraArgs | lib/libk/src/stdio.rs:111-185 | Only as many arguments as there are s, c, d, x, X, p directives matter |
| Printf.KprintfVa | lib/libk/src/stdio.rs:102-193 | The one-pass interpreter prints exactly what the format means, directive by directive as the lemmas above give it in bytes, on screen and serial port |
| BumpHeap.RoundUpLeast | lib/libk/src/memory.rs:23-26 | The rounding formula gives the least multiple of the alignment at or above the pointer |
| BumpHeap.PowerOfTwoExactly | lib/libk/src/memory.rs:42 | The alignment test accepts exactly the powers of two |
| BumpHeap.AllocMeaning | lib/libk/src/memory.rs:19-56 | Without wrap-around the block starts at that least multiple, and null is returned exactly when too little room is left there |
| BumpHeap.LowHeapNeverWraps | lib/libk/src/memory.rs:26 | A heap that ends at or below 2^63 never wraps |
| BumpHeap.KmallocMeaning | lib/libk/src/memory.rs:18-35 | Without wrap-around `kmalloc` returns the first multiple of 8 at or above the pointer and moves the pointer behind the block, or null when no multiple of 8 leaves room |
| BumpHeap.RefusedMeaning | lib/libk/src/memory.rs:19-44 | Before initialisation, on a heap at address 0, and for an alignment that is no power of two nothing is handed out or changed |
| BumpHeap.WrapMeaning | lib/libk/src/memory.rs:45-52 | When rounding wraps it wraps to exactly 0: null is returned while the pointer is set to the size |
| BumpHeap.PointerMonotoneExactly | lib/libk/src/memory.rs:37-56 | A valid request leaves the pointer where it was or higher iff rounding does not wrap, or the size exceeds the end, or the size is at least the pointer |
| BumpHeap.PointerCanDrop | lib/libk/src/memory.rs:37-56 | A concrete heap and request for which the pointer drops |
| BumpHeap.FreshHeap | lib/libk/src/memory.rs:7-12 | An initialised heap on any range above 0 that ends below 2^64 satisfies the invariant of the runs |
| BumpHeap.Allocator.KheapInit | lib/libk/src/memory.rs:7-12 | Sets start, end (with wrap-around) and pointer; the heap is usable iff it starts above 0 and ends below 2^64, and then satisfies the invariant of the runs |
| BumpHeap.ReallocMeaning | lib/libk/src/memory.rs:63-78 | `krealloc`: the new block starts with the first min(old, new) bytes, lies wholly behind the old one, and every other block keeps its bytes; a failed call changes nothing |
| BumpHeap.ReallocSafe | lib/libk/src/memory.rs:73-74 | The copy stays in memory and its ranges never overlap |
| BumpHeap.KreallocTakesStep | lib/libk/src/memory.rs:63-78 | For a block of the heap and its true size, what the method `Krealloc` ensures is the reallocation step of the runs |
| BumpHeap.StepSafe | lib/libk/src/memory.rs:19-78 | Every operation keeps blocks inside the heap, aligned as asked and disjoint, and the bytes of every block it does not name |
| BumpHeap.StepSafeExactly | lib/libk/src/memory.rs:19-78 | On any heap an operation is safe in that sense iff its request meets the condition of `PointerMonotoneExactly` |
| BumpHeap.LowHeapAlwaysLegal | lib/libk/src/memory.rs:19-56 | On a heap that ends at or below 2^63 every operation meets that condition |
| BumpHeap.RunSafe | lib/libk/src/memory.rs:19-78 | On any heap, over any run of such operations, a block keeps its place and its bytes as long as no store names it |
| BumpHeap.RunInv | lib/libk/src/memory.rs:19-78 | Over any such run blocks stay inside, aligned and disjoint and the pointer never drops |
| BumpHeap.Allocator.KmallocAligned | lib/libk/src/memory.rs:37-56 | The in-place allocator equals the allocation function |
| BumpHeap.Allocator.Kmalloc | lib/libk/src/memory.rs:18-35 | The same with alignment 8 |
| BumpHeap.Allocator.Krealloc | lib/libk/src/memory.rs:63-78 | The in-place reallocation: null pointer, zero size, failure and copy cases |
| Keyboards.DecodersAgreeExactly | kernel/kbd/kbd.c:119-135 | The two decoders give the same character iff the key is not escape, keypad star or unshifted 0x56, and not a letter under shift plus caps lock |
| Keyboards.PlainKeys | kernel/drv/drv_kbd.c:36-50 | The character of each digit, letter and sign key by scancode, in both keyboards |
| Keyboards.ShiftedKeys | kernel/drv/drv_kbd.c:51-66 | The same with shift |
| Keyboards.OtherKeys | kernel/kbd/kbd.c:4-50 | All other keys: backspace, tab, enter and space in both, escape, keypad star and the bar key in the kernel keyboard only, no character elsewhere |
| Keyboards.CapsOnLetters | kernel/drv/drv_kbd.c:70-74 | Caps lock changes letters only: their case in the driver, small to capital in the kernel keyboard unless shift already did |
| Keyboards.OutMeans | kernel/drv/drv_kbd.c:90-110 | Releases, the extended prefix and modifier keys put no character out; every other key does |
| Keyboards.StepKeys | kernel/drv/drv_kbd.c:79-105 | What a scancode byte does to the pressed keys, caps lock and the extended prefix |
| Keyboards.ShiftByLastByte | kernel/drv/drv_kbd.c:90-93 | Over any run, in both keyboards, shift is on iff the last make or break byte of 0x2A or 0x36 was a make, and as at first if there was none |
| Keyboards.CtrlByLastByte | kernel/kbd/kbd.c:91-115 | The same for ctrl and 0x1D |
| Keyboards.AltByLastByte | kernel/kbd/kbd.c:93-119 | The same for alt and 0x38 |
| Keyboards.LetterCase | kernel/drv/drv_kbd.c:68-75 | For every letter key, shift alone and caps lock alone give the capital in both decoders; together they give the small letter in the driver and the capital in the kernel keyboard |
| Keyboards.KeysAgree | kernel/drv/drv_kbd.c:80-107 | Fed the same events, modifiers and pressed keys of the two keyboards agree in every state |
| Keyboards.StepsAgreeExactly | kernel/kbd/kbd.c:74-143 | From equal states one event leaves the two keyboards equal iff it is not a key that finds room in the ring and is decoded differently |
| Keyboards.KeyboardsAgreeExactly | kernel/drv/drv_kbd.c:77-139 | The two keyboards agree in keys, pending and delivered characters at every point of a run iff every key that finds room in the ring is decoded alike |
| Keyboards.AgreeOnPrefix | kernel/drv/drv_kbd.c:77-139 | Agreement at every point is agreement after every prefix of the run |
| Keyboards.LastByteDecides | kernel/drv/drv_kbd.c:83-88 | A key counts as pressed exactly when the last byte received for it was a make |
| Keyboards.CapsIsParity | kernel/drv/drv_kbd.c:102-105 | Caps lock is the parity of its presses |
| Keyboards.AcceptFifo | kernel/drv/drv_kbd.c:28-34 | A push is dropped exactly when the character is zero or 255 are pending |
| Keyboards.DriverFifo | kernel/drv/drv_kbd.c:28-139 | Over any interleaving of scancodes and reads, delivered then pending characters equal the accepted ones, at most 255 pend and none is zero |
| Keyboards.KernelFifo | kernel/kbd/kbd.c:66-143 | The same for the kernel keyboard |
| Keyboards.ReadsSplit | kernel/kbd/kbd.c:138-143 | A read of n characters is up to n single reads |
| KeyboardDrivers.WindowPush | kernel/drv/drv_kbd.c:28-34 | The index arithmetic: full exactly when advancing the end meets the start, otherwise one character is appended |
| KeyboardDrivers.WindowTake | kernel/drv/drv_kbd.c:134-137 | The index arithmetic of taking the oldest character |
| KeyboardDrivers.DriverKeyboard.HandlerIsr | kernel/drv/drv_kbd.c:77-111 | The handler in place takes the step of keys and queue whose meaning the `Keyboards` lemmas give |
| KeyboardDrivers.DriverKeyboard.DriverRead | kernel/drv/drv_kbd.c:127-139 | Delivers the oldest characters, as many as asked and pending; -1 for a missing buffer or empty request |
| KeyboardDrivers.KernelKeyboard.Handler | kernel/kbd/kbd.c:74-136 | The handler with its modifier bit mask takes the same step, with its own decoder |
| KeyboardDrivers.KernelKeyboard.Getchar | kernel/kbd/kbd.c:138-143 | Takes the oldest character; the result is 0 iff none was pending, since no pending character is zero |
| KeyboardDrivers.KernelKeyboard.GetModifiers | kernel/kbd/kbd.c:149-151 | Bits 0 to 3 of the modifier byte are shift, ctrl, alt and caps lock |
| KeyboardDrivers.KernelKeyboard.HasInput | kernel/kbd/kbd.c:145-147 | True exactly when a character is pending |
| DriverBinding.FirstMatch | kernel/drv/drv.c:112-121 | The lowest registered driver of the device's type whose probe accepts it, none exactly when there is none |
| DriverBinding.BindingMeans | kernel/drv/drv.c:110-130 | Field by field: an active unbound device gets the lowest slot that is registered, of its type, and has a probe that accepts it, and stays unbound iff there is none |
| DriverBinding.BindingIsFirstMatch | kernel/drv/drv.c:110-130 | Each unbound active device gets exactly its lowest match; bound and inactive devices are untouched |
| DriverBinding.SecondPassBindsNothing | kernel/drv/drv.c:110-130 | A second pass changes no device and counts none |
| DriverBinding.Registry.DrvProbeAll | kernel/drv/drv.c:110-130 | The driver-major nested loops bind each active unbound device to the lowest registered slot of its type whose probe accepts it, leave all else alone, count the newly bound devices and mark exactly their drivers as probed |
| DriverBinding.Registry.DrvRegister | kernel/drv/drv.c:26-40 | Registration uses the first unused slot, and fails without effect exactly in the listed cases |
| DriverBinding.Registry.DevRegister | kernel/drv/drv.c:53-70 | The same for devices, with the id given to devices that have none |

## Left out

- Paging.PageManager.MmFreePage: callers must keep the frame number, cut to 32 bits, non-negative, because a negative one indexes before the bitmap. Runs free only frames that a client holds.
- Tlb.OpCoherent: one processor, no global pages or address-space identifiers, no caching of upper-level entries (they only ever change from absent to present), and one of the modelled directories loaded, which `BootCoherent` shows of every run from its first switch to a page-aligned directory on. What the 2 MB boot mappings translate before that is not part of this model.
- BlockHeap.Heap.SplitBlock: headers are records found by address, so a header overlapping another byte by byte in the unsound wrapped case is not represented; the block's final size is, and already breaks the list.
- Printf.KprintfVa: the format and every `%s` argument must be zero-terminated and every directive must have an argument, as the code reads them without a check.
- Paging.PageManager.NextLevel: the three levels that `get_pte` writes out in turn are one method called three times.
- `pages[]`, `phys_regions[]`, and the console messages of the memory manager: written but never read by the allocator; `pages[i].present` does not track the bitmap.
- Paging.PageManager.PagingInit: the cr4 flags and the call to `heap_init`; the heap range overlaps frames of the pool and memory below it (kernel/mm/mm.h:50-51), the two are modelled over separate memory and no disjointness is claimed.
- `heap_used` and `heap_free_bytes` as totals: the latter is only the size of the last remainder.
- The cursor requests of `vga_driver_ioctl` and the sharing of one screen buffer by the two consoles: each console owns its buffer.
- The bytes on the serial line beyond their order, port input and output, status polling, timing.
- `drv_unregister`, device lookup, the call-through functions and the listing: thin, or wrong counts on double unregistration.
- `kfree`: empty in the code; every block handed out stays valid.
- `krealloc` with an untruthful old size: only its raw copy contract is stated.
- Strings, VFS, RTC, system calls, interrupt and descriptor tables, boot and panic code: register and port programming, fixed tables and string loops, none of which shares state with the parts above.
