# Boot memory and VGA text writer of a small x86-64 kernel, in Dafny

This project models two parts of a minimal Rust kernel and proves properties of them.

**Boot memory (`src/memory.rs`, module `Memory`).**
- The frame allocator `BootInfoFrameAllocator` turns the boot memory map into a lazy sequence of 4 KiB frames. It keeps the `Usable` regions in map order. It steps through each region's `[start, end)` range by 4096. It aligns each address down to its frame. `allocate_frame` returns element `next` of that sequence and then increments `next`.
  - The sequence is the function `UsableFrames`.
  - The allocator is a class. Its map is a `const` and its cursor `next` is a field.
- The level-4 table sits at `physical_memory_offset + CR3 frame start`.
- The hand-written translation walk is kept in a comment block of the source. The model uses it as the reference algorithm. It walks the L4, L3, L2 and L1 tables using the indices in bits 47:39, 38:30, 29:21 and 20:12. It returns `None` at the first entry that is not present and stops the kernel on a huge-page entry. Otherwise it adds the 12-bit page offset to the frame it reaches.
  - Tables are records `{present, hugePage, frame}` seen at virtual addresses (`VirtualMemory`).
  - The promise that all physical memory is mapped at the offset is the relation `OffsetMapped` to physical memory.
- `create_example_mapping` makes two fixed choices: the VGA frame 0xb8000 and the flags PRESENT | WRITABLE. Any error from the library's `map_to` aborts.

**VGA text writer (`src/vga_buffer.rs` and the earlier `bare_bones/rust_os/src/vga_buffer.rs`).**
- Module `VgaText` holds the screen as a value: a 25 × 80 grid of `(byte, colour)` cells, the column and the colour byte. It defines what `new_line`, `write_byte` and `write_string` do to that value and proves their properties.
- Modules `VgaBuffer` and `BareBonesVgaBuffer` each hold a `Writer` class. Each class updates an `array2` in place with the source's loops. Each method is proved to leave the state that the `VgaText` function gives.
- The two versions differ only in `clear_row`. The earlier one always clears the bottom row.

`allocate_frame` reads frame `next` before it increments `next` (src/memory.rs:48-49), so the first call returns the first usable frame.

## Model

| member | source | states |
|---|---|---|
| `Memory.ContainingAddress` | src/memory.rs:42 | the frame of an address starts on a 4096 boundary at or below it, less than one frame below |
| `Memory.StepBy` | src/memory.rs:36-39 | the stepped range is exactly `start + k*4096` for every `k` whose address is below `end`, and it stops at the first address not below `end` |
| `Memory.UsableRegions` | src/memory.rs:29-30 | a region is kept if and only if it is in the map and is `Usable`; no more regions than the map has |
| `Memory.UsableRegionsAppend` | src/memory.rs:29-30 | filtering keeps map order: the usable regions of `a + b` are those of `a` followed by those of `b` |
| `Memory.UsableRegionsSorted` | src/memory.rs:29-30 | a sorted map yields sorted usable regions |
| `Memory.UsableFrames` | src/memory.rs:27-43 | every frame of the sequence contains a 4096-step address of a `Usable` region of the map |
| `Memory.UsableFramesAppend` | src/memory.rs:27-43 | the frames of `a + b` are the frames of `a` followed by those of `b`: regions are expanded one after another in map order |
| `Memory.UsableFramesOfRegion` | src/memory.rs:33-43 | a single `Usable` region yields the frames of `start, start + 4096, ...` below `end`, in that order; any other region yields none |
| `Memory.UsableFramesComplete` | src/memory.rs:27-43 | every 4096-step address of every `Usable` region has its frame in the sequence |
| `Memory.RegionFramesConsecutive` | src/memory.rs:39-42 | within one region, each frame starts exactly 4096 after the previous one, so frames strictly increase |
| `Memory.UsableFramesIncreasing` | src/memory.rs:27-51 | for a sorted map whose usable regions start on frame boundaries, the frames strictly increase, so no frame is handed out twice |
| `Memory.BootInfoFrameAllocator.Init` | src/memory.rs:19-24 | a new allocator holds the given map and `next == 0`; the map is a constant afterwards |
| `Memory.BootInfoFrameAllocator.AllocateFrame` | src/memory.rs:47-51 | returns frame number `next` of the usable-frame sequence, or `None` when `next` is past its end; `next` grows by exactly 1 either way and nothing else changes |
| `Memory.AllocationStaysExhausted` | src/memory.rs:47-50 | once a position is past the end of the sequence, every later position is too, so `None` is returned from then on |
| `Memory.ExampleMapFrames` | src/memory.rs:27-43 | the map `[(0x0,0x2000,Usable),(0x2000,0x3000,Reserved),(0x3000,0x5000,Usable)]` yields frames 0x0, 0x1000, 0x3000, 0x4000 |
| `Memory.ExampleAllocations` | src/memory.rs:47-51 | six calls on that map return 0x0, 0x1000, 0x3000, 0x4000, then `None` twice |
| `Memory.ActiveLevel4TableIsCr3Table` | src/memory.rs:65-72 | the table seen at `offset + CR3 frame start` is the table stored in the CR3 frame |
| `Memory.AddressSplit` | src/memory.rs:120 | the four 9-bit indices and the 12-bit offset together are exactly the low 48 bits of the address |
| `Memory.SamePageIndices` | src/memory.rs:120 | addresses in one page have the same four indices; the page offset is their distance from the page start |
| `Memory.EntryFrame` | src/memory.rs:132-136 | an entry designates its frame if and only if it is present and not huge; `FrameNotPresent` if and only if it is not present; `HugeFrame` if and only if it is present and huge |
| `Memory.WalkAppend` | src/memory.rs:126-137 | a walk over `a + b` is the walk over `a` continued from the frame it reaches over `b`, and stops with the first error of `a` otherwise |
| `Memory.TranslateAddr` | src/memory.rs:114-141 | a returned address has the virtual address's low 12 bits; the only fatal stop is "huge pages not supported" |
| `Memory.TranslateAddrInner` | src/memory.rs:114-141 | the loop over the four levels returns what the recursive walk `TranslateAddr` defines: `None` at the first non-present entry, a panic with "huge pages not supported" on a huge entry, else the final frame's start plus the page offset |
| `Memory.TranslateKeepsPageOffset` | src/memory.rs:139-140 | a returned address means the walk reached a frame, and the address is that frame's start plus the page offset |
| `Memory.WalkMatchesPhysWalk` | src/memory.rs:126-136 | reading each table at `offset + frame start` walks the same path as reading the tables from physical memory directly |
| `Memory.TranslateMatchesHardwareWalk` | src/memory.rs:114-141 | so translation through the offset window equals translation over physical memory |
| `Memory.TranslateThroughLeaf` | src/memory.rs:124-140 | once the L4, L3 and L2 entries lead to the L1 table, the L1 entry alone decides: `None` if not present, panic if huge, else its frame plus the offset |
| `Memory.TranslateMappedPage` | src/memory.rs:120-140 | a page whose L1 entry designates frame F translates every `page + o` (`o < 4096`) to `F + o` |
| `Memory.ExampleFrame` | src/memory.rs:90 | the example frame starts at 0xb8000 |
| `Memory.ExampleFlags` | src/memory.rs:91 | the example flags have PRESENT and WRITABLE set and no other bit |
| `Memory.CreateExampleMapping` | src/memory.rs:83-96 | the mapping panics with "map_to failed" and the error `map_to` returned if and only if `map_to` of the page, the VGA frame and PRESENT \| WRITABLE fails; otherwise that page is flushed |
| `Memory.ExampleMappingTranslation` | src/memory.rs:83-96 | with a page such as 0xdeadbeef000 mapped to the VGA frame, 0xdeadbeef190 translates to 0xb8190 |
| `VgaText.Color.Value` | src/vga_buffer.rs:11-28 | every colour's number is below 16 |
| `VgaText.PackNibbles` | src/vga_buffer.rs:42 | `high << 4 \| low` on two nibbles is `high*16 + low`; its high nibble is `high` and its low nibble is `low` |
| `VgaText.NewColorCode` | src/vga_buffer.rs:41-43 | the colour byte is `background*16 + foreground`, and both colours are recovered from it (same code at bare_bones/rust_os/src/vga_buffer.rs:39-41) |
| `VgaText.YellowOnBlack` | src/vga_buffer.rs:144 | yellow on black is the byte 0x0E |
| `VgaText.WriteByte` | src/vga_buffer.rs:73-93 | writing a byte keeps the grid at 25 × 80 and the column at most 80, and never changes the colour |
| `VgaText.WriteByteInRow` | src/vga_buffer.rs:78-90 | a non-newline byte at column < 80 is stored at bottom row, that column, in the writer's colour; the column grows by 1; no other cell changes |
| `VgaText.WriteByteAtEdge` | src/vga_buffer.rs:78-90 | a non-newline byte at column 80 first scrolls the screen, then lands in column 0, leaving column 1 |
| `VgaText.WriteNewline` | src/vga_buffer.rs:75 | writing `'\n'` is exactly a `new_line` |
| `VgaText.NewLine` | src/vga_buffer.rs:95-105 | after `new_line`, row `r-1` is the old row `r` for `r` in 1..25, the bottom row is all blanks in the writer's colour, the column is 0 and the colour is kept |
| `VgaText.ClearRow` | src/vga_buffer.rs:107-117 | clearing row `row` makes all 80 of its cells `(' ', colour)` and leaves every other row unchanged |
| `VgaText.BareBonesClearRow` | bare_bones/rust_os/src/vga_buffer.rs:104-115 | whatever `row` is, the bottom row becomes blanks in the colour and rows 0-23 are unchanged |
| `VgaText.BareBonesClearRowIgnoresRow` | bare_bones/rust_os/src/vga_buffer.rs:104-115 | the earlier clearing, asked to clear row 0 of a screen full of 'A', leaves row 0 unchanged |
| `VgaText.ClearRowsAgreeOnLastRow` | bare_bones/rust_os/src/vga_buffer.rs:100-112 | for the bottom row, the only row `new_line` clears, both clearings give the same grid |
| `VgaText.WriteString` | src/vga_buffer.rs:120-127 | writing a string keeps the grid size, the column bound and the colour |
| `VgaText.Sanitize` | src/vga_buffer.rs:122-125 | the byte passed on is the input or 0xFE, and it is the input exactly when the input is in 0x20..=0x7e, is `'\n'`, or is 0xFE itself |
| `VgaText.WriteStringStep` | src/vga_buffer.rs:120-126 | each input byte causes one `write_byte`: of the byte itself if it is in 0x20..=0x7e or is `'\n'`, else of 0xFE |
| `VgaText.WriteStringOnOneRow` | src/vga_buffer.rs:78-90 | printable bytes that fit in the bottom row are laid out left to right from the column, the column grows by their number, and nothing else changes |
| `VgaText.HelloOnFreshWriter` | bare_bones/rust_os/src/vga_buffer.rs:141-148 | 'H' then "ello, " on a fresh yellow-on-black writer puts "Hello, " in colour 0x0E in columns 0-6 of the bottom row, with the column at 7 |
| `VgaBuffer.Writer.constructor` | src/vga_buffer.rs:142-146 | the global writer starts at column 0 with colour byte 0x0E (yellow on black) |
| `VgaBuffer.Writer.WriteByte` | src/vga_buffer.rs:73-93 | the in-place write leaves exactly the state `VgaText.WriteByte` gives, keeping the column at most 80 |
| `VgaBuffer.Writer.PutByte` | src/vga_buffer.rs:81-90 | stores `(b, colour)` at the column of the bottom row, changes no other cell, and moves the column right by one |
| `VgaBuffer.Writer.NewLine` | src/vga_buffer.rs:95-105 | the nested in-place row copy followed by clearing the bottom row leaves exactly `VgaText.NewLine` of the old state |
| `VgaBuffer.Writer.ClearRow` | src/vga_buffer.rs:107-118 | the column loop leaves the grid `VgaText.ClearRow` gives for the given row; column and colour unchanged |
| `VgaBuffer.Writer.WriteString` | src/vga_buffer.rs:120-127 | the byte loop leaves exactly `VgaText.WriteString` of the old state |
| `VgaBuffer.Writer.WriteStr` | src/vga_buffer.rs:130-135 | writes the string as `write_string` does and always returns `Ok(())` |
| `BareBonesVgaBuffer.Writer.constructor` | bare_bones/rust_os/src/vga_buffer.rs:141-145 | the writer of `print_something` starts at column 0 with colour byte 0x0E |
| `BareBonesVgaBuffer.Writer.WriteByte` | bare_bones/rust_os/src/vga_buffer.rs:71-91 | the in-place write leaves exactly `VgaText.WriteByte` of the old state, keeping the column at most 80 |
| `BareBonesVgaBuffer.Writer.PutByte` | bare_bones/rust_os/src/vga_buffer.rs:79-88 | stores `(b, colour)` at the column of the bottom row, changes no other cell, and moves the column right by one |
| `BareBonesVgaBuffer.Writer.NewLine` | bare_bones/rust_os/src/vga_buffer.rs:93-102 | row shift and bottom-row clearing leave exactly `VgaText.NewLine` of the old state |
| `BareBonesVgaBuffer.Writer.ClearRow` | bare_bones/rust_os/src/vga_buffer.rs:104-115 | blanks the bottom row whatever `row` is, leaving rows 0-23 unchanged |
| `BareBonesVgaBuffer.Writer.WriteString` | bare_bones/rust_os/src/vga_buffer.rs:117-124 | the byte loop leaves exactly `VgaText.WriteString` of the old state |
| `BareBonesVgaBuffer.Writer.WriteStr` | bare_bones/rust_os/src/vga_buffer.rs:127-132 | writes the string and always returns `Ok(())` |
| `BareBonesVgaBuffer.PrintSomething` | bare_bones/rust_os/src/vga_buffer.rs:138-148 | after `write_byte(b'H')` and `write_string("ello, ")` on a fresh writer, the bottom row starts with "Hello, " in colour 0x0E and the column is 7 |

## Findings

| source | as written | input that shows it | evidently intended | confidence | as-written member | corrected member |
|---|---|---|---|---|---|---|
| bare_bones/rust_os/src/vga_buffer.rs:112 | `clear_row(row)` writes blanks into row `BUFFER_HEIGHT-1` and never uses `row` | `clear_row(0)` on a screen full of 'A' leaves row 0 unchanged | clear the row given, as the later src/vga_buffer.rs:115 does | medium, not executed; latent, because the only caller passes the bottom row | `VgaText.BareBonesClearRowIgnoresRow` | `VgaText.ClearRow` |

## Left out

- Reading CR3 and dereferencing raw pointers are hardware reads. The CR3 frame is a parameter. The tables are a function from address to table.
- `memory::init` (src/memory.rs:77-80) only wraps the active level-4 table in the library's `OffsetPageTable::new`, and that constructor is library code. So are the library's generic translation, `map_to` and `flush` (a TLB invalidation), which includes allocating missing intermediate tables.
- Memory.CreateExampleMapping: `expect` appends the error's `Debug` rendering to "map_to failed". The model keeps the fixed text as the message and carries the error itself in the outcome. It does not spell the error into the string.
- Memory.CreateExampleMapping: `map_to` is a pure function parameter. The model does not capture how it changes the page tables or takes frames from the allocator.
- Address width is not modelled. Addresses are unbounded naturals. The model leaves out the u64 overflow of `offset + phys` and the canonical-address check of `VirtAddr`. It also leaves out the 52-bit check of `PhysAddr::new` and the decoding of an entry's raw bits.
- Memory.BootInfoFrameAllocator.AllocateFrame: `next` is unbounded. Overflow of the `usize` cursor after 2^64 calls is not modelled.
- Memory.UsableFramesIncreasing: distinctness is proved only for maps that are sorted and whose usable regions start on frame boundaries. Overlapping or unaligned regions can yield the same frame twice.
- The call-once rule of `active_level_4_table` is not modelled. It forbids two live mutable references to the same table, and a value model has no references to alias.
- Region kinds other than `Usable`, `InUse` and `Reserved` are folded into `Other`. Only `Usable` matters to the allocator.
- `WRITER`'s `lazy_static` and `spin::Mutex`, `_print` with interrupts masked, and the `print!`/`println!` macros are about locking and interrupt masking.
- `Volatile` reads and writes are plain array accesses.
- A Rust `&str` is the sequence of its UTF-8 bytes.
- BareBonesVgaBuffer.PrintSomething: the model stops after `write_string("ello, ")`. The final `write!` formats 234 and the float 1.0/9.0 through `core::fmt`, which is library code and floating point.
- `bare_bones/rust_os/src/gdt.rs` is not part of this model. It is a thin wrapper over library constructors and privileged register loads.
- `src/main.rs` and `bare_bones/rust_os/src/main.rs` are not part of this model. They hold the entry points, the panic handlers, `hlt_loop` and PIC/IDT setup.
