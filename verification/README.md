# kardos boot chain in Dafny

A model of the logic of the kardos boot chain, with proofs about it. kardos is a small
x86-64 hobby system written in Rust. The model covers four parts:

- **Loader.** The UEFI loaders `kardos-loader` and the older `kardos-bootloader` load the
  kernel ELF image. Each computes the span of the `PT_LOAD` segments and turns it into a
  page count. It asks the firmware for those pages at the span's first address. Then it
  copies each segment and zero-fills its tail. Finally it describes the graphics mode to
  the kernel in a `FrameBuffer` record.
- **Pixels and glyphs.** `kardos-kernel` writes pixels through an RGB or BGR writer. It
  rasterises bitmap glyphs with `render_font`. This exists in two shapes: 9 by 18 over
  `u16` rows in `graphics.rs`, and 7 by 13 over `u8` rows in the kernel's `main.rs`. It
  draws strings with `print_font` and `print_string`. `render_example` paints a test
  gradient.
- **Console.** A 30 by 50 text console keeps a character grid and a cursor, drops
  characters at the last column, and scrolls on a newline in the last row.
- **Font compiler.** The kernel's build script turns a `STARTCHAR ... ENDCHAR` bitmap font
  source into the text of the `LATIN1_FONT` table. Each row of `.` and `@` becomes a
  `u16` written as `0b...`.

The model is split into these modules:

| file | module | models |
|---|---|---|
| words.dfy | Words | fixed-width integers, powers of two, bits |
| results.dfy | Results | `Option` and `Result` (a panic becomes an `Err`) |
| framebuffer.dfy | Framebuffer | the `FrameBuffer` record, `put_pixel` of both writers, the reference `Blit`/`Paint` |
| glyph.dfy | Glyph | `render_font`, written once over a `Shape` and instantiated as `LATIN1` (9×18, mask bit 9) and `LEGACY` (7×13, mask bit 7) |
| graphics.dfy | Graphics | `print_font`, `print_string`, `render_example`, `print_example`, `paint_rectangle` |
| rectangles.dfy | Rectangles | the rectangle fill loops |
| kernel_main.dfy | KernelMain | `kernel_main`, and `render_example` with its red rectangle, of the kernel's `main.rs` |
| console.dfy | Console | `Console::new`, `put_string`, `new_line`, `paint_background`, `print_font_from_buffer` |
| font_compiler.dfy | FontCompiler | `build.rs`: the line state machine, the row encoder, the `{:08b}` formatting |
| elf_loader.dfy | ElfLoader | `load_kernel` of both loaders |
| handoff.dfy | Handoff | the pixel-format mapping, the `as u32` frame-buffer record, and the order of loading and hand-off |

Everything is a pure function over immutable values:
- framebuffer memory is a byte map keyed by offset from the first pixel byte;
- physical memory is a byte map keyed by address;
- the console is a datatype, with a separate `...Screen` function for the memory its
  drawing produces.

Each drawing routine is related to one reference meaning. `Paint(w, mem, S, c)` says that
every pixel index in `S` holds `c` under layout `w` and every other byte is unchanged.

Quirks of the source that the model keeps:
- The 9×18 rasteriser tests bit `9 - dx` of a row, so bit 0 is never read. A 9-pixel row
  compiled by the build script is drawn one column to the right, and its last pixel is
  lost (`FontCompiler.CompiledRowColumns`).
- After a scroll the bottom row is filled with spaces, although the source comment says
  NUL characters.
- With no `PT_LOAD` segment, `dest_end - dest_start` underflows.
- The red rectangle of the kernel's `render_example` is not clipped to the screen. On a
  screen narrower than 250 pixels it recolours pixels outside the rectangle.
- The kernel's `kernel_main` indexes its glyph table with the character code itself
  (entry `0x41` for `A`), while `print_font` uses `c - 1`. Read with `print_font`'s
  convention, the entries it draws are the glyphs of `B` to `D` and `Q` to `T`
  (`KernelMain.BannerInBox`).

## Model

| member | source | states |
|---|---|---|
| Framebuffer.PutPixel | kardos-kernel/src/graphics.rs:64-86 | Only bytes `o`, `o+1`, `o+2` are written, with `o = 4*(stride*y+x)`. They hold red, green, blue for the RGB writer and blue, green, red for the BGR writer. Every other byte keeps its value, including `o+3`. |
| Framebuffer.PutPixelRoundTrip | kardos-kernel/src/graphics.rs:64-86 | Reading a written pixel back through the same layout gives the colour that was written. |
| Framebuffer.BgrPixelExample | kardos-kernel/src/graphics.rs:77-86 | The BGR writer stores the colour (10, 20, 30) as the bytes 30, 20, 10. |
| Framebuffer.PutPixelIsBlit | kardos-kernel/src/main.rs:52-74 | The kernel `main.rs` writers draw exactly one pixel: `put_pixel` equals the reference drawing of the single pixel index `stride*y+x`. |
| Framebuffer.PixelIndexInjective | kardos-kernel/src/graphics.rs:67 | Two pixels with `x < stride` and different coordinates never share an offset. |
| Framebuffer.PutPixelsIsPaint | kardos-kernel/src/graphics.rs:95-103 | A run of `put_pixel` calls in one colour paints exactly the pixel indices it lands on, whatever their order and repetitions. |
| Glyph.TraceInBox | kardos-kernel/src/graphics.rs:95-100 | Every point the glyph loops pass to `put_pixel` lies in the `cols` by `rows` box at `(x, y)`. |
| Glyph.TraceMembers | kardos-kernel/src/graphics.rs:95-100 | `(x+dx, y+dy)` is passed to `put_pixel` if and only if `dy < rows`, `dx < cols` and bit `maskBit - dx` of `font[dy]` is set. For graphics.rs that is bit `9 - dx`. |
| Glyph.TraceIndicesAreGlyph | kardos-kernel/src/graphics.rs:95-103 | The pixel indices the loops touch are exactly the reference set of pixels whose glyph bits are set. |
| Glyph.RenderFontPaintsGlyph | kardos-kernel/src/graphics.rs:88-104 | `render_font` with either writer paints exactly the set-bit pixels of the glyph in `color`. |
| Glyph.RenderFontPixel | kardos-kernel/src/graphics.rs:95-100 | Take a glyph box that does not run past the stride. Pixel `(x+dx, y+dy)` reads `color` when bit `maskBit - dx` of `font[dy]` is set, and keeps its old colour otherwise. |
| Glyph.TraceCount | kardos-kernel/src/main.rs:97-105 | The number of `put_pixel` calls is the popcount of the tested bits (`maskBit` down to `maskBit - cols + 1`) over the drawn rows. |
| Glyph.BlankGlyphDrawsNothing | kardos-kernel/src/graphics.rs:95-103 | A glyph whose drawn rows are all zero makes no `put_pixel` call and leaves memory as it was. |
| Glyph.FullGlyphDrawsBox | kardos-kernel/src/graphics.rs:95-103 | A glyph with every tested bit set makes `rows*cols` calls (162 for the 9×18 shape) and paints the whole box. |
| Glyph.TraceReadsOnlyTestedBits | kardos-kernel/src/graphics.rs:97 | Two glyphs that agree on the tested bits of the drawn rows produce the same sequence of `put_pixel` calls. |
| Glyph.BitZeroAndSpareRowsIgnored | kardos-kernel/src/main.rs:97-99 | In both shapes bit 0 of a row is never read, and in the 7×13 shape the 14th row is never read. |
| Graphics.PrintFont | kardos-kernel/src/graphics.rs:17-29 | `print_font` paints glyph `c - 1` of the table at `(x, y)` in `color`, with the writer `fb.format` selects. |
| Graphics.StringPixelsShift | kardos-kernel/src/graphics.rs:11-12 | The pixels of a string are those of its first glyph plus those of the rest drawn 10 pixels to the right. |
| Graphics.PrintChars | kardos-kernel/src/graphics.rs:11-13 | From character `i` on, the loop paints the union of the glyphs of characters `i..`, the `j`-th at `(x + 10*j, y)`. |
| Graphics.PrintString | kardos-kernel/src/graphics.rs:10-14 | `print_string` paints character `i` at `(x + 10*i, y)` for every `i`, with no wrapping. |
| Graphics.ExampleColumn | kardos-kernel/src/graphics.rs:108-110 | The inner loop gives each pixel of column `x`, from row `y` to the bottom, its gradient colour. |
| Graphics.ExampleColumns | kardos-kernel/src/graphics.rs:107-111 | The outer loop gives each pixel of the columns from `x` on its gradient colour. |
| Graphics.RenderExample | kardos-kernel/src/graphics.rs:106-112 | `render_example` draws the gradient over every visible pixel and nothing else. |
| Graphics.RenderExampleGradient | kardos-kernel/src/graphics.rs:106-112 | Afterwards every visible pixel `(x, y)` reads `(x mod 256, y mod 256, 255)`, and every byte outside the visible pixels is unchanged. |
| Graphics.RenderExamplePixel | kardos-kernel/src/graphics.rs:109 | One visible pixel `(x, y)` reads back as `(x mod 256, y mod 256, 255)`. |
| Graphics.PrintExample | kardos-kernel/src/graphics.rs:31-40 | `print_example` draws the gradient through the writer that matches `fb.format`. |
| Rectangles.FillColumn | kardos-kernel/src/main.rs:84-86 | The inner rectangle loop paints exactly column `x` from row `y` to `y1 - 1`. |
| Rectangles.FillRect | kardos-kernel/src/main.rs:83-87 | The rectangle loops paint exactly the pixel indices of `[x0, x1) × [y0, y1)`. |
| Rectangles.RectDecode | kardos-kernel/src/main.rs:83-87 | When `x1 <= stride`, a pixel's index is in the rectangle if and only if its coordinates are. |
| Rectangles.RectReadBack | kardos-kernel/src/main.rs:83-87 | When `x1 <= stride`, a pixel reads the fill colour after the fill if and only if it lies in the rectangle. Any other pixel keeps its colour. |
| Rectangles.FillRectCovers | kardos-kernel/src/main.rs:83-87 | Every rectangle point reads the fill colour afterwards, whatever the stride. |
| KernelMain.RenderExample | kardos-kernel/src/main.rs:76-88 | The kernel's `render_example` draws the gradient over the visible area, then paints the rectangle `[50, 250) × [50, 150)` red. |
| KernelMain.RectOverGradient | kardos-kernel/src/main.rs:76-88 | Take a rectangle of width within the stride, painted over the gradient. A visible pixel reads the rectangle's colour inside it and its gradient colour outside. |
| KernelMain.RenderExampleRed | kardos-kernel/src/main.rs:83-87 | Every pixel whose index equals a rectangle point's index is red. That includes pixels outside the rectangle on a screen narrower than 250. |
| KernelMain.RenderExampleKeepsGradient | kardos-kernel/src/main.rs:76-88 | With a stride of at least 250, every visible pixel outside the rectangle keeps `(x mod 256, y mod 256, 255)`. |
| KernelMain.BannerInBox | kardos-kernel/src/main.rs:27-36 | The glyphs `kernel_main` draws have table indices up to `0x53`. Every glyph lies within `[0, 250) × [0, 150)`, so it is addressable whenever the rectangle is. Every glyph also ends above and to the left of `[50, 250) × [50, 150)`, so it is drawn on the gradient, not on the red rectangle. Under `print_font`'s `c - 1` convention the entries hold the glyphs of `B` to `D` (RGB) and `Q` to `T` (BGR). |
| KernelMain.DrawGlyphs | kardos-kernel/src/main.rs:27-29 | A run of `render_font` calls in one colour paints the union of the set-bit pixels of all its glyphs. |
| KernelMain.PlacedPixelPainted | kardos-kernel/src/main.rs:27-36 | After the run, every set-bit pixel of any of its glyphs reads the run's colour. |
| KernelMain.KernelMain | kardos-kernel/src/main.rs:23-38 | `kernel_main` draws the example and then its glyphs in black. Both go through the writer that matches `fb.format`, and the glyphs depend on the format: table entries `0x41` to `0x43` for RGB and `0x50` to `0x53` for BGR. |
| Console.New | kardos-kernel/src/console.rs:22-33 | A new console satisfies the invariant, has every cell NUL, the cursor at `(0, 0)`, a white foreground and a black background. |
| Console.NewScreen | kardos-kernel/src/console.rs:55-64 | `paint_background` paints exactly the 500 by 540 console area black. |
| Console.Spaces | kardos-kernel/src/console.rs:86 | The refill row is 50 spaces. |
| Console.FirstNul | kardos-kernel/src/console.rs:78-81 | Gives the index where the redraw loop breaks: the first NUL of the row, or its length when it has none. |
| Console.DrawRow | kardos-kernel/src/console.rs:78-83 | Redrawing a row from column `ci` paints the glyphs of its cells from `ci` up to the first NUL, cell `k` at `(10*k, 18*row)`. |
| Console.DrawRowIsPrintString | kardos-kernel/src/console.rs:78-98 | Redrawing a row draws the same pixels as `print_string` of the row's text before its first NUL, from the left edge. |
| Console.RedrawRows | kardos-kernel/src/console.rs:73-84 | The scroll loop draws, on each row `i < 29`, the text that row `i + 1` held before the scroll. |
| Console.Scrolled | kardos-kernel/src/console.rs:73-86 | The grid after a scroll still satisfies the grid invariant. |
| Console.NewLine | kardos-kernel/src/console.rs:67-88 | `new_line` keeps the invariant (`row < 30`, `col <= 49`, every cell NUL or drawable). It sets the column to 0 and leaves the colours and frame buffer alone. |
| Console.NewLineAdvances | kardos-kernel/src/console.rs:68-70 | Above the last row a newline moves the cursor down one row. It changes no cell and draws nothing. |
| Console.NewLineScrolls | kardos-kernel/src/console.rs:71-87 | On the last row the cursor stays on row 29. Each row `i < 29` takes the old row `i + 1`, and the last row becomes spaces. The screen is the black background with the moved text redrawn. |
| Console.PutChar | kardos-kernel/src/console.rs:38-50 | One character keeps the invariant and moves the cursor: to column 0 on a newline, one column right before column 49, nowhere at column 49. |
| Console.PutCharDrops | kardos-kernel/src/console.rs:40 | At column 49 an ordinary character is dropped. Console and screen are unchanged. |
| Console.PutCharStores | kardos-kernel/src/console.rs:40-49 | Before column 49 an ordinary character is stored in the cursor cell. No other cell changes and the row stays. |
| Console.PutCharDraws | kardos-kernel/src/console.rs:41-47 | That character's glyph is painted in the foreground colour at `(col*10, row*18)`. |
| Console.PutString | kardos-kernel/src/console.rs:36-52 | `put_string` keeps the console invariant and its setup. |
| Console.PutStringFillsLine | kardos-kernel/src/console.rs:37-51 | A newline-free string keeps the row and stores its first `min(n, 49 - col)` characters from the cursor. The column becomes `min(col + n, 49)` and no other cell or row changes. |
| Console.PutStringDrawsLine | kardos-kernel/src/console.rs:37-51 | A newline-free string is drawn like `print_string` of the part of it that fits, from the cursor cell. |
| Console.PutStringMovesDown | kardos-kernel/src/console.rs:36-70 | While the newlines do not pass the last row, the cursor ends one row lower per newline. |
| Console.NewlinesScrollOnce | kardos-kernel/src/console.rs:67-88 | From row `r`, `30 - r` newlines walk the cursor to the last row and then scroll once. The top row then holds what the second row held, every row `j < 29` holds the old row `j + 1`, and the bottom row is spaces. |
| FontCompiler.EncodeStep | kardos-kernel/build.rs:47 | One `(acc << 1) \| bit` in `u16` maps the value of a window of at most 16 characters to the value of the window extended by one character and cut back to 16. |
| FontCompiler.EncodeFold | kardos-kernel/build.rs:41-48 | Encoding a valid row, starting from a window's value, gives the value of the last 16 characters of the window followed by the row. |
| FontCompiler.EncodeRejects | kardos-kernel/build.rs:42-46 | A row with a character other than `.` and `@` fails, naming the first such character. |
| FontCompiler.EncodeRowSpec | kardos-kernel/build.rs:40-48 | A valid row encodes to the binary value of its last 16 characters, most significant first. An invalid row fails at its first bad character. |
| FontCompiler.EncodeRowRoundTrip | kardos-kernel/build.rs:40-48 | A valid row of at most 16 characters encodes to its binary value, and writing that value back at the row's width gives the row. |
| FontCompiler.EncodeRowOfNumeral | kardos-kernel/build.rs:40-48 | Every `n`-bit value, with `n <= 16`, is the encoding of its own `n`-character numeral. |
| FontCompiler.EncodeRowInjective | kardos-kernel/build.rs:40-47 | Valid rows of the same width up to 16 with equal encodings are equal. |
| FontCompiler.EncodeRowRuns | kardos-kernel/build.rs:42-47 | An all-`.` row encodes to 0 at any width. An all-`@` row of `n` characters encodes to `2^n - 1` up to 16 characters, and to `0xFFFF` from 16 on. |
| FontCompiler.CompiledRowColumns | kardos-kernel/build.rs:41-47 | For a 9-character row, 9×18 pixel column `dx` is lit if and only if `dx >= 1` and character `dx - 1` is `@`. |
| FontCompiler.FormatRowRoundTrip | kardos-kernel/build.rs:49 | Every `0b{:08b},` line reads back as the value it was written from. |
| FontCompiler.FormatRowWidth | kardos-kernel/build.rs:49 | The digits are padded to at least eight. A longer numeral starts with `1`, and a value below 256 gives an 11-character line. |
| FontCompiler.CompileBoundaryLine | kardos-kernel/build.rs:32-38 | A `STARTCHAR` line writes `[` and enters a glyph block. An `ENDCHAR` line writes `],` and leaves it. |
| FontCompiler.CompileRowLine | kardos-kernel/build.rs:39-50 | Inside a block, a valid row line writes its formatted value. |
| FontCompiler.SkipLines | kardos-kernel/build.rs:29-51 | Lines that are neither block boundaries nor, inside a block, bitmap rows are passed over without output. |
| FontCompiler.RowsCompile | kardos-kernel/build.rs:39-50 | Inside a block, a run of valid rows writes their formatted values in order. |
| FontCompiler.CompileBlock | kardos-kernel/build.rs:29-51 | A well-formed glyph block writes `[`, one line per bitmap row and `],`, and leaves the loop outside a block. |
| FontCompiler.CompileBlocks | kardos-kernel/build.rs:29-51 | A sequence of blocks writes the concatenation of their outputs. |
| FontCompiler.CompileFont | kardos-kernel/build.rs:23-52 | A well-formed font source compiles to the declaration line, each block's rows between `[` and `],`, and `];`. |
| FontCompiler.GlyphGroups | kardos-kernel/build.rs:32-37 | The generated table has as many `[` groups as the source has `STARTCHAR` lines. |
| FontCompiler.CompileLinesFails | kardos-kernel/build.rs:42-46 | A failed build names the first bad character of some bitmap row of the source. |
| FontCompiler.CompileLinesSucceeds | kardos-kernel/build.rs:39-48 | A source whose bitmap rows are all `.` and `@` always compiles. |
| ElfLoader.Loadable | kardos-loader/src/main.rs:232-235 | The headers the loops act on are exactly the `PT_LOAD` ones. |
| ElfLoader.SpanIgnoresOthers | kardos-loader/src/main.rs:232-235 | The span loop gives the same result with the non-`PT_LOAD` headers removed. |
| ElfLoader.LoadIgnoresOthers | kardos-loader/src/main.rs:260-263 | The copy loop gives the same result with the non-`PT_LOAD` headers removed. |
| ElfLoader.SpanFromBounds | kardos-loader/src/main.rs:230-238 | The span loop fails if and only if some loadable `p_vaddr + p_memsz` overflows. Otherwise both bounds contain every loadable segment, and each bound is the initial one or some segment's. |
| ElfLoader.SpanIsLeast | kardos-bootloader/src/main.rs:163-171 | `dest_start` is the least loadable `p_vaddr` and `dest_end` the greatest `p_vaddr + p_memsz`, so every loadable segment lies in `[dest_start, dest_end)`. |
| ElfLoader.NoLoadableSegmentUnderflows | kardos-loader/src/main.rs:230-246 | With no `PT_LOAD` header the span stays `[usize::MAX, 0)`. The page count underflows and loading fails. |
| ElfLoader.PageCount | kardos-loader/src/main.rs:245 | `pages*0x1000 >= end - start` and `(pages-1)*0x1000 < end - start`. The count fails if and only if `end < start` or `end - start + 0x1000` overflows. |
| ElfLoader.PageCountExample | kardos-bootloader/src/main.rs:178 | Segments `(0x1000, filesz 4, memsz 8)` and `(0x2000, 2, 2)` give the span `[0x1000, 0x2002)` and 2 pages. |
| ElfLoader.CopySegmentAt | kardos-loader/src/main.rs:264-271 | A segment fails if and only if `p_filesz > p_memsz`, `p_offset + p_filesz` overflows, or it passes the image end. Otherwise the segment's bytes become the file bytes up to `p_filesz` and zeros up to `p_memsz`, and nothing else changes. |
| ElfLoader.LoadExample | kardos-loader/src/main.rs:260-272 | The two example segments load exactly when the image has at least 10 bytes. Then `[0x1000, 0x1004)` holds file bytes 0 to 3, `[0x1004, 0x1008)` is zero, and `[0x2000, 0x2002)` holds file bytes 8 and 9. Every other address is unchanged. |
| ElfLoader.LoadKeeps | kardos-bootloader/src/main.rs:182-192 | An address that no loadable segment covers keeps its contents through the copy loop. |
| ElfLoader.LoadPlaces | kardos-bootloader/src/main.rs:186-191 | After the copy loop an address holds the image of the last loadable segment that covers it. |
| ElfLoader.LoadKernelSucceeds | kardos-loader/src/main.rs:220-289 | A successful load has an image long enough for the header dump and a span and page count that do not fail. The firmware granted exactly those pages at `dest_start`. The memory is the copy loop's, and the entry is `elf.entry` unchanged. |
| ElfLoader.AllocationFailureAborts | kardos-loader/src/main.rs:250-257 | A refused allocation aborts the load with that request before any segment is copied. |
| ElfLoader.ShortImageFails | kardos-bootloader/src/main.rs:158 | An image shorter than the header dump (20 bytes here, 16 in kardos-loader) fails before anything else. |
| ElfLoader.LoadKernelStaysInSpan | kardos-bootloader/src/main.rs:173-192 | A successful load writes nothing outside `[dest_start, dest_end)`. |
| Handoff.MapPixelFormatRoundTrip | kardos-loader/src/main.rs:94-98 | The mapping accepts exactly `Rgb` and `Bgr` and maps each to the writer of the same layout. Every other format fails, naming that format. |
| Handoff.AsU32 | kardos-bootloader/src/main.rs:205-208 | `as u32` keeps a value below 2^32 and otherwise gives a smaller one. |
| Handoff.MakeFrameBufferDescribes | kardos-bootloader/src/main.rs:203-215 | The record carries the mode's base and pixel layout. Stride and resolution are kept modulo 2^32, so exactly whenever they fit. |
| Handoff.MakeFrameBufferValid | kardos-bootloader/src/main.rs:203-209 | The record built from a mode satisfies the kernel's frame-buffer requirement if the mode is usable. Usable means the stride and resolution fit in `u32`, the width is at most the stride, and the far corner's byte offset fits in `u32`. For a mode whose values fit in `u32`, the record satisfies it only then. |
| Handoff.BootHandsOver | kardos-loader/src/main.rs:56-99 | The boot succeeds if and only if the load succeeds and the format is RGB or BGR. The kernel then gets `elf.entry`, the loaded memory and a frame buffer of the mode's layout. An unsupported format fails after the load. |

## Left out

- UEFI services are not modelled. That covers the file system, the memory-map query and
  its CSV dump, `locate_protocol`, GOP mode listing, `set_mode` with mode 18, `stall`,
  `exit_boot_services` and runtime `reset`. They are firmware I/O. `allocate_pages` is the
  parameter `allocate`, which answers whether the pages at the requested address were
  granted.
- The ELF parse (`Elf::parse` of the goblin crate) is foreign code. The program headers
  and the entry address are inputs, and a parse failure is not modelled.
- The `transmute` of the entry address into a function and the call through it are left
  out. They are an unsafe ABI boundary; the model ends with the entry address and the
  frame-buffer record handed over.
- The `hlt` loops and the panic handler are left out because they are hardware-specific.
  A panic is modelled as an `Err` result, or as a precondition where the caller must rule
  it out.
- Reading and writing files in the build script, and the Cargo directive, are left out.
  The compiler's input is the sequence of lines read and its output the sequence of lines
  written. The contents of the generated font table are not modelled, and the compiler
  does not check that the source holds 221 glyphs.
- `src/main.rs` at the repository root has no logic and is not part of this model.
- `graphics::paint_rectangle` is called by the console but its source is not part of
  this model. `Graphics.PaintRectangle` gives it its evident meaning: the rectangle filled
  with one colour through the frame buffer's writer.
- The kernel's `main.rs` passes rows of the `[[u16; 18]; 221]` table to a `&[u8; 14]`
  parameter, which does not type-check against the table the build script generates. Its
  rasteriser is modelled as an older variant over its own table of 14 `u8` rows per
  glyph (`KernelMain.LegacyFont`).
- The screen state after the whole of `kernel_main` is stated as a paint of the banner
  over the example (`KernelMain.KernelMain`). Reading back single pixels of it is stated
  only through the general `KernelMain.PlacedPixelPainted`.
- Graphics.RenderExample: the kernel's drawing assumes the frame buffer satisfies `Framebuffer.ValidFrameBuffer`: the width is at most the stride and the far corner's offset fits in `u32`. The source checks neither. The model assumes that a mode whose stride is below its width does not occur; UEFI reports `PixelsPerScanLine >= HorizontalResolution`. The same requirement applies to the other gradient members and to `KernelMain.KernelMain`. `Handoff.MakeFrameBufferValid` states which modes give such a record.
- Framebuffer.PutPixel: the `u32` arithmetic `4 * (stride * y + x)` is assumed not to
  overflow (`OffsetFits`). It is a precondition, not a modelled wrap-around.
- Graphics.PrintFont: a character outside codes 1 to 221 makes `c as usize - 1` underflow
  or the table index run past the end. The model requires the caller to pass a character
  in range, and the console carries that obligation for exactly the characters it draws
  (`Console.Drawable`).
- Glyph.RenderFontPixel: the per-pixel statement needs the glyph box to end within the
  stride. Otherwise glyph columns wrap onto the next line and two glyph positions share a
  pixel. The set-level statement `Glyph.RenderFontPaintsGlyph` has no such condition.
- Rectangles.RectReadBack: needs `x1 <= stride` for the same reason.
  `Rectangles.FillRectCovers` holds for any stride.
- KernelMain.RenderExampleKeepsGradient: holds only for a stride of at least 250. Below
  that, the unclipped red rectangle wraps onto other lines, which
  `KernelMain.RenderExampleRed` describes.
- Console.PutStringFillsLine and Console.PutStringDrawsLine: stated for newline-free
  strings. A string with newlines is covered one character at a time by `Console.PutChar`,
  `Console.NewLineAdvances` and `Console.NewLineScrolls`.
- FontCompiler.EncodeRowInjective: holds only for rows of equal width. `@` and `.@` both
  encode to 1.
- Overflow checks are assumed on, as in a debug build. An overflowing `usize` addition or
  subtraction in the loader is an `Err`. A release build would wrap instead, and that is
  not modelled.
- Both loaders log the header bytes with `info!`, which slices the image. The slice is
  modelled as evaluated, so a short image fails; that assumes the logger evaluates its
  arguments.
