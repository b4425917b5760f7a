# font8x8 glyph extractor — Dafny model

This project models the logic of `src/main.c` of the font8x8 tool. The tool reads a legend text file and a
font image, pairs each non-empty 8x8 cell of the image with the next
non-whitespace character of the legend, and prints the resulting glyph
table. The model covers three parts:

- **Types** (`types.dfy`): the byte and 32-bit types `u8` and `u32`, as bit-vectors, shared by the other modules.
- **Memory** (`memory.dfy`): the bump arena every allocation goes through.
  - `Arena` is a class with `begin` as a mutable field, constant `base`/`end` and the arena's bytes as an array.
  - Addresses are integers.
  - `abort()` on exhaustion is the `Aborted` outcome.
- **Utf8** (`utf8.dfy`): the leader-size table, the unchecked one-character decoder `utf8_chop_char`, the whole-view validator `utf8_validate` and `char_is_space`.
  - Bytes are `bv8` and code points `bv32`, so the decoder keeps the C masks and shifts.
  - A `StringView` is a value: a buffer, an offset and a size.
  - The `data` pointer becomes an offset, so a chop returns the advanced view.
- **Utf8Properties** (`utf8_properties.dfy`): what the decoder and validator guarantee, stated against the encoding of section 3 of RFC 3629.
  - Decoding inverts encoding.
  - The validator accepts every canonical encoding and rejects the forms it checks for.
  - An accepted view splits into characters that cover it exactly.
- **Glyphs** (`glyphs.dfy`): the body of `main` from the validation of the legend to the end of the grid scan, lifted into `Extract`.
  - `Extract` takes the legend view and the decoded image and returns the glyph list or the error `main` would log.
  - Its loops are split into methods that match the nested loops of the source:
    - `CountNonSpace` — the counting loop;
    - `ScanGrid` — the grid rows;
    - `ScanRow` and `StepRow` — the cells of one row;
    - `TakeCell` — the body for one cell;
    - `CellIsEmpty` — the emptiness test;
    - `NextLegendChar` — the whitespace-skipping `do … while`;
    - `ExpandBitmap` — the bitmap loops.
  - `Extract` is proved equal to the specification function `Extraction`.
  - `Extraction` pairs the i-th non-space legend character with the i-th non-empty cell in row-major order.

The central loop invariant is `Remaining(iter, chars, glyphIter)`. It says that the legend characters still in the
cursor are exactly `chars[glyphIter..]`. So the number of non-whitespace
characters left equals the number of free glyph slots. This is what makes every chop of the `do … while` loop safe.

### Where the validator is weaker than RFC 3629

Section 4 of RFC 3629 requires every trailing byte to lie in 0x80..0xBF. `utf8_validate` never checks this (src/main.c:179-206). The model follows the code:

- `Accepted` is what `utf8_validate` accepts;
- `Utf8Properties.TrailingBytesUnchecked` shows that `C2 41` is accepted and decodes to 0x81.

The model therefore claims no equivalence with the RFC 3629 byte-sequence syntax. It proves the two directions the code does support:

- canonical encodings are accepted (`AcceptsEncodings`);
- every case the code checks is rejected (`ValidatorRejects`, `RejectsNonCanonical`).

## Model

| member | source | states |
|---|---|---|
| Memory.Padding | src/main.c:72 | The padding is below the alignment and makes `begin + padding` aligned. No smaller padding does, so it is the distance to the first aligned address at or after `begin`. |
| Memory.Arena.constructor | src/main.c:302 | A fresh arena over `capacity` bytes at `address`: `begin == base == address`, `end == address + capacity`, and `Valid()` holds. |
| Memory.Arena.AllocAligned | src/main.c:65-82 | Size 0 gives NULL and leaves `begin` alone. Otherwise the block starts at `begin + padding`, is aligned and `begin` advances by exactly `padding + size`, never past `end`. When `padding + size` exceeds `end - begin` the arena aborts with `begin` unchanged. |
| Memory.Arena.Alloc | src/main.c:84-86 | `AllocAligned` with the default alignment 16, which is a power of two. |
| Memory.Arena.Realloc | src/main.c:88-101 | Shrinking returns the old pointer and changes nothing. Growing the last block rewinds `begin` to it and allocates again without copying: the result is the old pointer exactly when that pointer is 16-aligned, and then the bytes are kept. Growing any other block allocates a fresh block whose first `oldSize` bytes equal the old block, and no other byte changes. |
| Memory.ReallocUnalignedTailMoves | src/main.c:93-95 | A 1-byte block at the unaligned address 19 holding 0xAB, grown in place, comes back at 32. Its byte is not copied: address 19 still holds 0xAB and address 32 keeps the 0x00 it held before. |
| Utf8.CharSize | src/main.c:108-135 | The table gives 1 for 0x00-0x7F, 0 for 0x80-0xC1, 2 for 0xC2-0xDF, 3 for 0xE0-0xEF, 4 for 0xF0-0xF4 and 0 for 0xF5-0xFF. |
| Utf8.DecodeChar | src/main.c:139-171 | The decoded value has the range of its width: below 0x80, in [0x80, 0x800), at most 0xFFFF, and below 0x140000. So the `char_code > 0xffff` test on 3-byte characters can never fire. |
| Utf8.ChopChar | src/main.c:138-177 | Given a valid leader and enough bytes, the result is the first `CharSize` bytes and the code is their decoding. The cursor advances and shrinks by exactly that size, and the two views split the input. |
| Utf8.Validate | src/main.c:179-206 | The loop returns true exactly when the view is `Accepted`: every leader valid, no character cut short, 3-byte values in [0x800, 0xFFFF] outside the surrogates, 4-byte values in [0x10000, 0x10FFFF]. |
| Utf8.CharIsSpace | src/main.c:208-215 | True exactly for 0x20, 0x09, 0x0A, 0x0C and 0x0D; each of these is a one-byte ASCII character. |
| Utf8Properties.MinWidth | src/main.c:108-116 | The width of the canonical encoding is the smallest layout that holds the value. |
| Utf8Properties.Encode | src/main.c:108-135 | The canonical encoding of a scalar value is 1 to 4 bytes, and its leader announces its length in the table. |
| Utf8Properties.LeaderSizeOfLayout | src/main.c:117-135 | The leader of an n-byte layout maps to n or to 0, and to n exactly when it is neither 0xC0/0xC1 nor above 0xF4. |
| Utf8Properties.DecodeLayout | src/main.c:141-166 | The decoder's masks and shifts undo every layout that the table lets through. |
| Utf8Properties.DecodeEncode | src/main.c:138-177 | Chopping the canonical encoding of any scalar value in [0, 0xD7FF] or [0xE000, 0x10FFFF] yields that value. |
| Utf8Properties.AcceptedLayout | src/main.c:181-202 | A single layout of a value is accepted exactly when it is the canonical encoding of a scalar value. |
| Utf8Properties.AcceptedAppend | src/main.c:180-203 | After an accepted prefix the verdict depends only on what follows. |
| Utf8Properties.AcceptsEncodings | src/main.c:179-206 | The concatenated canonical encoding of any sequence of scalar values is accepted. |
| Utf8Properties.ValidatorRejects | src/main.c:181-202 | Wherever it occurs after an accepted prefix, the view is rejected on any of: a zero-size leader, a truncated character, a 3-byte value below 0x800 or in [0xD800, 0xDFFF], or a 4-byte value outside [0x10000, 0x10FFFF]. |
| Utf8Properties.RejectsNonCanonical | src/main.c:179-206 | Every overlong, surrogate or out-of-range layout is rejected wherever it stands. |
| Utf8Properties.TrailingBytesUnchecked | src/main.c:147-151 | `C2 41` is accepted and decodes to 0x81, whose canonical encoding is `C2 81`. The validator does not check trailing bytes. |
| Utf8Properties.Chars | src/main.c:180-187 | Repeated chopping of an accepted view is well defined: every piece is one character and carries its decoded code. |
| Utf8Properties.ChopsConsumeView | src/main.c:316-323 | On an accepted view, chopping until the size is 0 consumes the view exactly: the pieces concatenate back to it with no overrun. |
| Utf8Properties.CharsOfEncodings | src/main.c:138-206 | Chopping the concatenated encoding of a sequence of scalar values gives back those values, each with its own canonical bytes. |
| Utf8Properties.ChopTakesFirstChar | src/main.c:173-176 | One chop removes exactly the first character of the view's decomposition and leaves an accepted rest. |
| Glyphs.NonSpaceContents | src/main.c:208-215 | The legend keeps a character exactly when its code is not 0x20, 0x09, 0x0A, 0x0C or 0x0D. |
| Glyphs.LegendAfterChop | src/main.c:317-323 | Chopping one character removes it from the legend, unless it is whitespace. |
| Glyphs.CountNonSpace | src/main.c:314-324 | The count is the number of non-whitespace characters of the validated legend. |
| Glyphs.NextLegendChar | src/main.c:381-385 | When a legend character is left, the loop skips whitespace and returns exactly the next legend character, its bytes and the cursor after it. |
| Glyphs.PixelInBounds | src/main.c:361-365 | The first channel of any pixel inside the image lies within the pixel buffer. |
| Glyphs.PixelIndexSteps | src/main.c:365-371 | Moving right by dx pixels moves the index by dx·bpp. Moving down one line moves it by width·bpp. |
| Glyphs.CellIsEmpty | src/main.c:359-373 | A cell is reported empty exactly when no pixel of its 8x8 block has first channel 0x00. |
| Glyphs.CellBitmapAt | src/main.c:400-406 | Entry y·8+x is 0xFF000000 when pixel (x, y) of the cell has first channel 0x00, and 0 otherwise. |
| Glyphs.BitmapOfInkedCell | src/main.c:393-410 | Every entry is INK or BLANK, and the bitmap holds an INK entry exactly when the cell is non-empty. |
| Glyphs.ExpandBitmap | src/main.c:393-410 | The loops fill the 64 entries with the cell's bitmap. |
| Glyphs.RowScanContents | src/main.c:356-375 | The cells met in a grid row left of gridX are exactly its non-empty grid cells there, left to right. |
| Glyphs.ScanContents | src/main.c:355-375 | The cells met above gridY are exactly the non-empty grid cells there, in row-major order. |
| Glyphs.NonEmptyCellsInRowMajorOrder | src/main.c:355-375 | The scan lists exactly the non-empty cells of the grid, each once, in row-major order. |
| Glyphs.ScanPrefix | src/main.c:355-376 | What the loops have met at any cell is a prefix of the whole scan. So a full glyph array at a non-empty cell means there are more cells than characters. |
| Glyphs.PairedAppend | src/main.c:387-412 | Writing the next glyph from the next character and cell extends the pairing by one. |
| Glyphs.TakeCell | src/main.c:359-413 | Updates glyph_iter, font_char_iter and the glyph array. It signals a full array exactly when a non-empty cell would exceed the legend. Otherwise the remaining-characters invariant and the pairing are kept, with the cell added when it has ink. |
| Glyphs.StepRow | src/main.c:356-414 | One pass of the inner loop keeps the pairing with the cells met so far. A full array at a non-empty cell implies more non-empty cells than legend characters. |
| Glyphs.ScanRow | src/main.c:356-414 | After a row the glyphs pair the legend with all non-empty cells up to that row, or overflow is reported with more cells than characters. |
| Glyphs.ScanGrid | src/main.c:355-415 | After the scan the glyphs pair the legend with every non-empty cell, or overflow is reported with more cells than characters. |
| Glyphs.Extract | src/main.c:309-420 | The result is `Extraction`. In order: invalid UTF-8; dimensions not multiples of 8; more non-empty cells than characters; more characters than cells. Otherwise glyph i is built from legend character i and non-empty cell i. |
| Glyphs.PairedAll | src/main.c:417-420 | A pairing with all cells, when cells and characters are equally many, is the extracted glyph list. |
| Glyphs.LegendEntries | src/main.c:314-324 | Each legend entry is one decoded character that is not whitespace. |
| Glyphs.MakeGlyphWellFormed | src/main.c:387-410 | A glyph built from a decoded character and a non-empty cell carries that code. Its char_data is the character's bytes plus one NUL, and those bytes decode back to the code. Its bitmap has 64 entries with at least one INK. |
| Glyphs.ExtractedGlyphs | src/main.c:344-420 | On success the text is valid and the grid divides the image. There are as many glyphs as legend characters and as non-empty cells. Glyph i has the i-th legend code and the bitmap of the i-th non-empty cell, and it is well formed. |
| Glyphs.TwoCellFontCells | src/main.c:355-375 | In a 16x8 image whose left cell has no ink and whose right cell has one ink pixel, the only non-empty cell is the right one. |
| Glyphs.TwoCellPairing | src/main.c:375-413 | With that image and the legend "A", extraction yields one glyph for 0x41 with char_data "A\0" and the right cell's bitmap. |
| Glyphs.TwoCellMismatches | src/main.c:376-420 | With that image, the legend "AB" fails with more chars than glyphs and the empty legend fails with more glyphs than chars. |

## Left out

- File loading (`file_read_to_string`, src/main.c:227-264) is I/O and is not modelled. Its one piece of logic is a call to `arena_realloc`, which is modelled. The legend bytes are a parameter of `Extract`.
- The image decoder `stbi_load` (`lib/stb_image.h`) is foreign code that is not part of this model. The image is a parameter: width, height, bytes per color ≥ 1, and `width·height·bpp` bytes of data.
- `glyphs_print` (src/main.c:275-292) is `printf` formatting and is not modelled.
- `LOG_ERROR`, `abort`, `assert`, `UNREACHABLE` and the `malloc` of the 64 MiB arena are modelled as follows:
  - logging and process exit become the error values of `Extract`;
  - `abort` becomes the `Aborted` allocation outcome;
  - `assert` and `UNREACHABLE` become preconditions.
- Glyphs.Extract: the glyph array, each `char_data` and each bitmap are built as Dafny values rather than allocated from the arena. Running out of arena memory in the middle of extraction is therefore not modelled. Memory.Arena models the allocator itself.
- Memory.Padding: the padding is modelled by its value, `(-begin) mod alignment`. The 64-bit two's-complement expression `(~begin + 1) & (alignment - 1)` that computes it is not modelled.
- The `isize` and `u32` widths of sizes, counts and pixel indices are not modelled; they are unbounded integers. Addresses are naturals with 0 as NULL.
- Utf8.ChopChar: the C function's undefined behaviour on invalid input is excluded by its precondition (a valid leader and enough bytes), which every caller in the source meets.
- Pointer identity and aliasing of string views are replaced by offsets into one immutable buffer.
