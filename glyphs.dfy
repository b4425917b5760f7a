/** Glyph extraction, the body of `main`: the font image is cut into 8x8
    cells scanned row by row, each cell with an ink pixel (first channel 0)
    is paired with the next non-whitespace character of the legend text,
    and every pair becomes a glyph record with a 64-entry bitmap. The
    numbers of non-empty cells and non-whitespace characters must match. */
module Glyphs {
  import opened Types
  import opened Utf8
  import opened Utf8Properties

  const GLYPH_WIDTH: nat := 8
  const GLYPH_HEIGHT: nat := 8

  /** Bitmap entry of an ink pixel (opaque black). */
  const INK: u32 := 0xFF000000
  /** Bitmap entry of a background pixel (transparent). */
  const BLANK: u32 := 0x00000000

  /** The decoded font image: `bytesPerColor` bytes per pixel, pixels row
      by row. The image decoder itself is not part of this model. */
  datatype Font = Font(width: nat, height: nat, bytesPerColor: nat, data: seq<u8>) {
    predicate Valid() {
      bytesPerColor >= 1 && |data| == width * height * bytesPerColor
    }
  }

  /** Offset of the first channel of pixel (x, y) in the image data. */
  function PixelIndex(font: Font, x: nat, y: nat): nat {
    (y * font.width + x) * font.bytesPerColor
  }

  lemma MulMonotone(a: nat, b: nat, c: nat)
    requires a <= b
    ensures a * c <= b * c
  {
    assert b * c == a * c + (b - a) * c;
  }

  lemma PixelInBounds(font: Font, x: nat, y: nat)
    requires font.Valid() && x < font.width && y < font.height
    ensures PixelIndex(font, x, y) + font.bytesPerColor <= |font.data|
  {
    var w, h, b := font.width, font.height, font.bytesPerColor;
    assert y * w + x + 1 <= w * h by {
      MulMonotone(y + 1, h, w);
      assert (y + 1) * w == y * w + w;
    }
    MulMonotone(y * w + x + 1, w * h, b);
    assert (y * w + x + 1) * b == (y * w + x) * b + b;
  }

  /** Moving right by `dx` pixels moves `dx` pixels' worth of bytes; moving
      down a line moves a whole image row. */
  lemma PixelIndexSteps(font: Font, x: nat, y: nat, dx: nat)
    ensures PixelIndex(font, x + dx, y) == PixelIndex(font, x, y) + dx * font.bytesPerColor
    ensures PixelIndex(font, x, y + 1) == PixelIndex(font, x, y) + font.width * font.bytesPerColor
  {
    var w, b := font.width, font.bytesPerColor;
    assert (y * w + x + dx) * b == (y * w + x) * b + dx * b;
    assert ((y + 1) * w + x) * b == (y * w + x) * b + w * b by {
      assert (y + 1) * w == y * w + w;
    }
  }

  /** First channel of pixel (x, y). */
  function Color(font: Font, x: nat, y: nat): u8
    requires font.Valid() && x < font.width && y < font.height
  {
    PixelInBounds(font, x, y);
    font.data[PixelIndex(font, x, y)]
  }

  /** A cell: the top-left pixel of an 8x8 block of the image. */
  datatype Cell = Cell(x: nat, y: nat)

  predicate Inside(font: Font, cell: Cell) {
    cell.x + GLYPH_WIDTH <= font.width && cell.y + GLYPH_HEIGHT <= font.height
  }

  /** First channel of pixel (x, y) of `cell`. */
  function CellColor(font: Font, cell: Cell, x: nat, y: nat): u8
    requires font.Valid() && Inside(font, cell) && x < GLYPH_WIDTH && y < GLYPH_HEIGHT
  {
    Color(font, cell.x + x, cell.y + y)
  }

  /** The color key: a first channel of 0 is ink. */
  ghost predicate HasInk(font: Font, cell: Cell)
    requires font.Valid() && Inside(font, cell)
  {
    exists x, y | 0 <= x < GLYPH_WIDTH && 0 <= y < GLYPH_HEIGHT :: CellColor(font, cell, x, y) == 0x00
  }

  /** The 8x8 bitmap of a cell, row by row: INK where the first channel is
      0, BLANK elsewhere. */
  function CellBitmap(font: Font, cell: Cell): (bitmap: seq<u32>)
    requires font.Valid() && Inside(font, cell)
    ensures |bitmap| == GLYPH_WIDTH * GLYPH_HEIGHT
  {
    seq(GLYPH_WIDTH * GLYPH_HEIGHT, i requires 0 <= i < GLYPH_WIDTH * GLYPH_HEIGHT =>
      if CellColor(font, cell, i % GLYPH_WIDTH, i / GLYPH_WIDTH) == 0x00 then INK else BLANK)
  }

  /** Entry `y * 8 + x` of the bitmap describes pixel (x, y) of the cell. */
  lemma CellBitmapAt(font: Font, cell: Cell, x: nat, y: nat)
    requires font.Valid() && Inside(font, cell) && x < GLYPH_WIDTH && y < GLYPH_HEIGHT
    ensures CellBitmap(font, cell)[y * GLYPH_WIDTH + x] ==
      if CellColor(font, cell, x, y) == 0x00 then INK else BLANK
  {
    var i := y * GLYPH_WIDTH + x;
    assert i % GLYPH_WIDTH == x && i / GLYPH_WIDTH == y;
  }

  /** Every entry of a bitmap is INK or BLANK, and a cell with ink has an
      INK entry. */
  lemma BitmapOfInkedCell(font: Font, cell: Cell)
    requires font.Valid() && Inside(font, cell)
    ensures forall j :: 0 <= j < |CellBitmap(font, cell)| ==>
      CellBitmap(font, cell)[j] == INK || CellBitmap(font, cell)[j] == BLANK
    ensures HasInk(font, cell) <==> INK in CellBitmap(font, cell)
  {
    var bitmap := CellBitmap(font, cell);
    if HasInk(font, cell) {
      var x, y :| 0 <= x < GLYPH_WIDTH && 0 <= y < GLYPH_HEIGHT && CellColor(font, cell, x, y) == 0x00;
      CellBitmapAt(font, cell, x, y);
      assert bitmap[y * GLYPH_WIDTH + x] == INK;
    }
    if INK in bitmap {
      var j :| 0 <= j < |bitmap| && bitmap[j] == INK;
      CellBitmapAt(font, cell, j % GLYPH_WIDTH, j / GLYPH_WIDTH);
      assert j == (j / GLYPH_WIDTH) * GLYPH_WIDTH + j % GLYPH_WIDTH;
    }
  }

  // ---------------------------------------------------------------------
  // The scan order of the grid
  // ---------------------------------------------------------------------

  /** The grid divides the image exactly. */
  predicate GridAligned(font: Font) {
    font.width % GLYPH_WIDTH == 0 && font.height % GLYPH_HEIGHT == 0
  }

  /** Non-empty cells of the grid row starting at pixel row `gridY` that lie
      left of pixel column `gridX`, left to right. */
  ghost function RowScan(font: Font, gridY: nat, gridX: nat): (cells: seq<Cell>)
    requires font.Valid() && gridY + GLYPH_HEIGHT <= font.height
    requires gridX <= font.width && gridX % GLYPH_WIDTH == 0
    ensures forall i :: 0 <= i < |cells| ==> Inside(font, cells[i])
    decreases gridX
  {
    if gridX == 0 then []
    else
      var cell := Cell(gridX - GLYPH_WIDTH, gridY);
      RowScan(font, gridY, gridX - GLYPH_WIDTH) + if HasInk(font, cell) then [cell] else []
  }

  /** Non-empty cells of the grid rows above pixel row `gridY`, in row-major
      order. */
  ghost function Scan(font: Font, gridY: nat): (cells: seq<Cell>)
    requires font.Valid() && GridAligned(font)
    requires gridY <= font.height && gridY % GLYPH_HEIGHT == 0
    ensures forall i :: 0 <= i < |cells| ==> Inside(font, cells[i])
    decreases gridY
  {
    if gridY == 0 then []
    else Scan(font, gridY - GLYPH_HEIGHT) + RowScan(font, gridY - GLYPH_HEIGHT, font.width)
  }

  /** All non-empty cells, in the order the nested loops of `main` meet them. */
  ghost function NonEmptyCells(font: Font): (cells: seq<Cell>)
    requires font.Valid() && GridAligned(font)
    ensures forall i :: 0 <= i < |cells| ==> Inside(font, cells[i])
  {
    Scan(font, font.height)
  }

  /** Cell `a` comes before cell `b` in row-major order. */
  predicate RowMajorBefore(a: Cell, b: Cell) {
    a.y < b.y || (a.y == b.y && a.x < b.x)
  }

  /** A cell of the grid: inside the image, on the 8x8 lattice. */
  predicate OnGrid(font: Font, cell: Cell) {
    Inside(font, cell) && cell.x % GLYPH_WIDTH == 0 && cell.y % GLYPH_HEIGHT == 0
  }

  lemma {:induction false} RowScanContents(font: Font, gridY: nat, gridX: nat)
    requires font.Valid() && gridY + GLYPH_HEIGHT <= font.height && gridY % GLYPH_HEIGHT == 0
    requires gridX <= font.width && gridX % GLYPH_WIDTH == 0
    ensures forall c :: c in RowScan(font, gridY, gridX) <==>
      OnGrid(font, c) && c.y == gridY && c.x < gridX && HasInk(font, c)
    ensures forall i, j :: 0 <= i < j < |RowScan(font, gridY, gridX)| ==>
      RowScan(font, gridY, gridX)[i].x < RowScan(font, gridY, gridX)[j].x
    decreases gridX
  {
    if gridX > 0 {
      RowScanContents(font, gridY, gridX - GLYPH_WIDTH);
    }
  }

  lemma {:induction false} ScanContents(font: Font, gridY: nat)
    requires font.Valid() && GridAligned(font)
    requires gridY <= font.height && gridY % GLYPH_HEIGHT == 0
    ensures forall c :: c in Scan(font, gridY) <==> OnGrid(font, c) && c.y < gridY && HasInk(font, c)
    ensures forall i, j :: 0 <= i < j < |Scan(font, gridY)| ==>
      RowMajorBefore(Scan(font, gridY)[i], Scan(font, gridY)[j])
    decreases gridY
  {
    if gridY > 0 {
      var above, row := Scan(font, gridY - GLYPH_HEIGHT), RowScan(font, gridY - GLYPH_HEIGHT, font.width);
      ScanContents(font, gridY - GLYPH_HEIGHT);
      RowScanContents(font, gridY - GLYPH_HEIGHT, font.width);
      var s := above + row;
      forall i, j | 0 <= i < j < |s|
        ensures RowMajorBefore(s[i], s[j])
      {
        if j < |above| {
        } else if i < |above| {
          assert s[i] in above && s[j] in row;
        } else {
          assert s[i] == row[i - |above|] && s[j] == row[j - |above|];
        }
      }
    }
  }

  /** The scan lists exactly the non-empty cells of the grid, each once, in
      row-major order (top to bottom, left to right within a row). */
  lemma NonEmptyCellsInRowMajorOrder(font: Font)
    requires font.Valid() && GridAligned(font)
    ensures forall c :: c in NonEmptyCells(font) <==> OnGrid(font, c) && HasInk(font, c)
    ensures forall i, j :: 0 <= i < j < |NonEmptyCells(font)| ==>
      RowMajorBefore(NonEmptyCells(font)[i], NonEmptyCells(font)[j])
  {
    ScanContents(font, font.height);
  }

  /** What the loops have seen when they stand at cell (gridX, gridY) is a
      prefix of the whole scan. */
  lemma {:induction false} ScanPrefix(font: Font, gridY: nat, gridX: nat)
    requires font.Valid() && GridAligned(font)
    requires gridY + GLYPH_HEIGHT <= font.height && gridY % GLYPH_HEIGHT == 0
    requires gridX <= font.width && gridX % GLYPH_WIDTH == 0
    ensures Scan(font, gridY) + RowScan(font, gridY, gridX) <= NonEmptyCells(font)
    ensures |Scan(font, gridY) + RowScan(font, gridY, gridX)| <= |NonEmptyCells(font)|
  {
    RowScanPrefix(font, gridY, gridX, font.width);
    ScanRowsPrefix(font, gridY + GLYPH_HEIGHT, font.height);
  }

  lemma {:induction false} RowScanPrefix(font: Font, gridY: nat, gridX: nat, gridX': nat)
    requires font.Valid() && gridY + GLYPH_HEIGHT <= font.height
    requires gridX <= gridX' <= font.width && gridX % GLYPH_WIDTH == 0 && gridX' % GLYPH_WIDTH == 0
    ensures RowScan(font, gridY, gridX) <= RowScan(font, gridY, gridX')
    decreases gridX' - gridX
  {
    if gridX < gridX' {
      RowScanPrefix(font, gridY, gridX, gridX' - GLYPH_WIDTH);
    }
  }

  lemma {:induction false} ScanRowsPrefix(font: Font, gridY: nat, gridY': nat)
    requires font.Valid() && GridAligned(font)
    requires gridY <= gridY' <= font.height && gridY % GLYPH_HEIGHT == 0 && gridY' % GLYPH_HEIGHT == 0
    ensures Scan(font, gridY) <= Scan(font, gridY')
    decreases gridY' - gridY
  {
    if gridY < gridY' {
      ScanRowsPrefix(font, gridY, gridY' - GLYPH_HEIGHT);
    }
  }

  // ---------------------------------------------------------------------
  // The legend
  // ---------------------------------------------------------------------

  /** The characters of `cs` that are not whitespace, in order. */
  function NonSpace(cs: seq<Char>): (r: seq<Char>)
    ensures |r| <= |cs|
  {
    if cs == [] then []
    else (if CharIsSpace(cs[0].code) then [] else [cs[0]]) + NonSpace(cs[1..])
  }

  /** `NonSpace` keeps exactly the non-whitespace characters. */
  lemma {:induction false} NonSpaceContents(cs: seq<Char>)
    ensures forall c :: c in NonSpace(cs) <==> c in cs && !CharIsSpace(c.code)
  {
    if cs != [] {
      NonSpaceContents(cs[1..]);
      assert cs == [cs[0]] + cs[1..];
    }
  }

  /** The legend entries of a validated text: its non-whitespace characters. */
  ghost function Legend(text: seq<u8>): seq<Char>
    requires Accepted(text)
  {
    NonSpace(Chars(text))
  }

  /** Chopping one character off the view takes it off the legend too,
      unless it is whitespace. */
  lemma LegendAfterChop(s: StringView)
    requires s.Valid() && s.size > 0 && Accepted(s.Bytes())
    ensures var n := CharSize(s.buf[s.offset]);
      1 <= n <= s.size &&
      var first := s.buf[s.offset..s.offset + n];
      var rest := StringView(s.buf, s.offset + n, s.size - n);
      Accepted(rest.Bytes()) &&
      Legend(s.Bytes()) ==
        (if CharIsSpace(DecodeChar(first)) then [] else [Char(DecodeChar(first), first)]) + Legend(rest.Bytes())
  {
    ChopTakesFirstChar(s);
    var n := CharSize(s.buf[s.offset]);
    var first := s.buf[s.offset..s.offset + n];
    var rest := StringView(s.buf, s.offset + n, s.size - n);
    var cs := [Char(DecodeChar(first), first)] + Chars(rest.Bytes());
    assert cs[1..] == Chars(rest.Bytes());
  }

  /** The lines of `main` before the image is loaded: the number of
      non-whitespace characters of the validated legend, which sizes the
      glyph array. */
  method CountNonSpace(text: StringView) returns (count: nat)
    requires text.Valid() && Accepted(text.Bytes())
    ensures count == |Legend(text.Bytes())|
  {
    count := 0;
    var iter := text;
    while iter.size > 0
      invariant iter.Valid() && iter.buf == text.buf && Accepted(iter.Bytes())
      invariant count + |Legend(iter.Bytes())| == |Legend(text.Bytes())|
      decreases iter.size
    {
      LegendAfterChop(iter);
      var _, code, next := ChopChar(iter);
      if !CharIsSpace(code) {
        count := count + 1;
      }
      iter := next;
    }
    assert iter.Bytes() == [];
  }

  /** The `do { chop } while (char_is_space(...))` of `main`: skips
      whitespace and returns the next legend character, its bytes and the
      cursor after it. It is only called when the legend has an entry left,
      which is what makes every chop safe. */
  method NextLegendChar(iter: StringView) returns (charView: StringView, code: u32, rest: StringView)
    requires iter.Valid() && Accepted(iter.Bytes()) && |Legend(iter.Bytes())| > 0
    ensures rest.Valid() && rest.buf == iter.buf && Accepted(rest.Bytes())
    ensures charView.Valid() && IsChar(charView.Bytes())
    ensures Legend(iter.Bytes()) == [Char(code, charView.Bytes())] + Legend(rest.Bytes())
  {
    ghost var legend := Legend(iter.Bytes());
    assert iter.size > 0;
    LegendAfterChop(iter);
    charView, code, rest := ChopChar(iter);
    while CharIsSpace(code)
      invariant rest.Valid() && rest.buf == iter.buf && Accepted(rest.Bytes())
      invariant charView.Valid() && IsChar(charView.Bytes()) && code == DecodeChar(charView.Bytes())
      invariant CharIsSpace(code) ==> Legend(rest.Bytes()) == legend
      invariant !CharIsSpace(code) ==> legend == [Char(code, charView.Bytes())] + Legend(rest.Bytes())
      decreases rest.size
    {
      assert rest.size > 0;
      LegendAfterChop(rest);
      charView, code, rest := ChopChar(rest);
    }
  }

  // ---------------------------------------------------------------------
  // Cells
  // ---------------------------------------------------------------------

  /** The emptiness test of `main`: scans the cell row by row and stops at
      the first ink pixel. */
  method CellIsEmpty(font: Font, cellX: nat, cellY: nat) returns (empty: bool)
    requires font.Valid() && Inside(font, Cell(cellX, cellY))
    ensures empty <==> !HasInk(font, Cell(cellX, cellY))
  {
    var cell := Cell(cellX, cellY);
    var bpp := font.bytesPerColor;
    empty := true;
    var lineStart := PixelIndex(font, cellX, cellY);
    var y := 0;
    while empty && y < GLYPH_HEIGHT
      invariant 0 <= y <= GLYPH_HEIGHT
      invariant lineStart == PixelIndex(font, cellX, cellY + y)
      invariant empty ==> forall px, py :: 0 <= px < GLYPH_WIDTH && 0 <= py < y ==>
        CellColor(font, cell, px, py) != 0x00
      invariant !empty ==> HasInk(font, cell)
    {
      var x := 0;
      while empty && x < GLYPH_WIDTH
        invariant 0 <= x <= GLYPH_WIDTH
        invariant empty ==> forall px :: 0 <= px < x ==> CellColor(font, cell, px, y) != 0x00
        invariant !empty ==> HasInk(font, cell)
      {
        PixelIndexSteps(font, cellX, cellY + y, x);
        PixelInBounds(font, cellX + x, cellY + y);
        var color := font.data[lineStart + x * bpp];
        assert color == CellColor(font, cell, x, y);
        if color == 0x00 {
          empty := false;
        }
        x := x + 1;
      }
      PixelIndexSteps(font, cellX, cellY + y, 0);
      lineStart := lineStart + font.width * bpp;
      y := y + 1;
    }
  }

  /** The bitmap loops of `main`: one entry per pixel of the cell, row by
      row, written into a fresh 64-entry buffer. */
  method ExpandBitmap(font: Font, cellX: nat, cellY: nat) returns (bitmap: seq<u32>)
    requires font.Valid() && Inside(font, Cell(cellX, cellY))
    ensures bitmap == CellBitmap(font, Cell(cellX, cellY))
  {
    var cell := Cell(cellX, cellY);
    var bpp := font.bytesPerColor;
    var pixels := new u32[GLYPH_WIDTH * GLYPH_HEIGHT];
    var lineStart := PixelIndex(font, cellX, cellY);
    for y := 0 to GLYPH_HEIGHT
      invariant lineStart == PixelIndex(font, cellX, cellY + y)
      invariant forall j :: 0 <= j < y * GLYPH_WIDTH ==> pixels[j] == CellBitmap(font, cell)[j]
    {
      for x := 0 to GLYPH_WIDTH
        invariant forall j :: 0 <= j < y * GLYPH_WIDTH + x ==> pixels[j] == CellBitmap(font, cell)[j]
      {
        PixelIndexSteps(font, cellX, cellY + y, x);
        PixelInBounds(font, cellX + x, cellY + y);
        var color := font.data[lineStart + x * bpp];
        assert color == CellColor(font, cell, x, y);
        CellBitmapAt(font, cell, x, y);
        if color == 0x00 {
          pixels[y * GLYPH_WIDTH + x] := INK;
        } else {
          pixels[y * GLYPH_WIDTH + x] := BLANK;
        }
      }
      PixelIndexSteps(font, cellX, cellY + y, 0);
      lineStart := lineStart + font.width * bpp;
    }
    bitmap := pixels[..];
  }

  // ---------------------------------------------------------------------
  // Extraction
  // ---------------------------------------------------------------------

  /** A glyph record: the code point, its UTF-8 bytes with a NUL after them
      (for display), and its 8x8 bitmap. */
  datatype Glyph = Glyph(charCode: u32, charData: seq<u8>, bitmap: seq<u32>)

  /** The ways `main` gives up, each logged and ending the run with status 1. */
  datatype ExtractError =
    | InvalidUtf8          // the legend is not valid UTF-8
    | BadDimensions        // the image width or height is not a multiple of the cell size
    | MoreGlyphsThanChars  // an inked cell is found after every legend character is taken
    | MoreCharsThanGlyphs  // legend characters are left once the scan is over

  datatype Result = Ok(glyphs: seq<Glyph>) | Err(error: ExtractError)

  /** The glyph record made of a legend character and a cell. */
  function MakeGlyph(ch: Char, font: Font, cell: Cell): Glyph
    requires font.Valid() && Inside(font, cell)
  {
    Glyph(ch.code, ch.bytes + [0x00], CellBitmap(font, cell))
  }

  /** The glyphs built so far: glyph i is made of legend character i and
      the i-th non-empty cell met. */
  ghost predicate Paired(glyphs: seq<Glyph>, chars: seq<Char>, cells: seq<Cell>, font: Font)
    requires font.Valid()
  {
    |glyphs| == |cells| <= |chars| &&
    forall i :: 0 <= i < |cells| ==> Inside(font, cells[i]) && glyphs[i] == MakeGlyph(chars[i], font, cells[i])
  }

  lemma PairedAppend(glyphs: seq<Glyph>, chars: seq<Char>, cells: seq<Cell>, font: Font, cell: Cell, g: Glyph)
    requires font.Valid() && Paired(glyphs, chars, cells, font) && |cells| < |chars|
    requires Inside(font, cell) && g == MakeGlyph(chars[|cells|], font, cell)
    ensures Paired(glyphs + [g], chars, cells + [cell], font)
  {
    var gs, cs := glyphs + [g], cells + [cell];
    forall i | 0 <= i < |cs|
      ensures Inside(font, cs[i]) && gs[i] == MakeGlyph(chars[i], font, cs[i])
    {
      if i < |cells| {
        assert cs[i] == cells[i] && gs[i] == glyphs[i];
      }
    }
  }

  /** What extraction produces: the i-th non-empty cell in row-major order
      paired with the i-th legend character, provided the text is accepted,
      the grid divides the image and the two counts agree. */
  ghost function Extraction(text: seq<u8>, font: Font): Result
    requires font.Valid()
  {
    if !Accepted(text) then Err(InvalidUtf8)
    else if !GridAligned(font) then Err(BadDimensions)
    else
      var chars, cells := Legend(text), NonEmptyCells(font);
      if |cells| > |chars| then Err(MoreGlyphsThanChars)
      else if |cells| < |chars| then Err(MoreCharsThanGlyphs)
      else Ok(seq(|cells|, i requires 0 <= i < |cells| => MakeGlyph(chars[i], font, cells[i])))
  }

  lemma PairedAll(glyphs: seq<Glyph>, chars: seq<Char>, font: Font)
    requires font.Valid() && GridAligned(font)
    requires Paired(glyphs, chars, NonEmptyCells(font), font) && |NonEmptyCells(font)| == |chars|
    ensures var cells := NonEmptyCells(font);
      glyphs == seq(|cells|, i requires 0 <= i < |cells| => MakeGlyph(chars[i], font, cells[i]))
  {
  }

  /** One step right along a grid row adds the cell just passed if it has ink. */
  lemma RowScanStep(font: Font, gridY: nat, gridX: nat)
    requires font.Valid() && gridY + GLYPH_HEIGHT <= font.height
    requires gridX < font.width && gridX % GLYPH_WIDTH == 0 && font.width % GLYPH_WIDTH == 0
    ensures gridX + GLYPH_WIDTH <= font.width && (gridX + GLYPH_WIDTH) % GLYPH_WIDTH == 0
    ensures Inside(font, Cell(gridX, gridY))
    ensures RowScan(font, gridY, gridX + GLYPH_WIDTH) ==
      RowScan(font, gridY, gridX) + if HasInk(font, Cell(gridX, gridY)) then [Cell(gridX, gridY)] else []
  {
  }

  /** One grid row down adds that row's cells. */
  lemma ScanStep(font: Font, gridY: nat)
    requires font.Valid() && GridAligned(font)
    requires gridY < font.height && gridY % GLYPH_HEIGHT == 0
    ensures gridY + GLYPH_HEIGHT <= font.height && (gridY + GLYPH_HEIGHT) % GLYPH_HEIGHT == 0
    ensures Scan(font, gridY + GLYPH_HEIGHT) == Scan(font, gridY) + RowScan(font, gridY, font.width)
  {
  }

  /** The cursor `iter` still holds legend characters `k..` of `chars`:
      the number of non-whitespace characters left equals the number of
      glyph slots left, which is what makes every chop of the extraction
      loop safe. */
  ghost predicate Remaining(iter: StringView, chars: seq<Char>, k: nat) {
    iter.Valid() && Accepted(iter.Bytes()) && k <= |chars| && Legend(iter.Bytes()) == chars[k..]
  }

  /** The body of the inner loop of `main` for one cell: a non-empty cell
      takes the next legend character and becomes the next glyph; `full`
      reports a non-empty cell met when every legend character is taken. */
  method TakeCell(font: Font, cell: Cell, glyphs: array<Glyph>, glyphIter: nat, iter: StringView,
                  ghost chars: seq<Char>, ghost seen: seq<Cell>)
    returns (full: bool, glyphIter': nat, iter': StringView)
    requires font.Valid() && Inside(font, cell)
    requires glyphs.Length == |chars| && Remaining(iter, chars, glyphIter)
    requires Paired(glyphs[..glyphIter], chars, seen, font)
    modifies glyphs
    ensures var seen' := seen + if HasInk(font, cell) then [cell] else [];
      (full <==> |seen'| > |chars|) &&
      (!full ==> Remaining(iter', chars, glyphIter') && Paired(glyphs[..glyphIter'], chars, seen', font))
  {
    glyphIter', iter' := glyphIter, iter;
    var empty := CellIsEmpty(font, cell.x, cell.y);
    if empty {
      return false, glyphIter', iter';
    }
    if glyphIter == glyphs.Length {
      return true, glyphIter', iter';
    }

    var charView, code, next := NextLegendChar(iter);
    assert chars[glyphIter] == Char(code, charView.Bytes());
    assert chars[glyphIter + 1..] == Legend(next.Bytes());
    iter' := next;

    var charData := charView.Bytes() + [0x00];
    var bitmap := ExpandBitmap(font, cell.x, cell.y);
    ghost var before := glyphs[..glyphIter];
    glyphs[glyphIter] := Glyph(code, charData, bitmap);
    assert glyphs[..glyphIter + 1] == before + [glyphs[glyphIter]];
    PairedAppend(before, chars, seen, font, cell, glyphs[glyphIter]);
    glyphIter' := glyphIter + 1;
    full := false;
  }

  lemma AppendAssociates<T>(a: seq<T>, b: seq<T>, c: seq<T>)
    ensures (a + b) + c == a + (b + c)
  {
  }

  /** One pass of the inner loop of `main`: the cell at (gridX, gridY) in
      the scan state after the cells before it. */
  method StepRow(font: Font, gridY: nat, gridX: nat, glyphs: array<Glyph>, glyphIter: nat, iter: StringView,
                 ghost chars: seq<Char>)
    returns (full: bool, glyphIter': nat, iter': StringView)
    requires font.Valid() && GridAligned(font) && gridY < font.height && gridY % GLYPH_HEIGHT == 0
    requires gridX < font.width && gridX % GLYPH_WIDTH == 0
    requires glyphs.Length == |chars| && Remaining(iter, chars, glyphIter)
    requires Paired(glyphs[..glyphIter], chars, Scan(font, gridY) + RowScan(font, gridY, gridX), font)
    modifies glyphs
    ensures gridX + GLYPH_WIDTH <= font.width && (gridX + GLYPH_WIDTH) % GLYPH_WIDTH == 0
    ensures full ==> |NonEmptyCells(font)| > |chars|
    ensures !full ==>
      Remaining(iter', chars, glyphIter') &&
      Paired(glyphs[..glyphIter'], chars, Scan(font, gridY) + RowScan(font, gridY, gridX + GLYPH_WIDTH), font)
  {
    ScanStep(font, gridY);
    RowScanStep(font, gridY, gridX);
    var cell := Cell(gridX, gridY);
    ghost var above, row := Scan(font, gridY), RowScan(font, gridY, gridX);
    AppendAssociates(above, row, if HasInk(font, cell) then [cell] else []);
    full, glyphIter', iter' := TakeCell(font, cell, glyphs, glyphIter, iter, chars, above + row);
    if full {
      ScanPrefix(font, gridY, gridX + GLYPH_WIDTH);
    }
  }

  /** The inner loop of `main` over the grid row starting at pixel row
      `gridY`. `overflow` reports that the image has more non-empty cells
      than the legend has characters. */
  method ScanRow(font: Font, gridY: nat, glyphs: array<Glyph>, glyphIter: nat, iter: StringView,
                 ghost chars: seq<Char>)
    returns (overflow: bool, glyphIter': nat, iter': StringView)
    requires font.Valid() && GridAligned(font) && gridY < font.height && gridY % GLYPH_HEIGHT == 0
    requires glyphs.Length == |chars| && Remaining(iter, chars, glyphIter)
    requires Paired(glyphs[..glyphIter], chars, Scan(font, gridY), font)
    modifies glyphs
    ensures overflow ==> |NonEmptyCells(font)| > |chars|
    ensures !overflow ==>
      Remaining(iter', chars, glyphIter') && Paired(glyphs[..glyphIter'], chars, Scan(font, gridY + GLYPH_HEIGHT), font)
  {
    ScanStep(font, gridY);
    assert Scan(font, gridY) + RowScan(font, gridY, 0) == Scan(font, gridY);
    glyphIter', iter' := glyphIter, iter;
    var gridX := 0;
    while gridX < font.width
      invariant gridX <= font.width && gridX % GLYPH_WIDTH == 0
      invariant Remaining(iter', chars, glyphIter')
      invariant Paired(glyphs[..glyphIter'], chars, Scan(font, gridY) + RowScan(font, gridY, gridX), font)
    {
      overflow, glyphIter', iter' := StepRow(font, gridY, gridX, glyphs, glyphIter', iter', chars);
      if overflow {
        return;
      }
      gridX := gridX + GLYPH_WIDTH;
    }
    overflow := false;
  }

  /** The outer loop of `main`: the grid rows from top to bottom. */
  method ScanGrid(font: Font, glyphs: array<Glyph>, text: StringView, ghost chars: seq<Char>)
    returns (overflow: bool, glyphIter: nat)
    requires font.Valid() && GridAligned(font)
    requires glyphs.Length == |chars| && Remaining(text, chars, 0)
    modifies glyphs
    ensures overflow ==> |NonEmptyCells(font)| > |chars|
    ensures !overflow ==> glyphIter <= glyphs.Length && Paired(glyphs[..glyphIter], chars, NonEmptyCells(font), font)
  {
    glyphIter := 0;
    var iter := text;
    var gridY := 0;
    while gridY < font.height
      invariant gridY <= font.height && gridY % GLYPH_HEIGHT == 0
      invariant Remaining(iter, chars, glyphIter) && Paired(glyphs[..glyphIter], chars, Scan(font, gridY), font)
    {
      overflow, glyphIter, iter := ScanRow(font, gridY, glyphs, glyphIter, iter, chars);
      if overflow {
        return;
      }
      gridY := gridY + GLYPH_HEIGHT;
    }
    overflow := false;
  }

  /** `main` from the validation of the legend to the end of the scan (the
      file and image loading before it and the printing after it are not
      part of this model). */
  method Extract(text: StringView, font: Font) returns (r: Result)
    requires text.Valid() && font.Valid()
    ensures r == Extraction(text.Bytes(), font)
  {
    var valid := Validate(text);
    if !valid {
      return Err(InvalidUtf8);
    }

    var count := CountNonSpace(text);

    if font.width % GLYPH_WIDTH != 0 || font.height % GLYPH_HEIGHT != 0 {
      return Err(BadDimensions);
    }

    var glyphs := new Glyph[count](_ => Glyph(0, [], []));
    var overflow, glyphIter := ScanGrid(font, glyphs, text, Legend(text.Bytes()));
    if overflow {
      return Err(MoreGlyphsThanChars);
    }
    if glyphIter != count {
      return Err(MoreCharsThanGlyphs);
    }
    PairedAll(glyphs[..], Legend(text.Bytes()), font);
    return Ok(glyphs[..]);
  }

  /** The legend entries are the decoded, non-whitespace characters of
      the text. */
  lemma LegendEntries(text: seq<u8>)
    requires Accepted(text)
    ensures forall i :: 0 <= i < |Legend(text)| ==>
      var ch := Legend(text)[i];
      IsChar(ch.bytes) && ch.code == DecodeChar(ch.bytes) && !CharIsSpace(ch.code)
  {
    NonSpaceContents(Chars(text));
    forall i | 0 <= i < |Legend(text)|
      ensures var ch := Legend(text)[i];
        IsChar(ch.bytes) && ch.code == DecodeChar(ch.bytes) && !CharIsSpace(ch.code)
    {
      var ch := Legend(text)[i];
      assert ch in Chars(text);
    }
  }

  /** A glyph made of a decoded character and a cell with ink. */
  predicate WellFormedGlyph(g: Glyph) {
    var n := |g.charData| - 1;
    n >= 1 && g.charData[n] == 0x00 && IsChar(g.charData[..n]) && DecodeChar(g.charData[..n]) == g.charCode &&
    !CharIsSpace(g.charCode) && |g.bitmap| == GLYPH_WIDTH * GLYPH_HEIGHT && INK in g.bitmap
  }

  lemma MakeGlyphWellFormed(ch: Char, font: Font, cell: Cell)
    requires font.Valid() && Inside(font, cell) && HasInk(font, cell)
    requires IsChar(ch.bytes) && ch.code == DecodeChar(ch.bytes) && !CharIsSpace(ch.code)
    ensures WellFormedGlyph(MakeGlyph(ch, font, cell))
  {
    var g := MakeGlyph(ch, font, cell);
    assert g.charData[..|ch.bytes|] == ch.bytes;
    BitmapOfInkedCell(font, cell);
  }

  /** On success the glyphs pair the legend with the non-empty cells one to
      one: glyph i carries the i-th legend code point, its bytes followed
      by a single NUL (which decode back to that code point), and the
      bitmap of the i-th non-empty cell, which has at least one INK entry. */
  lemma ExtractedGlyphs(text: seq<u8>, font: Font)
    requires font.Valid() && Extraction(text, font).Ok?
    ensures Accepted(text) && GridAligned(font)
    ensures var glyphs := Extraction(text, font).glyphs;
      |glyphs| == |Legend(text)| == |NonEmptyCells(font)| &&
      forall i :: 0 <= i < |glyphs| ==>
        glyphs[i].charCode == Legend(text)[i].code &&
        glyphs[i].bitmap == CellBitmap(font, NonEmptyCells(font)[i]) &&
        WellFormedGlyph(glyphs[i])
  {
    var glyphs := Extraction(text, font).glyphs;
    var chars, cells := Legend(text), NonEmptyCells(font);
    LegendEntries(text);
    NonEmptyCellsInRowMajorOrder(font);
    forall i | 0 <= i < |glyphs|
      ensures WellFormedGlyph(glyphs[i])
    {
      assert cells[i] in cells;
      MakeGlyphWellFormed(chars[i], font, cells[i]);
    }
  }

  /** A 16x8 image with one byte per pixel: the left cell has no ink, the
      right cell has a single ink pixel at its top-left corner. */
  function TwoCellFont(): (font: Font)
    ensures font.Valid() && GridAligned(font)
  {
    Font(16, 8, 1, seq(128, i => if i == 8 then 0x00 else 0xFF))
  }

  /** The only non-empty cell of `TwoCellFont` is the right one. */
  lemma TwoCellFontCells()
    ensures NonEmptyCells(TwoCellFont()) == [Cell(8, 0)]
  {
    var font := TwoCellFont();
    assert HasInk(font, Cell(8, 0)) by {
      assert CellColor(font, Cell(8, 0), 0, 0) == 0x00;
    }
    assert !HasInk(font, Cell(0, 0)) by {
      forall x, y | 0 <= x < GLYPH_WIDTH && 0 <= y < GLYPH_HEIGHT
        ensures CellColor(font, Cell(0, 0), x, y) != 0x00
      {
        assert PixelIndex(font, x, y) == y * 16 + x;
      }
    }
    assert RowScan(font, 0, 8) == [];
    assert RowScan(font, 0, 16) == [Cell(8, 0)];
  }

  lemma LegendOfA()
    ensures Accepted([0x41]) && Legend([0x41]) == [Char(0x41, [0x41])]
  {
    assert CharSize(0x41) == 1 && DecodeChar([0x41]) == 0x41;
    assert [0x41 as u8][..1] == [0x41] && [0x41 as u8][1..] == [];
  }

  lemma LegendOfAB()
    ensures Accepted([0x41, 0x42]) && |Legend([0x41, 0x42])| == 2
  {
    assert CharSize(0x41) == 1 && DecodeChar([0x41]) == 0x41;
    assert CharSize(0x42) == 1 && DecodeChar([0x42]) == 0x42;
    assert [0x42 as u8][..1] == [0x42] && [0x42 as u8][1..] == [];
    assert Accepted([0x42]) && Chars([0x42]) == [Char(0x42, [0x42])];
    assert [0x41 as u8, 0x42][..1] == [0x41] && [0x41 as u8, 0x42][1..] == [0x42];
    assert Chars([0x41, 0x42]) == [Char(0x41, [0x41]), Char(0x42, [0x42])];
  }

  /** Pairing on `TwoCellFont`: the legend "A" gives one glyph, for code
      point 0x41, with the bitmap of the right cell. */
  lemma TwoCellPairing()
    ensures Extraction([0x41], TwoCellFont()) ==
      Ok([Glyph(0x41, [0x41, 0x00], CellBitmap(TwoCellFont(), Cell(8, 0)))])
  {
    var font := TwoCellFont();
    TwoCellFontCells();
    LegendOfA();
    var chars, cells := Legend([0x41]), NonEmptyCells(font);
    var glyphs := seq(|cells|, i requires 0 <= i < |cells| => MakeGlyph(chars[i], font, cells[i]));
    assert [0x41 as u8] + [0x00] == [0x41, 0x00];
    assert glyphs == [Glyph(0x41, [0x41, 0x00], CellBitmap(font, Cell(8, 0)))];
  }

  /** Both mismatch errors on `TwoCellFont`: "AB" has more characters than
      glyphs, the empty legend more glyphs than characters. */
  lemma TwoCellMismatches()
    ensures Extraction([0x41, 0x42], TwoCellFont()) == Err(MoreCharsThanGlyphs)
    ensures Extraction([], TwoCellFont()) == Err(MoreGlyphsThanChars)
  {
    TwoCellFontCells();
    LegendOfAB();
    assert Accepted([]) && Legend([]) == [];
  }
}
