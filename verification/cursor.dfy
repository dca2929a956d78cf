/**
  The text cursor format (cursor.cc): a line reader that drops comments, and
  a bitmap builder that turns one character per pixel into the data and mask
  bitmaps, most significant bit first, plus a hot spot.

  Fatal errors (the source prints a message and exits) are `Err` results.
*/
module Cursor {
  import opened Wrappers
  import opened Text

  datatype CursorError =
    | InvalidControlCharacter(c: char)
    | InvalidCharacter(c: char)
    | MultipleHotSpots

  /** What `SDL_CreateCursor` receives. */
  datatype Cursor = Cursor(width: nat, height: nat, data: seq<bv8>, mask: seq<bv8>, hotX: nat, hotY: nat)

  // ---------------------------------------------------------------------
  // Characters
  // ---------------------------------------------------------------------

  /** 'X' (black), ':' (white) and '^' (transparent) mark the hot spot. */
  predicate IsHot(c: char) { c == 'X' || c == ':' || c == '^' }

  predicate SetsData(c: char) { c == 'X' || c == 'x' }

  predicate SetsMask(c: char) { c == 'X' || c == 'x' || c == ':' || c == '.' }

  predicate Known(c: char) { SetsMask(c) || c == '^' || c == ' ' }

  /** The error an unknown character raises: control characters are reported by code. */
  function CharError(c: char): CursorError
  {
    if (c as int) % 256 < 32 then InvalidControlCharacter(c) else InvalidCharacter(c)
  }

  predicate Sets(c: char, mask: bool) { if mask then SetsMask(c) else SetsData(c) }

  // ---------------------------------------------------------------------
  // Size
  // ---------------------------------------------------------------------

  function MaxLength(lines: seq<string>): (m: nat)
    ensures forall j :: 0 <= j < |lines| ==> |lines[j]| <= m
    ensures |lines| == 0 ==> m == 0
    ensures |lines| > 0 ==> exists j :: 0 <= j < |lines| && |lines[j]| == m
  {
    if |lines| == 0 then 0
    else
      var m := MaxLength(lines[..|lines| - 1]);
      var n := |lines[|lines| - 1]|;
      assert forall j :: 0 <= j < |lines| - 1 ==> lines[j] == lines[..|lines| - 1][j];
      if m < n then n else m
  }

  /**
    `(m + 7) & ~7`: clearing the low three bits of a non-negative int rounds
    it down to a multiple of 8.
  */
  function RoundUp8(m: nat): (r: nat)
    ensures r % 8 == 0 && m <= r < m + 8
  {
    (m + 7) - (m + 7) % 8
  }

  // ---------------------------------------------------------------------
  // Bitmaps
  // ---------------------------------------------------------------------

  /** Whether pixel `col` of a line is set in the data (mask = false) or mask (mask = true) bitmap. */
  predicate Pixel(line: string, col: nat, mask: bool)
  {
    col < |line| && Sets(line[col], mask)
  }

  /** The bit of column k within its byte. */
  function Bit(k: nat): bv8
    requires k < 8
  {
    (0x80 as bv8) >> k
  }

  /** The inner `k` loop: bits k, k+1, ... of the byte starting at column `base`, stopping at the line's end. */
  function Bits(line: string, base: nat, k: nat, mask: bool): bv8
    requires k <= 8
    decreases 8 - k
  {
    if k == 8 || base + k >= |line| then 0
    else (if Sets(line[base + k], mask) then Bit(k) else 0) | Bits(line, base, k + 1, mask)
  }

  /** Byte i of a row. */
  function ByteAt(line: string, i: nat, mask: bool): bv8
  {
    Bits(line, 8 * i, 0, mask)
  }

  lemma BitFacts(k0: nat, k: nat)
    requires k0 < 8 && k < 8
    ensures Bit(k) != 0
    ensures k0 != k ==> Bit(k0) & Bit(k) == 0
  {
  }

  lemma {:induction false} BitsAbove(line: string, base: nat, k0: nat, k: nat, mask: bool)
    requires k < k0 <= 8
    ensures Bits(line, base, k0, mask) & Bit(k) == 0
    decreases 8 - k0
  {
    if k0 < 8 && base + k0 < |line| {
      BitsAbove(line, base, k0 + 1, k, mask);
      BitFacts(k0, k);
      var b := if Sets(line[base + k0], mask) then Bit(k0) else 0;
      var rest := Bits(line, base, k0 + 1, mask);
      assert (b | rest) & Bit(k) == (b & Bit(k)) | (rest & Bit(k));
    }
  }

  /** Bit k of the byte starting at `base` is set exactly when pixel base + k is. */
  lemma {:induction false} BitsBit(line: string, base: nat, k0: nat, k: nat, mask: bool)
    requires k0 <= k < 8
    ensures (Bits(line, base, k0, mask) & Bit(k) != 0) <==> Pixel(line, base + k, mask)
    decreases 8 - k0
  {
    BitFacts(k0, k);
    if base + k0 < |line| {
      var b := if Sets(line[base + k0], mask) then Bit(k0) else 0;
      var rest := Bits(line, base, k0 + 1, mask);
      assert (b | rest) & Bit(k) == (b & Bit(k)) | (rest & Bit(k));
      if k0 == k {
        BitsAbove(line, base, k0 + 1, k, mask);
        assert Bit(k) & Bit(k) == Bit(k);
      } else {
        BitsBit(line, base, k0 + 1, k, mask);
      }
    }
  }

  function RowBytes(line: string, bpl: nat, mask: bool): (r: seq<bv8>)
    ensures |r| == bpl && forall i :: 0 <= i < bpl ==> r[i] == ByteAt(line, i, mask)
  {
    seq(bpl, i requires 0 <= i < bpl => ByteAt(line, i, mask))
  }

  /** The rows' bytes one after another. */
  function Bitmap(lines: seq<string>, bpl: nat, mask: bool): (r: seq<bv8>)
    ensures |r| == |lines| * bpl
  {
    if |lines| == 0 then [] else Bitmap(lines[..|lines| - 1], bpl, mask) + RowBytes(lines[|lines| - 1], bpl, mask)
  }

  /** Byte i of row j sits at j * bpl + i. */
  lemma {:induction false} BitmapIndex(lines: seq<string>, bpl: nat, mask: bool, j: nat, i: nat)
    requires j < |lines| && i < bpl
    ensures j * bpl + i < |Bitmap(lines, bpl, mask)|
    ensures Bitmap(lines, bpl, mask)[j * bpl + i] == ByteAt(lines[j], i, mask)
  {
    var n := |lines| - 1;
    var init := lines[..n];
    assert (j + 1) * bpl <= |lines| * bpl by { MulMono(j + 1, |lines|, bpl); }
    if j < n {
      BitmapIndex(init, bpl, mask, j, i);
      assert lines[j] == init[j];
    } else {
      assert |Bitmap(init, bpl, mask)| == n * bpl;
    }
  }

  lemma MulMono(a: nat, b: nat, c: nat)
    requires a <= b
    ensures a * c <= b * c
  {
  }

  // ---------------------------------------------------------------------
  // Scanning for errors and the hot spot
  // ---------------------------------------------------------------------

  /** A character with its column and row. */
  datatype Cell = Cell(ch: char, col: nat, row: nat)

  function RowCells(line: string, j: nat): (r: seq<Cell>)
    ensures |r| == |line| && forall c :: 0 <= c < |line| ==> r[c] == Cell(line[c], c, j)
  {
    seq(|line|, c requires 0 <= c < |line| => Cell(line[c], c, j))
  }

  /** Every character of every line, in the order the loops visit them (row-major). */
  function Cells(lines: seq<string>): seq<Cell>
  {
    if |lines| == 0 then [] else Cells(lines[..|lines| - 1]) + RowCells(lines[|lines| - 1], |lines| - 1)
  }

  /** Strictly increasing in (row, column). */
  ghost predicate RowMajor(cells: seq<Cell>)
  {
    forall a, b :: 0 <= a < b < |cells| ==>
      cells[a].row < cells[b].row || (cells[a].row == cells[b].row && cells[a].col < cells[b].col)
  }

  /** The cell at a line position. */
  ghost predicate At(lines: seq<string>, x: Cell)
  {
    x.row < |lines| && x.col < |lines[x.row]| && x.ch == lines[x.row][x.col]
  }

  lemma {:induction false} CellsContents(lines: seq<string>)
    ensures forall x :: x in Cells(lines) <==> At(lines, x)
    ensures RowMajor(Cells(lines))
    ensures forall k :: 0 <= k < |Cells(lines)| ==> Cells(lines)[k].row < |lines|
  {
    if |lines| > 0 {
      var n := |lines| - 1;
      var init := lines[..n];
      CellsContents(init);
      var a, b := Cells(init), RowCells(lines[n], n);
      assert Cells(lines) == a + b;
      forall x ensures x in a + b <==> At(lines, x) {
        if x.row < n {
          assert init[x.row] == lines[x.row];
        } else if x.row == n && x.col < |lines[n]| && x.ch == lines[n][x.col] {
          assert b[x.col] == x;
        }
      }
    }
  }

  /** The character loop: the first unknown character or second hot spot is fatal. */
  function ScanFrom(cells: seq<Cell>, hot: Option<(nat, nat)>): (r: Result<Option<(nat, nat)>, CursorError>)
    decreases |cells|
  {
    if |cells| == 0 then Ok(hot)
    else
      var x := cells[0];
      if !Known(x.ch) then Err(CharError(x.ch))
      else if IsHot(x.ch) && hot.Some? then Err(MultipleHotSpots)
      else
        ScanFrom(cells[1..], if IsHot(x.ch) then Some((x.col, x.row)) else hot)
  }

  ghost predicate AllKnownCells(cells: seq<Cell>) { forall k :: 0 <= k < |cells| ==> Known(cells[k].ch) }

  ghost predicate NoHotCell(cells: seq<Cell>) { forall k :: 0 <= k < |cells| ==> !IsHot(cells[k].ch) }

  ghost predicate AtMostOneHotCell(cells: seq<Cell>)
  {
    forall a, b :: 0 <= a < b < |cells| ==> !(IsHot(cells[a].ch) && IsHot(cells[b].ch))
  }

  /** The scan succeeds exactly on known characters with at most one hot spot, counting the one already found. */
  lemma {:induction false} ScanOk(cells: seq<Cell>, hot: Option<(nat, nat)>)
    ensures ScanFrom(cells, hot).Ok? <==>
              AllKnownCells(cells) && AtMostOneHotCell(cells) && (hot.Some? ==> NoHotCell(cells))
    ensures ScanFrom(cells, hot).Ok? ==>
              (NoHotCell(cells) && ScanFrom(cells, hot).value == hot) ||
              (exists k :: 0 <= k < |cells| && IsHot(cells[k].ch) &&
                           ScanFrom(cells, hot).value == Some((cells[k].col, cells[k].row)))
    decreases |cells|
  {
    if |cells| > 0 {
      var x := cells[0];
      var tail := cells[1..];
      var hot' := if IsHot(x.ch) then Some((x.col, x.row)) else hot;
      ScanOk(tail, hot');
      assert forall k :: 1 <= k < |cells| ==> cells[k] == tail[k - 1];
      if ScanFrom(cells, hot).Ok? {
        assert ScanFrom(cells, hot) == ScanFrom(tail, hot');
        if IsHot(x.ch) {
          assert NoHotCell(tail);
        }
      }
      if AllKnownCells(cells) && AtMostOneHotCell(cells) && (hot.Some? ==> NoHotCell(cells)) {
        assert Known(x.ch);
        assert AllKnownCells(tail);
        assert AtMostOneHotCell(tail) by {
          forall a, b | 0 <= a < b < |tail| ensures !(IsHot(tail[a].ch) && IsHot(tail[b].ch)) {
            assert tail[a] == cells[a + 1] && tail[b] == cells[b + 1];
          }
        }
        if IsHot(x.ch) {
          assert hot.None?;
          assert NoHotCell(tail) by {
            forall k | 0 <= k < |tail| ensures !IsHot(tail[k].ch) {
              assert tail[k] == cells[k + 1];
            }
          }
        }
      }
    }
  }

  /**
    A failing scan stops at cell k: every earlier character is known, and
    cell k is either unknown (reported by its character) or a hot spot after
    an earlier one.
  */
  lemma {:induction false} ScanError(cells: seq<Cell>, hot: Option<(nat, nat)>)
    requires ScanFrom(cells, hot).Err?
    ensures exists k :: 0 <= k < |cells| && (forall m :: 0 <= m < k ==> Known(cells[m].ch)) &&
              ((!Known(cells[k].ch) && ScanFrom(cells, hot).error == CharError(cells[k].ch)) ||
               (IsHot(cells[k].ch) && ScanFrom(cells, hot).error == MultipleHotSpots &&
                (hot.Some? || exists a :: 0 <= a < k && IsHot(cells[a].ch))))
    decreases |cells|
  {
    var x := cells[0];
    if !Known(x.ch) || (IsHot(x.ch) && hot.Some?) {
    } else {
      var tail := cells[1..];
      var hot' := if IsHot(x.ch) then Some((x.col, x.row)) else hot;
      ScanError(tail, hot');
      var k :| 0 <= k < |tail| && (forall m :: 0 <= m < k ==> Known(tail[m].ch)) &&
              ((!Known(tail[k].ch) && ScanFrom(tail, hot').error == CharError(tail[k].ch)) ||
               (IsHot(tail[k].ch) && ScanFrom(tail, hot').error == MultipleHotSpots &&
                (hot'.Some? || exists a :: 0 <= a < k && IsHot(tail[a].ch))));
      assert cells[k + 1] == tail[k];
      assert forall m :: 0 < m < k + 1 ==> cells[m] == tail[m - 1];
      if IsHot(tail[k].ch) && ScanFrom(tail, hot').error == MultipleHotSpots && hot.None? {
        if IsHot(x.ch) {
          assert IsHot(cells[0].ch);
        } else {
          var a :| 0 <= a < k && IsHot(tail[a].ch);
          assert cells[a + 1] == tail[a];
        }
      }
    }
  }

  // ---------------------------------------------------------------------
  // The bitmap builder
  // ---------------------------------------------------------------------

  /** Every character of every line is one the format knows. */
  ghost predicate AllKnown(lines: seq<string>)
  {
    forall j, c :: 0 <= j < |lines| && 0 <= c < |lines[j]| ==> Known(lines[j][c])
  }

  ghost predicate HotAt(lines: seq<string>, j: int, c: int)
  {
    0 <= j < |lines| && 0 <= c < |lines[j]| && IsHot(lines[j][c])
  }

  /** At most one position holds a hot-spot character. */
  ghost predicate UniqueHot(lines: seq<string>)
  {
    forall j1, c1, j2, c2 :: HotAt(lines, j1, c1) && HotAt(lines, j2, c2) ==> j1 == j2 && c1 == c2
  }

  /** The width the builder gives a set of lines: the longest line rounded up to whole bytes. */
  function Width(lines: seq<string>): (w: nat)
    ensures w % 8 == 0 && MaxLength(lines) <= w < MaxLength(lines) + 8
  {
    RoundUp8(MaxLength(lines))
  }

  /** `loadCursor(lines)`. */
  function LoadCursor(lines: seq<string>): (r: Result<Cursor, CursorError>)
    ensures r.Ok? ==> r.value.height == |lines| && r.value.width % 8 == 0
    ensures r.Ok? ==> MaxLength(lines) <= r.value.width < MaxLength(lines) + 8
    ensures r.Ok? ==> |r.value.data| == |r.value.mask| == r.value.height * (r.value.width / 8)
  {
    var bpl := Width(lines) / 8;
    match ScanFrom(Cells(lines), None)
    case Err(e) => Err(e)
    case Ok(hot) =>
      // without a hot spot the source clamps (0, 0) into the cursor, which leaves it (0, 0)
      var (hx, hy) := if hot.Some? then hot.value else (0, 0);
      Ok(Cursor(Width(lines), |lines|, Bitmap(lines, bpl, false), Bitmap(lines, bpl, true), hx, hy))
  }

  /** How the builder's result is put together from the scan and the bitmaps. */
  lemma LoadCursorParts(lines: seq<string>)
    ensures var scan := ScanFrom(Cells(lines), None);
      (LoadCursor(lines).Err? <==> scan.Err?) &&
      (scan.Err? ==> LoadCursor(lines).error == scan.error) &&
      (scan.Ok? ==>
        var cur := LoadCursor(lines).value;
        cur.width == Width(lines) && cur.height == |lines| &&
        cur.data == Bitmap(lines, Width(lines) / 8, false) && cur.mask == Bitmap(lines, Width(lines) / 8, true) &&
        (scan.value.Some? ==> scan.value.value == (cur.hotX, cur.hotY)) &&
        (scan.value.None? ==> cur.hotX == 0 && cur.hotY == 0))
  {
  }

  lemma CellsAllKnown(lines: seq<string>)
    ensures AllKnownCells(Cells(lines)) <==> AllKnown(lines)
  {
    var cells := Cells(lines);
    CellsContents(lines);
    if AllKnownCells(cells) {
      forall j, c | 0 <= j < |lines| && 0 <= c < |lines[j]| ensures Known(lines[j][c]) {
        assert Cell(lines[j][c], c, j) in cells;
      }
    }
    if AllKnown(lines) {
      forall k | 0 <= k < |cells| ensures Known(cells[k].ch) {
        assert cells[k] in cells;
      }
    }
  }

  lemma CellsUniqueHot(lines: seq<string>)
    ensures AtMostOneHotCell(Cells(lines)) <==> UniqueHot(lines)
  {
    var cells := Cells(lines);
    CellsContents(lines);
    if AtMostOneHotCell(cells) {
      forall j1, c1, j2, c2 | HotAt(lines, j1, c1) && HotAt(lines, j2, c2) ensures j1 == j2 && c1 == c2 {
        var x1, x2 := Cell(lines[j1][c1], c1, j1), Cell(lines[j2][c2], c2, j2);
        assert x1 in cells && x2 in cells;
        var a :| 0 <= a < |cells| && cells[a] == x1;
        var b :| 0 <= b < |cells| && cells[b] == x2;
        assert a == b;
      }
    }
    if UniqueHot(lines) {
      forall a, b | 0 <= a < b < |cells| ensures !(IsHot(cells[a].ch) && IsHot(cells[b].ch)) {
        assert cells[a] in cells && cells[b] in cells;
        var x, y := cells[a], cells[b];
        assert At(lines, x) && At(lines, y);
        assert HotAt(lines, x.row, x.col) && HotAt(lines, y.row, y.col) ==> x.row == y.row && x.col == y.col;
      }
    }
  }

  lemma CellsNoHot(lines: seq<string>)
    ensures NoHotCell(Cells(lines)) <==> forall j, c :: !HotAt(lines, j, c)
  {
    var cells := Cells(lines);
    CellsContents(lines);
    if NoHotCell(cells) {
      forall j, c ensures !HotAt(lines, j, c) {
        if 0 <= j < |lines| && 0 <= c < |lines[j]| {
          var x := Cell(lines[j][c], c, j);
          assert x in cells;
          var k :| 0 <= k < |cells| && cells[k] == x;
        }
      }
    }
    if forall j, c :: !HotAt(lines, j, c) {
      forall k | 0 <= k < |cells| ensures !IsHot(cells[k].ch) {
        assert cells[k] in cells;
        assert At(lines, cells[k]);
        assert !HotAt(lines, cells[k].row, cells[k].col);
      }
    }
  }

  /**
    The builder succeeds exactly when every character is known and at most
    one is a hot spot.
  */
  lemma LoadCursorOk(lines: seq<string>)
    ensures LoadCursor(lines).Ok? <==> AllKnown(lines) && UniqueHot(lines)
  {
    var cells := Cells(lines);
    ScanOk(cells, None);
    CellsAllKnown(lines);
    CellsUniqueHot(lines);
    LoadCursorParts(lines);
  }

  /**
    A built cursor is as wide as the longest line rounded up to a multiple of
    8, as high as the number of lines, has one bitmap byte per 8 columns of
    each row, and its hot spot is the hot-spot character's (column, row), or
    (0, 0) when there is none.
  */
  lemma LoadCursorShape(lines: seq<string>)
    requires LoadCursor(lines).Ok?
    ensures var cur := LoadCursor(lines).value;
      cur.width % 8 == 0 && MaxLength(lines) <= cur.width < MaxLength(lines) + 8 &&
      cur.height == |lines| && |cur.data| == |cur.mask| == cur.height * (cur.width / 8) &&
      (HotAt(lines, cur.hotY, cur.hotX) || (cur.hotX == 0 && cur.hotY == 0 && forall j, c :: !HotAt(lines, j, c)))
  {
    var cells := Cells(lines);
    LoadCursorParts(lines);
    ScanOk(cells, None);
    var scan := ScanFrom(cells, None);
    if scan.value.Some? {
      CellsContents(lines);
      var k :| 0 <= k < |cells| && IsHot(cells[k].ch) && scan.value == Some((cells[k].col, cells[k].row));
      assert cells[k] in cells;
      assert At(lines, cells[k]);
    } else {
      CellsNoHot(lines);
    }
  }

  /**
    Pixel (col, row) of the data and mask bitmaps: byte row * (width / 8) + col / 8,
    bit 0x80 >> (col % 8), set exactly when the character there sets it;
    columns past a line's end are clear.
  */
  /** The byte of a `width`-column bitmap that holds column `col` of row `row`. */
  function ByteIndex(width: nat, row: nat, col: nat): nat
  {
    row * (width / 8) + col / 8
  }

  lemma LoadCursorPixels(lines: seq<string>, cur: Cursor, row: nat, col: nat)
    requires LoadCursor(lines) == Ok(cur)
    requires row < |lines| && col < Width(lines)
    ensures ByteIndex(cur.width, row, col) < |cur.data| && ByteIndex(cur.width, row, col) < |cur.mask|
    ensures (cur.data[ByteIndex(cur.width, row, col)] & Bit(col % 8) != 0) <==> Pixel(lines[row], col, false)
    ensures (cur.mask[ByteIndex(cur.width, row, col)] & Bit(col % 8) != 0) <==> Pixel(lines[row], col, true)
  {
    LoadCursorParts(lines);
    BitmapPixel(lines, Width(lines) / 8, row, col, false);
    BitmapPixel(lines, Width(lines) / 8, row, col, true);
  }

  lemma BitmapPixel(lines: seq<string>, bpl: nat, row: nat, col: nat, mask: bool)
    requires row < |lines| && col < 8 * bpl
    ensures row * bpl + col / 8 < |Bitmap(lines, bpl, mask)|
    ensures (Bitmap(lines, bpl, mask)[row * bpl + col / 8] & Bit(col % 8) != 0) <==> Pixel(lines[row], col, mask)
  {
    BitmapIndex(lines, bpl, mask, row, col / 8);
    BitsBit(lines[row], 8 * (col / 8), 0, col % 8, mask);
  }

  /**
    A failing build reports the first offending character in row-major order:
    every character before it is known, and it is either unknown or a second
    hot spot.
  */
  /**
    Character (j, c) is where loading stops with error e: every character
    before it is known, and it is either an unknown character or a second
    hot spot.
  */
  ghost predicate Offends(lines: seq<string>, j: int, c: int, e: CursorError)
  {
    && 0 <= j < |lines| && 0 <= c < |lines[j]|
    && (forall j', c' :: 0 <= j' < |lines| && 0 <= c' < |lines[j']| && (j' < j || (j' == j && c' < c)) ==> Known(lines[j'][c']))
    && ((!Known(lines[j][c]) && e == CharError(lines[j][c])) ||
        (IsHot(lines[j][c]) && e == MultipleHotSpots && (exists j', c' :: HotAt(lines, j', c') && (j' < j || (j' == j && c' < c)))))
  }

  lemma LoadCursorError(lines: seq<string>)
    requires LoadCursor(lines).Err?
    ensures exists j, c :: Offends(lines, j, c, LoadCursor(lines).error)
  {
    var cells := Cells(lines);
    LoadCursorParts(lines);
    ScanError(cells, None);
    var k :| 0 <= k < |cells| && (forall m :: 0 <= m < k ==> Known(cells[m].ch)) &&
              ((!Known(cells[k].ch) && ScanFrom(cells, None).error == CharError(cells[k].ch)) ||
               (IsHot(cells[k].ch) && ScanFrom(cells, None).error == MultipleHotSpots &&
                exists a :: 0 <= a < k && IsHot(cells[a].ch)));
    FirstOffending(lines, k);
    var x := cells[k];
    if IsHot(x.ch) && ScanFrom(cells, None).error == MultipleHotSpots {
      var a :| 0 <= a < k && IsHot(cells[a].ch);
      EarlierCell(lines, a, k);
    }
    assert Offends(lines, x.row, x.col, LoadCursor(lines).error);
  }

  /** Cell k of the row-major order sits at a line position, and everything before it comes earlier. */
  lemma FirstOffending(lines: seq<string>, k: nat)
    requires k < |Cells(lines)| && forall m :: 0 <= m < k ==> Known(Cells(lines)[m].ch)
    ensures At(lines, Cells(lines)[k])
    ensures var x := Cells(lines)[k];
      forall j', c' :: 0 <= j' < |lines| && 0 <= c' < |lines[j']| && (j' < x.row || (j' == x.row && c' < x.col)) ==> Known(lines[j'][c'])
  {
    var cells := Cells(lines);
    CellsContents(lines);
    var x := cells[k];
    assert x in cells;
    forall j', c' | 0 <= j' < |lines| && 0 <= c' < |lines[j']| && (j' < x.row || (j' == x.row && c' < x.col))
      ensures Known(lines[j'][c'])
    {
      var y := Cell(lines[j'][c'], c', j');
      assert y in cells;
      var m :| 0 <= m < |cells| && cells[m] == y;
      assert m < k;
    }
  }

  lemma EarlierCell(lines: seq<string>, a: nat, k: nat)
    requires a < k < |Cells(lines)| && IsHot(Cells(lines)[a].ch)
    ensures var x, y := Cells(lines)[a], Cells(lines)[k];
      HotAt(lines, y.row, y.col) || !IsHot(y.ch)
    ensures var x, y := Cells(lines)[a], Cells(lines)[k];
      HotAt(lines, x.row, x.col) && (x.row < y.row || (x.row == y.row && x.col < y.col))
  {
    var cells := Cells(lines);
    CellsContents(lines);
    assert cells[a] in cells && cells[k] in cells;
  }

  // ---------------------------------------------------------------------
  // The line reader
  // ---------------------------------------------------------------------

  /** `line.rfind(' ', p)`: the last space at or before p. */
  function LastSpaceAtOrBefore(s: string, p: nat): (r: Option<nat>)
    requires p < |s|
    ensures r.Some? ==> r.value <= p && s[r.value] == ' ' && forall k :: r.value < k <= p ==> s[k] != ' '
    ensures r.None? ==> forall k :: 0 <= k <= p ==> s[k] != ' '
    decreases p
  {
    if s[p] == ' ' then Some(p) else if p == 0 then None else LastSpaceAtOrBefore(s, p - 1)
  }

  /**
    One line's comment handling: a line starting with '#' is skipped;
    otherwise a '#' cuts the line at the last space before it, and the line
    is kept whole when no space precedes the '#'.
  */
  function StripComment(line: string): (r: Option<string>)
    ensures r.Some? ==> r.value <= line
    ensures r.Some? && r.value != line ==> ' ' in line && '#' in line
  {
    var cpos := IndexOf(line, '#');
    if cpos == |line| then Some(line)
    else if cpos == 0 then None
    else match LastSpaceAtOrBefore(line, cpos)
      case None => Some(line)
      case Some(p) => Some(line[..p])
  }

  /** Exactly the lines starting with '#' are skipped. */
  lemma StripCommentSkips(line: string)
    ensures StripComment(line).None? <==> |line| > 0 && line[0] == '#'
  {
    var cpos := IndexOf(line, '#');
    if |line| > 0 && line[0] == '#' {
      assert cpos == 0;
    }
  }

  /** A line without '#' is kept as it is. */
  lemma StripCommentPlain(line: string)
    requires '#' !in line
    ensures StripComment(line) == Some(line)
  {
    var cpos := IndexOf(line, '#');
    assert cpos == |line|;
  }

  /**
    A kept line with a '#' is cut at the last space before the first '#',
    dropping that space and everything after it; with no space before the
    '#' the whole line is kept, comment included.
  */
  lemma StripCommentCut(line: string, cpos: nat)
    requires cpos < |line| && line[cpos] == '#' && forall k :: 0 <= k < cpos ==> line[k] != '#'
    requires cpos > 0
    ensures StripComment(line).Some?
    ensures (StripComment(line).value == line && forall k :: 0 <= k < cpos ==> line[k] != ' ') ||
            (exists p :: 0 <= p < cpos && line[p] == ' ' && StripComment(line).value == line[..p] &&
                         forall k :: p < k < cpos ==> line[k] != ' ')
  {
    var i := IndexOf(line, '#');
    assert i == cpos;
    match LastSpaceAtOrBefore(line, cpos)
    case None =>
    case Some(p) =>
      assert p < cpos;
  }

  /**
    The comment handling as written rejects a documented cursor line: with no
    space before the '#', the comment is kept and the '#' is then an invalid
    character; and text between the last space and the '#' is dropped.
  */
  lemma StripCommentKeepsComment()
    ensures StripComment("x# tip") == Some("x# tip")
    ensures LoadCursor(["x# tip"]) == Err(InvalidCharacter('#'))
    ensures StripComment("x x# tip") == Some("x")
  {
    CommentKeptWhole();
    CommentFailsToLoad();
    CommentCutAtSpace();
  }

  lemma CommentKeptWhole()
    ensures StripComment("x# tip") == Some("x# tip")
  {
    assert IndexOf("x# tip", '#') == 1;
    assert LastSpaceAtOrBefore("x# tip", 1) == None;
  }

  lemma CommentFailsToLoad()
    ensures LoadCursor(["x# tip"]) == Err(InvalidCharacter('#'))
  {
    var lines := ["x# tip"];
    assert lines[..0] == [];
    assert Cells(lines) == [Cell('x', 0, 0), Cell('#', 1, 0), Cell(' ', 2, 0), Cell('t', 3, 0), Cell('i', 4, 0), Cell('p', 5, 0)];
    assert ScanFrom(Cells(lines), None) == ScanFrom(Cells(lines)[1..], None);
    assert Cells(lines)[1..][0].ch == '#';
    assert ScanFrom(Cells(lines)[1..], None) == Err(InvalidCharacter('#'));
    LoadCursorParts(lines);
  }

  lemma CommentCutAtSpace()
    ensures StripComment("x x# tip") == Some("x")
  {
    assert IndexOf("x x# tip", '#') == 3;
    assert LastSpaceAtOrBefore("x x# tip", 3) == Some(1);
    assert "x x# tip"[..1] == "x";
  }

  /** Removes trailing spaces. */
  function TrimRight(s: string): (r: string)
    ensures r <= s && (|r| == 0 || r[|r| - 1] != ' ')
    ensures forall k :: |r| <= k < |s| ==> s[k] == ' '
  {
    if |s| > 0 && s[|s| - 1] == ' ' then TrimRight(s[..|s| - 1]) else s
  }

  /**
    The comment handling the format's description calls for: a line starting
    with '#' is skipped, otherwise everything from the first '#' on is dropped
    together with the spaces before it.
  */
  function StripCommentFixed(line: string): (r: Option<string>)
  {
    var cpos := IndexOf(line, '#');
    if cpos == |line| then Some(line)
    else if cpos == 0 then None
    else Some(TrimRight(line[..cpos]))
  }

  /**
    The corrected handling never leaves a '#' in a kept line, keeps every
    character before the comment except the spaces right before it, and still
    skips exactly the lines starting with '#'.
  */
  lemma StripCommentFixedSpec(line: string)
    ensures StripCommentFixed(line).None? <==> |line| > 0 && line[0] == '#'
    ensures StripCommentFixed(line).Some? ==> '#' !in StripCommentFixed(line).value
    ensures StripCommentFixed(line).Some? && '#' !in line ==> StripCommentFixed(line).value == line
    ensures StripCommentFixed(line).Some? && '#' in line ==>
      var r := StripCommentFixed(line).value;
      var cpos := IndexOf(line, '#');
      r <= line && |r| <= cpos && (|r| == 0 || r[|r| - 1] != ' ') &&
      forall k :: |r| <= k < cpos ==> line[k] == ' '
  {
    var cpos := IndexOf(line, '#');
    FirstHash(line);
    if cpos < |line| && cpos > 0 {
      FixedCut(line, cpos);
    }
  }

  /** `IndexOf` finds a '#' exactly when there is one, and at 0 of a non-empty line exactly when the line starts with it. */
  lemma FirstHash(line: string)
    ensures IndexOf(line, '#') < |line| <==> '#' in line
    ensures IndexOf(line, '#') == 0 < |line| <==> |line| > 0 && line[0] == '#'
  {
    if '#' in line {
      var i :| 0 <= i < |line| && line[i] == '#';
      assert IndexOf(line, '#') <= i;
    }
    if |line| > 0 && line[0] == '#' {
      assert IndexOf(line, '#') == 0;
    }
  }

  /** With the first '#' at cpos > 0, the kept text is the part before it, trailing spaces removed. */
  lemma FixedCut(line: string, cpos: nat)
    requires 0 < cpos < |line| && cpos == IndexOf(line, '#')
    ensures StripCommentFixed(line) == Some(TrimRight(line[..cpos]))
    ensures '#' !in TrimRight(line[..cpos])
    ensures TrimRight(line[..cpos]) <= line && |TrimRight(line[..cpos])| <= cpos
    ensures forall k :: |TrimRight(line[..cpos])| <= k < cpos ==> line[k] == ' '
  {
    var r := TrimRight(line[..cpos]);
    assert forall k :: 0 <= k < |r| ==> r[k] == line[k];
  }

  /** On the comment lines the as-written handling mishandles, the corrected one keeps the pixels and drops the comment. */
  lemma StripCommentFixedExamples()
    ensures StripCommentFixed("x# tip") == Some("x")
    ensures StripCommentFixed("x x# tip") == Some("x x")
    ensures StripCommentFixed("x  # tip") == Some("x")
  {
    FixedNoSpace();
    FixedInnerSpace();
    FixedTrailingSpaces();
  }

  lemma FixedNoSpace()
    ensures StripCommentFixed("x# tip") == Some("x")
  {
    assert IndexOf("x# tip", '#') == 1;
    assert "x# tip"[..1] == "x";
    assert TrimRight("x") == "x";
  }

  lemma FixedInnerSpace()
    ensures StripCommentFixed("x x# tip") == Some("x x")
  {
    assert IndexOf("x x# tip", '#') == 3;
    assert "x x# tip"[..3] == "x x";
    assert TrimRight("x x") == "x x";
  }

  lemma FixedTrailingSpaces()
    ensures StripCommentFixed("x  # tip") == Some("x")
  {
    assert IndexOf("x  # tip", '#') == 3;
    assert "x  # tip"[..3] == "x  ";
    assert "x  "[..2] == "x " && "x "[..1] == "x";
    assert TrimRight("x") == "x";
    assert TrimRight("x ") == "x";
    assert TrimRight("x  ") == "x";
  }

  /** The lines that survive a comment handling `strip`, stripped. */
  function KeepLines(segs: seq<string>, strip: string -> Option<string>): (r: seq<string>)
    ensures |r| <= |segs|
    ensures forall j :: 0 <= j < |r| ==> exists i :: 0 <= i < |segs| && strip(segs[i]) == Some(r[j])
  {
    if |segs| == 0 then []
    else
      var rest := KeepLines(segs[1..], strip);
      assert forall i :: 1 <= i < |segs| ==> segs[1..][i - 1] == segs[i];
      match strip(segs[0])
      case None => rest
      case Some(l) =>
        assert forall j :: 1 <= j < |rest| + 1 ==> ([l] + rest)[j] == rest[j - 1];
        [l] + rest
  }

  /**
    `getline` until the stream is no longer good, so only lines ended by a
    newline count, each after the comment handling `strip`.
  */
  function ReadWith(text: string, strip: string -> Option<string>): (r: seq<string>)
    ensures |r| < |Split(text, '\n')|
    ensures '\n' !in text ==> r == []
    ensures forall j :: 0 <= j < |r| ==>
      exists i :: 0 <= i < |Split(text, '\n')| - 1 && strip(Split(text, '\n')[i]) == Some(r[j])
  {
    var segs := Split(text, '\n');
    assert '\n' !in text ==> segs == [text] by {
      if '\n' !in text { SplitNoSeparator(text, '\n'); }
    }
    var r := KeepLines(segs[..|segs| - 1], strip);
    assert forall i :: 0 <= i < |segs| - 1 ==> segs[..|segs| - 1][i] == segs[i];
    r
  }

  /** `loadCursor(istream)`'s reader, as written. */
  function ReadLines(text: string): (r: seq<string>)
    ensures |r| < |Split(text, '\n')|
    ensures '\n' !in text ==> r == []
    ensures forall j :: 0 <= j < |r| ==> exists i :: 0 <= i < |Split(text, '\n')| - 1 && r[j] <= Split(text, '\n')[i]
  {
    ReadWith(text, StripComment)
  }

  /** The reader with the corrected comment handling. */
  function ReadLinesFixed(text: string): seq<string>
  {
    ReadWith(text, StripCommentFixed)
  }

  /** Lines each followed by a newline. */
  function Terminate(lines: seq<string>): string
  {
    if |lines| == 0 then "" else lines[0] + "\n" + Terminate(lines[1..])
  }

  ghost predicate PlainLines(lines: seq<string>)
  {
    forall j :: 0 <= j < |lines| ==> '\n' !in lines[j] && '#' !in lines[j]
  }

  lemma {:induction false} SplitTerminated(lines: seq<string>, tail: string)
    requires forall j :: 0 <= j < |lines| ==> '\n' !in lines[j]
    requires '\n' !in tail
    ensures Split(Terminate(lines) + tail, '\n') == lines + [tail]
  {
    if |lines| == 0 {
      assert Terminate(lines) + tail == tail;
      SplitNoSeparator(tail, '\n');
    } else {
      var rest := Terminate(lines[1..]) + tail;
      assert Terminate(lines) + tail == lines[0] + ['\n'] + rest;
      SplitConcat(lines[0], '\n', rest);
      SplitTerminated(lines[1..], tail);
      assert lines == [lines[0]] + lines[1..];
    }
  }

  lemma {:induction false} KeepPlain(lines: seq<string>, strip: string -> Option<string>)
    requires forall j :: 0 <= j < |lines| ==> strip(lines[j]) == Some(lines[j])
    ensures KeepLines(lines, strip) == lines
  {
    if |lines| > 0 {
      KeepPlain(lines[1..], strip);
      assert lines == [lines[0]] + lines[1..];
    }
  }

  /** Both comment handlings keep a line without '#' as it is. */
  lemma PlainLinesKept(lines: seq<string>)
    requires PlainLines(lines)
    ensures forall j :: 0 <= j < |lines| ==> StripComment(lines[j]) == Some(lines[j])
    ensures forall j :: 0 <= j < |lines| ==> StripCommentFixed(lines[j]) == Some(lines[j])
  {
    forall j | 0 <= j < |lines|
      ensures StripComment(lines[j]) == Some(lines[j]) && StripCommentFixed(lines[j]) == Some(lines[j])
    {
      StripCommentPlain(lines[j]);
      StripCommentFixedSpec(lines[j]);
    }
  }

  /**
    Reading newline-terminated lines without comments gives them back, with
    either comment handling; an unterminated final line is dropped.
  */
  lemma ReadLinesRoundTrip(lines: seq<string>, tail: string)
    requires PlainLines(lines) && '\n' !in tail
    ensures ReadLines(Terminate(lines) + tail) == lines
    ensures ReadLinesFixed(Terminate(lines) + tail) == lines
  {
    SplitTerminated(lines, tail);
    assert (lines + [tail])[..|lines|] == lines;
    PlainLinesKept(lines);
    KeepPlain(lines, StripComment);
    KeepPlain(lines, StripCommentFixed);
  }

  /** No line the corrected handling keeps holds a '#'. */
  lemma {:induction false} KeepFixedDropsComments(segs: seq<string>)
    ensures forall j :: 0 <= j < |KeepLines(segs, StripCommentFixed)| ==> '#' !in KeepLines(segs, StripCommentFixed)[j]
  {
    if |segs| > 0 {
      KeepFixedDropsComments(segs[1..]);
      StripCommentFixedSpec(segs[0]);
    }
  }

  /**
    The corrected reader never hands a '#' to the cursor builder, and reads
    the documented comment line "x# tip" as the loadable line "x", where the
    reader as written fails on it.
  */
  lemma ReadLinesFixedDropsComments(text: string)
    ensures forall j :: 0 <= j < |ReadLinesFixed(text)| ==> '#' !in ReadLinesFixed(text)[j]
    ensures ReadLinesFixed("x# tip\n") == ["x"]
    ensures ReadLines("x# tip\n") == ["x# tip"]
    ensures LoadCursor(["x"]).Ok? && LoadCursor(["x# tip"]).Err?
  {
    var segs := Split(text, '\n');
    KeepFixedDropsComments(segs[..|segs| - 1]);
    CommentLineRead();
    CommentLineLoads();
  }

  /** How each reader reads the single line "x# tip". */
  lemma CommentLineRead()
    ensures ReadLinesFixed("x# tip\n") == ["x"]
    ensures ReadLines("x# tip\n") == ["x# tip"]
  {
    SplitTerminated(["x# tip"], "");
    assert Terminate(["x# tip"]) + "" == "x# tip\n";
    assert Split("x# tip\n", '\n')[..1] == ["x# tip"];
    StripCommentFixedExamples();
    assert StripComment("x# tip") == Some("x# tip") by {
      assert IndexOf("x# tip", '#') == 1;
      assert LastSpaceAtOrBefore("x# tip", 1) == None;
    }
    assert KeepLines(["x# tip"], StripCommentFixed) == ["x"] + KeepLines([], StripCommentFixed);
    assert KeepLines(["x# tip"], StripComment) == ["x# tip"] + KeepLines([], StripComment);
  }

  /** "x" loads and "x# tip" does not. */
  lemma CommentLineLoads()
    ensures LoadCursor(["x"]).Ok? && LoadCursor(["x# tip"]).Err?
  {
    StripCommentKeepsComment();
    SinglePixelLoads();
  }

  lemma SinglePixelLoads()
    ensures LoadCursor(["x"]).Ok?
  {
    var lines := ["x"];
    assert lines[..0] == [];
    assert Cells(lines) == [Cell('x', 0, 0)];
    assert ScanFrom([Cell('x', 0, 0)], None) == ScanFrom([], None);
  }

  // ---------------------------------------------------------------------
  // The arrow cursor
  // ---------------------------------------------------------------------

  /** `arrow_cursor` (mycursor.cc), one string per line. */
  const ArrowLines: seq<string> := [
    "X", "xx", "x.x", "x..x", "x...x", "x....x", "x.....x", "x......x", "x.......x", "x........x",
    "x.....xxxxx", "x..x..x", "xx x..x", "x   x..x", "    x..x", "     x..x", "     x..x", "      xx"]

  /** The arrow cursor's text reads back as its lines. */
  lemma ArrowRead()
    ensures ReadLines(Terminate(ArrowLines)) == ArrowLines
  {
    ArrowPlain();
    ReadLinesTerminated(ArrowLines);
  }

  lemma ArrowPlain()
    ensures PlainLines(ArrowLines)
  {
    forall j | 0 <= j < |ArrowLines| ensures '\n' !in ArrowLines[j] && '#' !in ArrowLines[j] {
      ArrowCharacters(j);
    }
  }

  /** Lines without newlines or '#', each terminated, read back as themselves. */
  lemma ReadLinesTerminated(lines: seq<string>)
    requires PlainLines(lines)
    ensures ReadLines(Terminate(lines)) == lines
  {
    ReadLinesRoundTrip(lines, "");
    assert Terminate(lines) + "" == Terminate(lines);
  }

  lemma ArrowWidth()
    ensures MaxLength(ArrowLines) == 11 && Width(ArrowLines) == 16
  {
    var lines := ArrowLines;
    var m := MaxLength(lines);
    assert |lines[10]| == 11;
    var j :| 0 <= j < |lines| && |lines[j]| == m;
    ArrowCharacters(j);
  }

  /** The arrow cursor builds into a 16 x 18 cursor with its hot spot at (0, 0), the tip of the arrow. */
  lemma ArrowCursor()
    ensures LoadCursor(ArrowLines).Ok?
    ensures LoadCursor(ArrowLines).value.width == 16 && LoadCursor(ArrowLines).value.height == 18
    ensures LoadCursor(ArrowLines).value.hotX == 0 && LoadCursor(ArrowLines).value.hotY == 0
  {
    var lines := ArrowLines;
    assert AllKnown(lines) by {
      forall j, c | 0 <= j < |lines| && 0 <= c < |lines[j]| ensures Known(lines[j][c]) {
        ArrowCharacters(j);
      }
    }
    assert UniqueHot(lines) by {
      forall j1, c1, j2, c2 | HotAt(lines, j1, c1) && HotAt(lines, j2, c2) ensures j1 == j2 && c1 == c2 {
        ArrowCharacters(j1);
        ArrowCharacters(j2);
      }
    }
    LoadCursorOk(lines);
    LoadCursorShape(lines);
    ArrowWidth();
    LoadCursorParts(lines);
    var cur := LoadCursor(lines).value;
    if HotAt(lines, cur.hotY, cur.hotX) {
      ArrowCharacters(cur.hotY);
    }
  }

  lemma ArrowCharacters(j: nat)
    requires j < |ArrowLines|
    ensures forall c :: 0 <= c < |ArrowLines[j]| ==> Known(ArrowLines[j][c])
    ensures forall c :: 0 <= c < |ArrowLines[j]| && IsHot(ArrowLines[j][c]) ==> j == 0 && c == 0
    ensures '\n' !in ArrowLines[j] && '#' !in ArrowLines[j]
    ensures |ArrowLines[j]| <= 11
  {
    if j < 9 {
      ArrowUpperCharacters(j);
    } else {
      ArrowLowerCharacters(j);
    }
  }

  lemma ArrowUpperCharacters(j: nat)
    requires j < 9
    ensures forall c :: 0 <= c < |ArrowLines[j]| ==> Known(ArrowLines[j][c])
    ensures forall c :: 0 <= c < |ArrowLines[j]| && IsHot(ArrowLines[j][c]) ==> j == 0 && c == 0
    ensures '\n' !in ArrowLines[j] && '#' !in ArrowLines[j]
    ensures |ArrowLines[j]| <= 11
  {
    if j == 0 {} else if j == 1 {} else if j == 2 {} else if j == 3 {} else if j == 4 {} else if j == 5 {}
    else if j == 6 {} else if j == 7 {} else {}
  }

  lemma ArrowLowerCharacters(j: nat)
    requires 9 <= j < |ArrowLines|
    ensures forall c :: 0 <= c < |ArrowLines[j]| ==> Known(ArrowLines[j][c])
    ensures forall c :: 0 <= c < |ArrowLines[j]| ==> !IsHot(ArrowLines[j][c])
    ensures '\n' !in ArrowLines[j] && '#' !in ArrowLines[j]
    ensures |ArrowLines[j]| <= 11
  {
    if j == 9 {} else if j == 10 {} else if j == 11 {}
    else if j == 12 {} else if j == 13 {} else if j == 14 {} else if j == 15 {} else if j == 16 {} else {}
  }

  /** `empty_cursor` (mycursor.cc): a single transparent hot-spot pixel, giving an 8 x 1 cursor with nothing drawn. */
  lemma EmptyCursor()
    ensures ReadLines("^\n") == ["^"]
    ensures LoadCursor(["^"]) == Ok(Cursor(8, 1, [0], [0], 0, 0))
  {
    EmptyCursorRead();
    EmptyCursorBuilt();
  }

  lemma EmptyCursorRead()
    ensures ReadLines("^\n") == ["^"]
  {
    ReadLinesRoundTrip(["^"], "");
    assert Terminate(["^"]) + "" == "^\n";
  }

  lemma EmptyCursorBuilt()
    ensures LoadCursor(["^"]) == Ok(Cursor(8, 1, [0], [0], 0, 0))
  {
    var lines := ["^"];
    assert lines[..0] == [];
    assert Cells(lines) == [Cell('^', 0, 0)];
    assert ScanFrom([Cell('^', 0, 0)], None) == ScanFrom([], Some((0, 0)));
    assert MaxLength(lines) == 1;
    assert Width(lines) == 8;
    assert Bits("^", 0, 1, false) == 0 && Bits("^", 0, 0, false) == 0;
    assert Bits("^", 0, 1, true) == 0 && Bits("^", 0, 0, true) == 0;
    assert Bitmap(lines, 1, false) == [0];
    assert Bitmap(lines, 1, true) == [0];
  }
}
