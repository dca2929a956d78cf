/**
  The row-pointer tables of png.hh: `input::read_image(pitch, height, flip)`
  and `output::write_image(image, pitch, height, flip)` hand libpng one
  pointer per row into a single buffer of `pitch * height` bytes, bottom
  row first when `flip` is set. Pointers are modelled as byte offsets into
  that buffer.
*/
module Png {

  /** The image row that table entry `i` points at. */
  function RowIndex(height: nat, flip: bool, i: nat): (k: nat)
    requires i < height
    ensures k < height
    ensures flip ==> k + i == height - 1
    ensures !flip ==> k == i
  {
    if flip then height - (i + 1) else i
  }

  /** The byte offset of table entry `i`. */
  function RowStart(pitch: nat, height: nat, flip: bool, i: nat): nat
    requires i < height
  {
    pitch * RowIndex(height, flip, i)
  }

  /** The loop of `read_image`: the buffer size and the row table. */
  method ReadImageRows(pitch: nat, height: nat, flip: bool) returns (size: nat, rows: seq<nat>)
    ensures size == pitch * height
    ensures |rows| == height
    ensures forall i :: 0 <= i < height ==> rows[i] == pitch * (if flip then height - 1 - i else i)
  {
    size := pitch * height;
    rows := [];
    var i := 0;
    while i < height
      invariant i <= height && |rows| == i
      invariant forall j :: 0 <= j < i ==> rows[j] == RowStart(pitch, height, flip, j)
    {
      rows := rows + [pitch * (if flip then height - (i + 1) else i)];
      i := i + 1;
    }
  }

  /** The loop of `write_image`. */
  method WriteImageRows(pitch: nat, height: nat, flip: bool) returns (rows: seq<nat>)
    ensures |rows| == height
    ensures forall i :: 0 <= i < height ==> rows[i] == pitch * (if flip then height - 1 - i else i)
  {
    rows := [];
    var i := 0;
    while i < height
      invariant i <= height && |rows| == i
      invariant forall j :: 0 <= j < i ==> rows[j] == RowStart(pitch, height, flip, j)
    {
      rows := rows + [pitch * (if flip then height - (i + 1) else i)];
      i := i + 1;
    }
  }

  /** The table both loops build. */
  function Rows(pitch: nat, height: nat, flip: bool): (rows: seq<nat>)
    ensures |rows| == height
  {
    seq(height, i requires 0 <= i < height => RowStart(pitch, height, flip, i))
  }

  /** Reading and writing with the same flag use the same table, so a written image reads back in the same row order. */
  method ReadWriteAgree(pitch: nat, height: nat, flip: bool) returns (read: seq<nat>, written: seq<nat>)
    ensures read == written == Rows(pitch, height, flip)
  {
    var size;
    size, read := ReadImageRows(pitch, height, flip);
    written := WriteImageRows(pitch, height, flip);
  }

  lemma MulStep(pitch: nat, k: nat, height: nat)
    requires k < height
    ensures pitch * k + pitch <= pitch * height
  {
    var d: nat := height - (k + 1);
    assert pitch * height == pitch * k + pitch + pitch * d;
    assert pitch * d >= 0;
  }

  /** Every row of `pitch` bytes lies inside the `pitch * height` buffer, starting at most at `pitch * (height - 1)`. */
  lemma RowsFit(pitch: nat, height: nat, flip: bool, i: nat)
    requires i < height
    ensures 0 <= Rows(pitch, height, flip)[i] <= pitch * (height - 1)
    ensures Rows(pitch, height, flip)[i] + pitch <= pitch * height
  {
    var k := RowIndex(height, flip, i);
    MulStep(pitch, k, height);
    assert pitch * (height - 1) + pitch == pitch * height;
  }

  lemma MulInjective(pitch: nat, a: nat, b: nat)
    requires pitch > 0 && a != b
    ensures pitch * a != pitch * b
  {
    if a < b {
      assert pitch * b - pitch * a == pitch * (b - a);
    } else {
      assert pitch * a - pitch * b == pitch * (a - b);
    }
  }

  /**
    The table is the unflipped one, `pitch * k` for row k, read through the
    row permutation `RowIndex`, which is its own inverse; with a non-zero
    pitch the entries are distinct, so each row of the image has exactly one.
  */
  lemma RowsPermutation(pitch: nat, height: nat, flip: bool)
    ensures forall i :: 0 <= i < height ==> Rows(pitch, height, flip)[i] == Rows(pitch, height, false)[RowIndex(height, flip, i)]
    ensures forall i :: 0 <= i < height ==> RowIndex(height, flip, RowIndex(height, flip, i)) == i
    ensures pitch > 0 ==> forall i, j :: 0 <= i < j < height ==> Rows(pitch, height, flip)[i] != Rows(pitch, height, flip)[j]
  {
    if pitch > 0 {
      forall i, j | 0 <= i < j < height ensures Rows(pitch, height, flip)[i] != Rows(pitch, height, flip)[j] {
        MulInjective(pitch, RowIndex(height, flip, i), RowIndex(height, flip, j));
      }
    }
  }

  /** The flipped table is the unflipped one reversed. */
  lemma FlipReverses(pitch: nat, height: nat, i: nat)
    requires i < height
    ensures Rows(pitch, height, true)[i] == Rows(pitch, height, false)[height - 1 - i]
  {
  }
}
