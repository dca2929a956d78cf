/**
  Direct pixel access to a surface (surfacepixels.hh): the byte offset of a
  pixel, the masked 32-bit read and write through that offset, and the
  lock/unlock pairing of the accessor objects.

  Surface memory is a sequence of bytes and a pixel access loads or stores
  the 32-bit word at the pixel's offset, in little-endian byte order.
*/
module Pixels {
  import opened Wrappers

  /** `y * pitch + x * BytesPerPixel`. */
  function Offset(pitch: int, bytesPerPixel: int, x: int, y: int): int
  {
    y * pitch + x * bytesPerPixel
  }

  /** A pixel whose bytes end within the pitch lies in its own row's `pitch` bytes. */
  lemma OffsetInRow(pitch: int, bytesPerPixel: int, x: int, y: int)
    requires 0 <= x && 0 <= y && 0 <= bytesPerPixel && (x + 1) * bytesPerPixel <= pitch
    ensures y * pitch <= Offset(pitch, bytesPerPixel, x, y)
    ensures Offset(pitch, bytesPerPixel, x, y) + bytesPerPixel <= (y + 1) * pitch
  {
    assert x * bytesPerPixel >= 0 by {
      if bytesPerPixel > 0 { MulNonNegative(x, bytesPerPixel); }
    }
    assert (x + 1) * bytesPerPixel == x * bytesPerPixel + bytesPerPixel;
    assert (y + 1) * pitch == y * pitch + pitch;
  }

  /** Each row of `width` pixels takes at most `pitch` bytes. */
  predicate RowsFit(pitch: int, bytesPerPixel: int, width: int)
  {
    bytesPerPixel > 0 && width * bytesPerPixel <= pitch
  }

  lemma MulLess(a: int, b: int, c: int)
    requires 0 <= a < b && c > 0
    ensures a * c + c <= b * c
  {
    var d := b - a - 1;
    assert b * c == a * c + c + d * c;
    MulNonNegative(d, c);
  }

  lemma MulNonNegative(d: int, c: int)
    requires d >= 0 && c > 0
    ensures d * c >= 0
  {
  }

  /**
    Different pixels of a surface whose rows fit get byte ranges
    [offset, offset + BytesPerPixel) that do not overlap.
  */
  lemma OffsetsDisjoint(pitch: int, bytesPerPixel: int, width: int, x: int, y: int, x': int, y': int)
    requires RowsFit(pitch, bytesPerPixel, width)
    requires 0 <= x < width && 0 <= x' < width && 0 <= y && 0 <= y'
    requires (x, y) != (x', y')
    ensures Offset(pitch, bytesPerPixel, x, y) + bytesPerPixel <= Offset(pitch, bytesPerPixel, x', y') ||
            Offset(pitch, bytesPerPixel, x', y') + bytesPerPixel <= Offset(pitch, bytesPerPixel, x, y)
  {
    if y == y' {
      if x < x' { MulLess(x, x', bytesPerPixel); } else { MulLess(x', x, bytesPerPixel); }
    } else if y < y' {
      MulLess(y, y', pitch);
      MulLess(x, width, bytesPerPixel);
    } else {
      MulLess(y', y, pitch);
      MulLess(x', width, bytesPerPixel);
    }
  }

  // ---------------------------------------------------------------------
  // Masks
  // ---------------------------------------------------------------------

  /** The read mask `(Uint32(1) << BitsPerPixel) - 1`; a shift by 32 is undefined, so reads need fewer bits. */
  function ReadMask(bitsPerPixel: bv8): bv32
    requires bitsPerPixel < 32
  {
    (1 as bv32 << bitsPerPixel) - 1
  }

  /** The write mask `~Uint32(0) >> (32 - BitsPerPixel)`. */
  function WriteMask(bitsPerPixel: bv8): bv32
    requires 1 <= bitsPerPixel <= 32
  {
    !(0 as bv32) >> (32 - bitsPerPixel)
  }

  function Pow2(n: nat): (r: nat)
    ensures r > 0
  {
    if n == 0 then 1 else 2 * Pow2(n - 1)
  }

  lemma ShiftStep(b: bv8)
    requires 1 <= b < 32
    ensures (1 as bv32 << b) as int == 2 * (1 as bv32 << (b - 1)) as int
  {
    assert 1 as bv32 << b == (1 as bv32 << (b - 1)) * 2;
  }

  lemma {:induction false} PowShift(b: bv8)
    requires b < 32
    ensures (1 as bv32 << b) as int == Pow2(b as nat)
    decreases b
  {
    if b > 0 {
      PowShift(b - 1);
      ShiftStep(b);
    }
  }

  /** The read mask is 2^BitsPerPixel - 1: the low BitsPerPixel bits. */
  lemma ReadMaskValue(bitsPerPixel: bv8)
    requires bitsPerPixel < 32
    ensures ReadMask(bitsPerPixel) as int == Pow2(bitsPerPixel as nat) - 1
  {
    PowShift(bitsPerPixel);
  }

  /** For 1 to 31 bits per pixel the read and the write use the same mask. */
  lemma MasksAgree(bitsPerPixel: bv8)
    requires 1 <= bitsPerPixel <= 31
    ensures ReadMask(bitsPerPixel) == WriteMask(bitsPerPixel)
  {
  }

  // ---------------------------------------------------------------------
  // Word-level read and write
  // ---------------------------------------------------------------------

  /** The bits of `color` under `m` with the bits of `word` elsewhere. */
  function Splice(word: bv32, color: bv32, m: bv32): bv32
  {
    (color & m) | (word & !m)
  }

  /**
    `const_reference::operator Uint32`: the pixel's bits of the word, a value
    below 2^BitsPerPixel that agrees with the word on those bits.
  */
  function ReadWord(word: bv32, bitsPerPixel: bv8): (r: bv32)
    requires bitsPerPixel < 32
    ensures r & !ReadMask(bitsPerPixel) == 0
    ensures r & ReadMask(bitsPerPixel) == word & ReadMask(bitsPerPixel)
    ensures r <= ReadMask(bitsPerPixel)
  {
    var m := ReadMask(bitsPerPixel);
    AndBits(word, m);
    word & m
  }

  /** `reference::operator=`: the colour's pixel bits replace the word's, the rest of the word stays (`WriteWordBits`). */
  function WriteWord(word: bv32, color: bv32, bitsPerPixel: bv8): bv32
    requires 1 <= bitsPerPixel <= 32
  {
    Splice(word, color, WriteMask(bitsPerPixel))
  }

  lemma AndBits(word: bv32, m: bv32)
    ensures (word & m) & !m == 0 && (word & m) & m == word & m
    ensures word & m <= m
  {
  }

  lemma SpliceOutside(word: bv32, color: bv32, m: bv32)
    ensures Splice(word, color, m) & !m == word & !m
  {
  }

  lemma SpliceInside(word: bv32, color: bv32, m: bv32)
    ensures Splice(word, color, m) & m == color & m
  {
  }

  /**
    A write changes no bit outside the write mask, and under the mask the word
    afterwards holds the colour.
  */
  lemma WriteWordBits(word: bv32, color: bv32, bitsPerPixel: bv8)
    requires 1 <= bitsPerPixel <= 32
    ensures WriteWord(word, color, bitsPerPixel) & !WriteMask(bitsPerPixel) == word & !WriteMask(bitsPerPixel)
    ensures WriteWord(word, color, bitsPerPixel) & WriteMask(bitsPerPixel) == color & WriteMask(bitsPerPixel)
  {
    SpliceOutside(word, color, WriteMask(bitsPerPixel));
    SpliceInside(word, color, WriteMask(bitsPerPixel));
  }

  lemma SpliceCongruence(a: bv32, b: bv32, color: bv32, m: bv32)
    requires a & !m == b & !m
    ensures Splice(a, color, m) == Splice(b, color, m)
  {
  }

  /** Reading after a write gives the written colour cut to the pixel's bits. */
  lemma ReadAfterWrite(word: bv32, color: bv32, bitsPerPixel: bv8)
    requires 1 <= bitsPerPixel <= 31
    ensures ReadWord(WriteWord(word, color, bitsPerPixel), bitsPerPixel) == ReadWord(color, bitsPerPixel)
  {
    ReadAfterWriteMasked(word, color, bitsPerPixel);
  }

  lemma ReadAfterWriteMasked(word: bv32, color: bv32, bitsPerPixel: bv8)
    requires 1 <= bitsPerPixel <= 31
    ensures WriteWord(word, color, bitsPerPixel) & ReadMask(bitsPerPixel) == color & ReadMask(bitsPerPixel)
  {
    MasksAgree(bitsPerPixel);
    SpliceInside(word, color, WriteMask(bitsPerPixel));
  }

  lemma SpliceTwice(word: bv32, c1: bv32, c2: bv32, m: bv32)
    ensures Splice(Splice(word, c1, m), c2, m) == Splice(word, c2, m)
  {
    SpliceOutside(word, c1, m);
    SpliceCongruence(Splice(word, c1, m), word, c2, m);
  }

  /** A second write replaces the first. */
  lemma WriteWordLastWins(word: bv32, c1: bv32, c2: bv32, bitsPerPixel: bv8)
    requires 1 <= bitsPerPixel <= 32
    ensures WriteWord(WriteWord(word, c1, bitsPerPixel), c2, bitsPerPixel) == WriteWord(word, c2, bitsPerPixel)
  {
    SpliceTwice(word, c1, c2, WriteMask(bitsPerPixel));
  }

  /** Writing the same colour twice is writing it once. */
  lemma WriteWordIdempotent(word: bv32, color: bv32, bitsPerPixel: bv8)
    requires 1 <= bitsPerPixel <= 32
    ensures WriteWord(WriteWord(word, color, bitsPerPixel), color, bitsPerPixel) == WriteWord(word, color, bitsPerPixel)
  {
    WriteWordLastWins(word, color, color, bitsPerPixel);
  }

  // ---------------------------------------------------------------------
  // Surface memory
  // ---------------------------------------------------------------------

  /** The 32-bit word made of four bytes, least significant first. */
  function Word(b0: bv8, b1: bv8, b2: bv8, b3: bv8): bv32
  {
    (b0 as bv32) | ((b1 as bv32) << 8) | ((b2 as bv32) << 16) | ((b3 as bv32) << 24)
  }

  /** The word at byte `at` of surface memory. */
  function LoadWord(mem: seq<bv8>, at: nat): bv32
    requires at + 4 <= |mem|
  {
    Word(mem[at], mem[at + 1], mem[at + 2], mem[at + 3])
  }

  /** Byte k of a word, least significant first. */
  function ByteOf(w: bv32, k: nat): bv8
    requires k < 4
  {
    if k == 0 then (w & 0xFF) as bv8
    else if k == 1 then ((w >> 8) & 0xFF) as bv8
    else if k == 2 then ((w >> 16) & 0xFF) as bv8
    else (w >> 24) as bv8
  }

  function StoreWord(mem: seq<bv8>, at: nat, w: bv32): (r: seq<bv8>)
    requires at + 4 <= |mem|
    ensures |r| == |mem|
  {
    mem[at := ByteOf(w, 0)][at + 1 := ByteOf(w, 1)][at + 2 := ByteOf(w, 2)][at + 3 := ByteOf(w, 3)]
  }

  lemma WordBytes(w: bv32)
    ensures Word(ByteOf(w, 0), ByteOf(w, 1), ByteOf(w, 2), ByteOf(w, 3)) == w
  {
  }

  lemma BytesWord(b0: bv8, b1: bv8, b2: bv8, b3: bv8)
    ensures var w := Word(b0, b1, b2, b3);
      ByteOf(w, 0) == b0 && ByteOf(w, 1) == b1 && ByteOf(w, 2) == b2 && ByteOf(w, 3) == b3
  {
  }

  /** Loading a stored word gives it back, and the store touches only its four bytes. */
  lemma LoadStore(mem: seq<bv8>, at: nat, w: bv32)
    requires at + 4 <= |mem|
    ensures LoadWord(StoreWord(mem, at, w), at) == w
    ensures forall k :: 0 <= k < 4 ==> StoreWord(mem, at, w)[at + k] == ByteOf(w, k)
    ensures forall k :: 0 <= k < |mem| && (k < at || at + 4 <= k) ==> StoreWord(mem, at, w)[k] == mem[k]
  {
    var r := StoreWord(mem, at, w);
    assert r[at] == ByteOf(w, 0) && r[at + 1] == ByteOf(w, 1) && r[at + 2] == ByteOf(w, 2) && r[at + 3] == ByteOf(w, 3);
    WordBytes(w);
  }

  /** A surface's layout: `pitch`, `BytesPerPixel` and `BitsPerPixel` (the last two are `Uint8`). */
  datatype Format = Format(pitch: int, bytesPerPixel: bv8, bitsPerPixel: bv8)

  /** The formats whose pixels fill whole bytes. */
  predicate Packed(f: Format)
  {
    1 <= f.bytesPerPixel <= 4 && f.bitsPerPixel == 8 * f.bytesPerPixel
  }

  /** The low `bytes` bytes of a word. */
  function ByteMask(bytes: bv8): bv32
    requires 1 <= bytes <= 4
  {
    if bytes == 1 then 0xFF else if bytes == 2 then 0xFFFF else if bytes == 3 then 0xFF_FFFF else 0xFFFF_FFFF
  }

  /** In a packed format both masks select exactly the pixel's own bytes. */
  lemma PackedMasks(bytes: bv8)
    requires 1 <= bytes <= 4
    ensures WriteMask(8 * bytes) == ByteMask(bytes)
    ensures bytes < 4 ==> ReadMask(8 * bytes) == ByteMask(bytes)
  {
  }

  function PixelAt(f: Format, x: int, y: int): int
  {
    Offset(f.pitch, f.bytesPerPixel as int, x, y)
  }

  /** Where pixel (x, y) may be accessed: its whole 32-bit word lies inside the surface memory. */
  predicate InMemory(mem: seq<bv8>, f: Format, x: int, y: int)
  {
    0 <= PixelAt(f, x, y) && PixelAt(f, x, y) + 4 <= |mem|
  }

  /** `pixels(x, y)` read as a `Uint32`. */
  function ReadPixel(mem: seq<bv8>, f: Format, x: int, y: int): bv32
    requires f.bitsPerPixel < 32 && InMemory(mem, f, x, y)
  {
    ReadWord(LoadWord(mem, PixelAt(f, x, y)), f.bitsPerPixel)
  }

  /** `pixels(x, y) = color`. */
  function WritePixel(mem: seq<bv8>, f: Format, x: int, y: int, color: bv32): (r: seq<bv8>)
    requires 1 <= f.bitsPerPixel <= 32 && InMemory(mem, f, x, y)
    ensures |r| == |mem|
  {
    var at := PixelAt(f, x, y);
    StoreWord(mem, at, WriteWord(LoadWord(mem, at), color, f.bitsPerPixel))
  }

  /** Splicing under the low `bytes` bytes keeps the bytes above them. */
  lemma SpliceHighBytes(w: bv32, c: bv32, bytes: bv8, k: nat)
    requires 1 <= bytes <= 4 && bytes as nat <= k < 4
    ensures ByteOf(Splice(w, c, ByteMask(bytes)), k) == ByteOf(w, k)
  {
    if bytes == 1 {
      SpliceHighBytes1(w, c, k);
    } else if bytes == 2 {
      SpliceHighBytes2(w, c, k);
    } else {
      SpliceHighBytes3(w, c);
    }
  }

  lemma SpliceHighBytes1(w: bv32, c: bv32, k: nat)
    requires 1 <= k < 4
    ensures ByteOf(Splice(w, c, 0xFF), k) == ByteOf(w, k)
  {
  }

  lemma SpliceHighBytes2(w: bv32, c: bv32, k: nat)
    requires 2 <= k < 4
    ensures ByteOf(Splice(w, c, 0xFFFF), k) == ByteOf(w, k)
  {
  }

  lemma SpliceHighBytes3(w: bv32, c: bv32)
    ensures ByteOf(Splice(w, c, 0xFF_FFFF), 3) == ByteOf(w, 3)
  {
  }

  /**
    In a packed format, writing a pixel changes only that pixel's own bytes,
    even though the store goes through a whole 32-bit word.
  */
  lemma WritePixelLocal(mem: seq<bv8>, f: Format, x: int, y: int, color: bv32)
    requires Packed(f) && InMemory(mem, f, x, y)
    ensures var at := PixelAt(f, x, y);
      forall k :: 0 <= k < |mem| && (k < at || at + f.bytesPerPixel as int <= k) ==> WritePixel(mem, f, x, y, color)[k] == mem[k]
  {
    var at := PixelAt(f, x, y);
    var w := WriteWord(LoadWord(mem, at), color, f.bitsPerPixel);
    WordKeepsHighBytes(mem, at, color, f.bytesPerPixel, w);
    StoreKeepsBytes(mem, at, w, f.bytesPerPixel as nat);
  }

  /** A store that writes back the bytes it read from position `n` up changes only the first `n` bytes. */
  lemma StoreKeepsBytes(mem: seq<bv8>, at: nat, w: bv32, n: nat)
    requires at + 4 <= |mem| && n <= 4
    requires forall k :: n <= k < 4 ==> ByteOf(w, k) == mem[at + k]
    ensures forall k :: 0 <= k < |mem| && (k < at || at + n <= k) ==> StoreWord(mem, at, w)[k] == mem[k]
  {
    LoadStore(mem, at, w);
  }

  /** A packed write `w` of the word loaded at `at` keeps the loaded bytes above the pixel's own. */
  lemma WordKeepsHighBytes(mem: seq<bv8>, at: nat, color: bv32, bytes: bv8, w: bv32)
    requires at + 4 <= |mem| && 1 <= bytes <= 4
    requires w == WriteWord(LoadWord(mem, at), color, 8 * bytes)
    ensures forall k :: bytes as nat <= k < 4 ==> ByteOf(w, k) == mem[at + k]
  {
    var prev := LoadWord(mem, at);
    BytesWord(mem[at], mem[at + 1], mem[at + 2], mem[at + 3]);
    forall k | bytes as nat <= k < 4 ensures ByteOf(w, k) == mem[at + k] {
      WriteKeepsHighBytes(prev, color, bytes, k);
    }
  }

  /** In a packed format a write keeps the bytes of the word above the pixel's own. */
  lemma WriteKeepsHighBytes(word: bv32, color: bv32, bytes: bv8, k: nat)
    requires 1 <= bytes <= 4 && bytes as nat <= k < 4
    ensures ByteOf(WriteWord(word, color, 8 * bytes), k) == ByteOf(word, k)
  {
    PackedMasks(bytes);
    SpliceHighBytes(word, color, bytes, k);
  }

  /** The low 1, 2 or 3 bytes of a word are the word of those bytes alone. */
  lemma LowBytes1(b0: bv8, b1: bv8, b2: bv8, b3: bv8)
    ensures Word(b0, b1, b2, b3) & 0xFF == Word(b0, 0, 0, 0)
  {
  }

  lemma LowBytes2(b0: bv8, b1: bv8, b2: bv8, b3: bv8)
    ensures Word(b0, b1, b2, b3) & 0xFFFF == Word(b0, b1, 0, 0)
  {
  }

  lemma LowBytes3(b0: bv8, b1: bv8, b2: bv8, b3: bv8)
    ensures Word(b0, b1, b2, b3) & 0xFF_FFFF == Word(b0, b1, b2, 0)
  {
  }

  /** A packed read depends only on the pixel's own bytes. */
  lemma ReadPixelOwnBytes(mem: seq<bv8>, mem': seq<bv8>, f: Format, x: int, y: int)
    requires Packed(f) && f.bitsPerPixel < 32 && InMemory(mem, f, x, y) && InMemory(mem', f, x, y)
    requires var at := PixelAt(f, x, y);
      forall k :: at <= k < at + f.bytesPerPixel as int ==> mem[k] == mem'[k]
    ensures ReadPixel(mem, f, x, y) == ReadPixel(mem', f, x, y)
  {
    var at := PixelAt(f, x, y);
    var b := f.bytesPerPixel;
    PackedMasks(b);
    assert mem[at] == mem'[at];
    if b == 1 {
      LowBytes1(mem[at], mem[at + 1], mem[at + 2], mem[at + 3]);
      LowBytes1(mem'[at], mem'[at + 1], mem'[at + 2], mem'[at + 3]);
    } else if b == 2 {
      assert mem[at + 1] == mem'[at + 1];
      LowBytes2(mem[at], mem[at + 1], mem[at + 2], mem[at + 3]);
      LowBytes2(mem'[at], mem'[at + 1], mem'[at + 2], mem'[at + 3]);
    } else {
      assert mem[at + 1] == mem'[at + 1] && mem[at + 2] == mem'[at + 2];
      LowBytes3(mem[at], mem[at + 1], mem[at + 2], mem[at + 3]);
      LowBytes3(mem'[at], mem'[at + 1], mem'[at + 2], mem'[at + 3]);
    }
  }

  /**
    On a packed surface whose rows fit, a pixel reads back as the colour
    written to it, cut to its bits, and a write to one pixel leaves every
    other pixel's value as it was.
  */
  lemma WritePixelThenRead(mem: seq<bv8>, f: Format, width: int, x: int, y: int, x': int, y': int, color: bv32)
    requires Packed(f) && f.bitsPerPixel < 32 && RowsFit(f.pitch, f.bytesPerPixel as int, width)
    requires 0 <= x < width && 0 <= x' < width && 0 <= y && 0 <= y'
    requires InMemory(mem, f, x, y) && InMemory(mem, f, x', y')
    ensures ReadPixel(WritePixel(mem, f, x, y, color), f, x, y) == ReadWord(color, f.bitsPerPixel)
    ensures (x', y') != (x, y) ==> ReadPixel(WritePixel(mem, f, x', y', color), f, x, y) == ReadPixel(mem, f, x, y)
  {
    var at := PixelAt(f, x, y);
    var w := WriteWord(LoadWord(mem, at), color, f.bitsPerPixel);
    LoadStore(mem, at, w);
    ReadAfterWrite(LoadWord(mem, at), color, f.bitsPerPixel);
    if (x', y') != (x, y) {
      OffsetsDisjoint(f.pitch, f.bytesPerPixel as int, width, x, y, x', y');
      WritePixelLocal(mem, f, x', y', color);
      ReadPixelOwnBytes(mem, WritePixel(mem, f, x', y', color), f, x, y);
    }
  }

  // ---------------------------------------------------------------------
  // Locking
  // ---------------------------------------------------------------------

  type SurfaceRef = nat

  /**
    The accessor objects alive, one slot each (None once destroyed), and the
    lock count SDL keeps per surface.
  */
  datatype Locks = Locks(handles: seq<Option<SurfaceRef>>, count: map<SurfaceRef, int>)

  /** Whether SDL_MUSTLOCK holds for a surface. */
  type MustLock = SurfaceRef -> bool

  function CountOf(m: map<SurfaceRef, int>, s: SurfaceRef): int
  {
    if s in m then m[s] else 0
  }

  function Lock(st: Locks, mustLock: MustLock, s: SurfaceRef): (r: Locks)
  {
    if mustLock(s) then st.(count := st.count[s := CountOf(st.count, s) + 1]) else st
  }

  function Unlock(st: Locks, mustLock: MustLock, s: SurfaceRef): (r: Locks)
  {
    if mustLock(s) then st.(count := st.count[s := CountOf(st.count, s) - 1]) else st
  }

  /** The accessor operations. */
  datatype Op =
    | Construct(s: SurfaceRef)       // explicit SurfacePixels(surface)
    | CopyOf(h: nat)                 // SurfacePixels(const SurfacePixels &)
    | Assign(h: nat, from: nat)      // operator=
    | Destroy(h: nat)                // ~SurfacePixels

  predicate Live(st: Locks, h: nat) { h < |st.handles| && st.handles[h].Some? }

  /** Operations on accessors that are still alive. */
  predicate Applicable(st: Locks, op: Op)
  {
    match op
    case Construct(_) => true
    case CopyOf(h) => Live(st, h)
    case Assign(h, from) => Live(st, h) && Live(st, from)
    case Destroy(h) => Live(st, h)
  }

  /**
    One accessor operation: a new accessor takes the next slot, an assignment
    or destruction changes only its own slot, and only surfaces that must be
    locked have their counts changed.
  */
  function Apply(st: Locks, mustLock: MustLock, op: Op): (r: Locks)
    requires Applicable(st, op)
    ensures |r.handles| == |st.handles| + (if op.Construct? || op.CopyOf? then 1 else 0)
    ensures forall k :: 0 <= k < |st.handles| && !((op.Assign? || op.Destroy?) && k == op.h) ==> r.handles[k] == st.handles[k]
    ensures op.Construct? ==> r.handles[|st.handles|] == Some(op.s)
    ensures op.CopyOf? ==> r.handles[|st.handles|] == st.handles[op.h]
    ensures op.Assign? ==> r.handles[op.h] == st.handles[op.from]
    ensures op.Destroy? ==> !Live(r, op.h)
    ensures forall s :: !mustLock(s) ==> CountOf(r.count, s) == CountOf(st.count, s)
  {
    match op
    case Construct(s) =>
      Lock(st.(handles := st.handles + [Some(s)]), mustLock, s)
    case CopyOf(h) =>
      var s := st.handles[h].value;
      Lock(st.(handles := st.handles + [Some(s)]), mustLock, s)
    case Assign(h, from) =>
      // unlock the old surface first, then lock the new one: assigning an accessor to itself keeps one lock
      var prev := st.handles[h].value;
      var s := st.handles[from].value;
      var u := Unlock(st, mustLock, prev);
      Lock(u.(handles := u.handles[h := Some(s)]), mustLock, s)
    case Destroy(h) =>
      var s := st.handles[h].value;
      var u := Unlock(st, mustLock, s);
      u.(handles := u.handles[h := None])
  }

  /** Live accessors on a surface. */
  function Holders(handles: seq<Option<SurfaceRef>>, s: SurfaceRef): (n: nat)
    ensures n <= |handles|
  {
    if |handles| == 0 then 0
    else Holders(handles[..|handles| - 1], s) + (if handles[|handles| - 1] == Some(s) then 1 else 0)
  }

  /** Every surface that must be locked is locked once per live accessor on it; others are never locked. */
  ghost predicate Balanced(st: Locks, mustLock: MustLock)
  {
    forall s :: CountOf(st.count, s) == (if mustLock(s) then Holders(st.handles, s) else 0)
  }

  lemma {:induction false} HoldersAppend(handles: seq<Option<SurfaceRef>>, x: Option<SurfaceRef>, s: SurfaceRef)
    ensures Holders(handles + [x], s) == Holders(handles, s) + (if x == Some(s) then 1 else 0)
  {
    assert (handles + [x])[..|handles|] == handles;
  }

  lemma {:induction false} HoldersUpdate(handles: seq<Option<SurfaceRef>>, h: nat, x: Option<SurfaceRef>, s: SurfaceRef)
    requires h < |handles|
    ensures Holders(handles[h := x], s) ==
      Holders(handles, s) - (if handles[h] == Some(s) then 1 else 0) + (if x == Some(s) then 1 else 0)
    decreases |handles|
  {
    var n := |handles| - 1;
    var u := handles[h := x];
    if h < n {
      HoldersUpdate(handles[..n], h, x, s);
      assert u[..n] == handles[..n][h := x];
    } else {
      assert u[..n] == handles[..n];
    }
  }

  /** Every accessor operation keeps the lock counts balanced. */
  lemma ApplyBalanced(st: Locks, mustLock: MustLock, op: Op)
    requires Applicable(st, op) && Balanced(st, mustLock)
    ensures Balanced(Apply(st, mustLock, op), mustLock)
    ensures |Apply(st, mustLock, op).handles| == |st.handles| + (if op.Construct? || op.CopyOf? then 1 else 0)
  {
    match op
    case Construct(_) => AppendBalanced(st, mustLock, op);
    case CopyOf(_) => AppendBalanced(st, mustLock, op);
    case Assign(_, _) => AssignBalanced(st, mustLock, op);
    case Destroy(_) => DestroyBalanced(st, mustLock, op);
  }

  lemma AppendBalanced(st: Locks, mustLock: MustLock, op: Op)
    requires Applicable(st, op) && Balanced(st, mustLock) && (op.Construct? || op.CopyOf?)
    ensures Balanced(Apply(st, mustLock, op), mustLock)
  {
    var r := Apply(st, mustLock, op);
    var s0 := if op.Construct? then op.s else st.handles[op.h].value;
    forall s ensures CountOf(r.count, s) == (if mustLock(s) then Holders(r.handles, s) else 0) {
      HoldersAppend(st.handles, Some(s0), s);
    }
  }

  lemma AssignBalanced(st: Locks, mustLock: MustLock, op: Op)
    requires Applicable(st, op) && Balanced(st, mustLock) && op.Assign?
    ensures Balanced(Apply(st, mustLock, op), mustLock)
  {
    var r := Apply(st, mustLock, op);
    var s0 := st.handles[op.from].value;
    forall s ensures CountOf(r.count, s) == (if mustLock(s) then Holders(r.handles, s) else 0) {
      HoldersUpdate(st.handles, op.h, Some(s0), s);
    }
  }

  lemma DestroyBalanced(st: Locks, mustLock: MustLock, op: Op)
    requires Applicable(st, op) && Balanced(st, mustLock) && op.Destroy?
    ensures Balanced(Apply(st, mustLock, op), mustLock)
  {
    var r := Apply(st, mustLock, op);
    forall s ensures CountOf(r.count, s) == (if mustLock(s) then Holders(r.handles, s) else 0) {
      HoldersUpdate(st.handles, op.h, None, s);
    }
  }

  /** Runs operations in order; stops at the first one on a dead accessor. */
  function Run(st: Locks, mustLock: MustLock, ops: seq<Op>): Locks
    decreases |ops|
  {
    if |ops| == 0 || !Applicable(st, ops[0]) then st else Run(Apply(st, mustLock, ops[0]), mustLock, ops[1..])
  }

  /** Starting with no accessors and no locks, the counts stay balanced whatever the accessors do. */
  lemma {:induction false} RunBalanced(st: Locks, mustLock: MustLock, ops: seq<Op>)
    requires Balanced(st, mustLock)
    ensures Balanced(Run(st, mustLock, ops), mustLock)
    decreases |ops|
  {
    if |ops| > 0 && Applicable(st, ops[0]) {
      ApplyBalanced(st, mustLock, ops[0]);
      RunBalanced(Apply(st, mustLock, ops[0]), mustLock, ops[1..]);
    }
  }

  lemma {:induction false} NoHolders(handles: seq<Option<SurfaceRef>>, s: SurfaceRef)
    requires forall k :: 0 <= k < |handles| ==> handles[k].None?
    ensures Holders(handles, s) == 0
  {
    if |handles| > 0 {
      NoHolders(handles[..|handles| - 1], s);
    }
  }

  /** Once every accessor is destroyed, every surface is unlocked again. */
  lemma AllDestroyedUnlocked(st: Locks, mustLock: MustLock)
    requires Balanced(st, mustLock)
    requires forall k :: 0 <= k < |st.handles| ==> st.handles[k].None?
    ensures forall s :: CountOf(st.count, s) == 0
  {
    forall s ensures CountOf(st.count, s) == 0 {
      NoHolders(st.handles, s);
    }
  }
}
