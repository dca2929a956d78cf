/**
  tools/embed.cc: turns a binary file into a C++ source file that defines
  `<symbol>_data[]`, the file's bytes as hexadecimal literals, and
  `<symbol>_size`. The program is modelled as a function from its arguments
  and the input file's contents to its exit status, its diagnostics and the
  text it writes.
*/
module Embed {
  import opened Wrappers

  type Byte = x: int | 0 <= x < 256

  const Hex: string := "0123456789ABCDEF"

  /** Bytes per output line: the size of the read buffer. */
  const LineBytes: nat := 32

  // ---------------------------------------------------------------------
  // Nibbles of a byte read into a (signed) char
  // ---------------------------------------------------------------------

  /** The value of a byte stored in a signed `char`. */
  function Signed(b: Byte): (c: int)
    ensures -128 <= c < 128
    ensures c % 256 == b
  {
    if b < 128 then b else b - 256
  }

  /** `x >> 4` on a two's-complement `int`: an arithmetic shift, i.e. division rounding down. */
  function ShiftRight4(x: int): int
  {
    if x >= 0 then x / 16 else -((-x + 15) / 16)
  }

  /** `x & 0xf` on a two's-complement `int`: the four low bits, i.e. the remainder rounding down. */
  function Low4(x: int): int
  {
    x - 16 * ShiftRight4(x)
  }

  lemma ShiftFloor(x: int)
    ensures 16 * ShiftRight4(x) <= x < 16 * ShiftRight4(x) + 16
  {
  }

  /** The digit `hex[(buffer[i] >> 4) & 0xf]` picks. */
  function HighDigit(b: Byte): int
  {
    Low4(ShiftRight4(Signed(b)))
  }

  /** The digit `hex[buffer[i] & 0xf]` picks. */
  function LowDigit(b: Byte): int
  {
    Low4(Signed(b))
  }

  /**
    Although bytes of 128 and above are negative as `char` and the shift
    drags the sign along, the mask recovers the true nibbles of every byte.
  */
  lemma Nibbles(b: Byte)
    ensures HighDigit(b) == b / 16
    ensures LowDigit(b) == b % 16
  {
    ShiftFloor(Signed(b));
    ShiftFloor(ShiftRight4(Signed(b)));
  }

  // ---------------------------------------------------------------------
  // The text
  // ---------------------------------------------------------------------

  /** `std::endl`. */
  const Eol: string := "\n"

  /** The lines written before the data. */
  function Header(symbol: string): string
  {
    "#include <cstddef>" + Eol +
    "#include <cstdint>" + Eol +
    Eol +
    "extern const std::uint8_t " + symbol + "_data[];" + Eol +
    "extern const std::size_t " + symbol + "_size;" + Eol +
    Eol +
    "const std::uint8_t " + symbol + "_data[] = {" + Eol
  }

  /** The lines written after the data. */
  function Footer(symbol: string): string
  {
    "  };" + Eol +
    "const std::size_t " + symbol + "_size = sizeof( " + symbol + "_data );" + Eol
  }

  /** One byte: " 0x", two upper-case hex digits and a comma. */
  function Token(b: Byte): (t: string)
    ensures |t| == 6
  {
    Nibbles(b);
    " 0x" + [Hex[HighDigit(b)], Hex[LowDigit(b)]] + ","
  }

  function Tokens(bytes: seq<Byte>): (t: string)
    ensures |t| == 6 * |bytes|
  {
    if |bytes| == 0 then "" else Token(bytes[0]) + Tokens(bytes[1..])
  }

  /** One pass of the loop: three spaces, the tokens of the bytes read, an end of line. */
  function Line(bytes: seq<Byte>): string
  {
    "   " + Tokens(bytes) + Eol
  }

  /**
    The reads of the loop. A full buffer leaves the stream good, so the loop
    goes round again; a short read (possibly of nothing) ends it. Hence a
    final short, possibly empty, read.
  */
  function Reads(bytes: seq<Byte>): (r: seq<seq<Byte>>)
    ensures |r| > 0
    ensures forall k :: 0 <= k < |r| - 1 ==> |r[k]| == LineBytes
    ensures |r[|r| - 1]| < LineBytes
    decreases |bytes|
  {
    if |bytes| < LineBytes then [bytes]
    else
      var rest := Reads(bytes[LineBytes..]);
      assert forall k :: 1 <= k < |rest| + 1 ==> ([bytes[..LineBytes]] + rest)[k] == rest[k - 1];
      [bytes[..LineBytes]] + rest
  }

  function Concat<T>(parts: seq<seq<T>>): seq<T>
  {
    if |parts| == 0 then [] else parts[0] + Concat(parts[1..])
  }

  function Lines(passes: seq<seq<Byte>>): string
  {
    if |passes| == 0 then "" else Line(passes[0]) + Lines(passes[1..])
  }

  /** The whole data block. */
  function Body(bytes: seq<Byte>): string
  {
    Lines(Reads(bytes))
  }

  /**
    The passes cover the input in order, 32 bytes each but the last, which
    has the remainder, so there are `n / 32 + 1` of them and the last one is
    empty exactly when `n` is a multiple of 32.
  */
  lemma {:induction false} ReadsSpec(bytes: seq<Byte>)
    ensures Concat(Reads(bytes)) == bytes
    ensures |Reads(bytes)| == |bytes| / LineBytes + 1
    ensures forall k :: 0 <= k < |Reads(bytes)| - 1 ==> |Reads(bytes)[k]| == LineBytes
    ensures |Reads(bytes)[|Reads(bytes)| - 1]| == |bytes| % LineBytes
    decreases |bytes|
  {
    if |bytes| >= LineBytes {
      var rest := bytes[LineBytes..];
      ReadsSpec(rest);
      assert bytes == bytes[..LineBytes] + rest;
      assert Reads(bytes)[1..] == Reads(rest);
    }
  }

  // ---------------------------------------------------------------------
  // The program
  // ---------------------------------------------------------------------

  /** What the program does: its exit status, what it prints on `std::cerr`, and the file it writes, if any. */
  datatype Run = Run(status: int, errors: string, output: Option<(string, string)>)

  /**
    `main`: `args` is `argv`, `read` the contents of the binary file, or
    nothing when it cannot be opened. The output file is written at the
    third argument's path.
  */
  function Execute(args: seq<string>, read: string -> Option<seq<Byte>>): (r: Run)
    ensures |args| != 4 ==> r.status == 1 && r.output.None?
    ensures |args| == 4 && read(args[1]).None? ==> r.status == 1 && r.output.None?
    ensures |args| == 4 && read(args[1]).Some? ==> r.status == 0 && r.errors == "" && r.output.Some? && r.output.value.0 == args[3]
  {
    if |args| != 4 then
      Run(1, "Usage: " + (if |args| > 0 then args[0] else "") + " <binary> <symbol> <output>" + Eol, None)
    else match read(args[1])
      case None => Run(1, "Unable to open binary file: '" + args[1] + "'." + Eol, None)
      case Some(bytes) => Run(0, "", Some((args[3], Header(args[2]) + Body(bytes) + Footer(args[2]))))
  }

  // ---------------------------------------------------------------------
  // Reading the array back
  // ---------------------------------------------------------------------

  /** The value of an upper-case hex digit. */
  function DigitValue(c: char): Option<int>
  {
    if '0' <= c <= '9' then Some(c as int - '0' as int)
    else if 'A' <= c <= 'F' then Some(c as int - 'A' as int + 10)
    else None
  }

  lemma DigitValueOfHex(d: int)
    requires 0 <= d < 16
    ensures DigitValue(Hex[d]) == Some(d)
  {
  }

  /** The byte of a token at the start of `s`, if there is one. */
  function TokenAt(s: string): Option<Byte>
  {
    if |s| >= 6 && s[..3] == " 0x" && s[5] == ',' then
      match (DigitValue(s[3]), DigitValue(s[4]))
      case (Some(hi), Some(lo)) => Some(16 * hi + lo)
      case _ => None
    else None
  }

  /** The tokens at the start of `s`, and what follows them. */
  function ReadTokens(s: string): (r: (seq<Byte>, string))
    ensures |r.1| <= |s|
    decreases |s|
  {
    match TokenAt(s)
    case Some(b) =>
      var (bytes, rest) := ReadTokens(s[6..]);
      ([b] + bytes, rest)
    case None => ([], s)
  }

  /** The bytes of a data block: lines of three spaces, tokens and an end of line. */
  function ReadLines(s: string): Option<seq<Byte>>
    decreases |s|
  {
    if |s| == 0 then Some([])
    else if |s| < 3 || s[..3] != "   " then None
    else
      var (bytes, rest) := ReadTokens(s[3..]);
      if |rest| == 0 || rest[0] != '\n' then None
      else match ReadLines(rest[1..])
        case None => None
        case Some(more) => Some(bytes + more)
  }

  lemma TokenRoundTrip(b: Byte, rest: string)
    ensures TokenAt(Token(b) + rest) == Some(b)
  {
    Nibbles(b);
    DigitValueOfHex(b / 16);
    DigitValueOfHex(b % 16);
    var s := Token(b) + rest;
    assert s[..3] == " 0x";
    assert s[3] == Hex[b / 16] && s[4] == Hex[b % 16] && s[5] == ',';
  }

  lemma {:induction false} TokensRoundTrip(bytes: seq<Byte>, rest: string)
    requires |rest| > 0 && rest[0] == '\n'
    ensures ReadTokens(Tokens(bytes) + rest) == (bytes, rest)
    decreases |bytes|
  {
    if |bytes| == 0 {
      assert Tokens(bytes) + rest == rest;
      assert TokenAt(rest) == None by {
        if |rest| >= 6 {
          assert rest[..3][0] == '\n';
        }
      }
    } else {
      var t := Tokens(bytes[1..]) + rest;
      assert Tokens(bytes) + rest == Token(bytes[0]) + t;
      ReadTokensCons(bytes[0], t);
      TokensRoundTrip(bytes[1..], rest);
      assert [bytes[0]] + bytes[1..] == bytes;
    }
  }

  /** A token followed by more text reads as its byte, then whatever the text reads as. */
  lemma ReadTokensCons(b: Byte, t: string)
    ensures ReadTokens(Token(b) + t) == ([b] + ReadTokens(t).0, ReadTokens(t).1)
  {
    var s := Token(b) + t;
    TokenRoundTrip(b, t);
    assert s[6..] == t;
  }

  lemma {:induction false} LinesRoundTrip(passes: seq<seq<Byte>>)
    ensures ReadLines(Lines(passes)) == Some(Concat(passes))
    decreases |passes|
  {
    if |passes| > 0 {
      var s := Lines(passes);
      var tail := Lines(passes[1..]);
      assert s == "   " + (Tokens(passes[0]) + (Eol + tail));
      assert s[..3] == "   ";
      assert s[3..] == Tokens(passes[0]) + (Eol + tail);
      TokensRoundTrip(passes[0], Eol + tail);
      assert (Eol + tail)[1..] == tail;
      LinesRoundTrip(passes[1..]);
    }
  }

  /**
    Reading the hex literals between the header and the footer of a
    successful run gives back the input file byte for byte.
  */
  lemma EmbedRoundTrip(args: seq<string>, read: string -> Option<seq<Byte>>)
    requires |args| == 4 && read(args[1]).Some?
    ensures var text := Execute(args, read).output.value.1;
      var header := Header(args[2]);
      var footer := Footer(args[2]);
      |header| + |footer| <= |text| &&
      text[..|header|] == header &&
      text[|text| - |footer|..] == footer &&
      ReadLines(text[|header|..|text| - |footer|]) == Some(read(args[1]).value)
  {
    var bytes := read(args[1]).value;
    var text := Execute(args, read).output.value.1;
    var header := Header(args[2]);
    var footer := Footer(args[2]);
    assert text == header + Body(bytes) + footer;
    assert text[|header|..|text| - |footer|] == Body(bytes);
    LinesRoundTrip(Reads(bytes));
    ReadsSpec(bytes);
  }
}
