// The C byte-array emitter of build.py (binary_dump): a compressed payload
// is written as `constexpr unsigned char NAME[] = {` followed by one
// `0xHH,` literal per byte, sixteen to a line, and a closing `\n};\n`.
// The compressor itself is a parameter of the model.

module PayloadHeader {
  import opened Common
  import BuildConfig

  const HexDigits: string := "0123456789ABCDEF"

  /** The uppercase hexadecimal digit for d. */
  function HexDigit(d: nat): (c: char)
    requires d < 16
    ensures c in HexDigits
  {
    HexDigits[d]
  }

  /** The value of an uppercase hexadecimal digit, if c is one. */
  function HexValue(c: char): (r: Option<nat>)
    ensures r.Some? ==> r.value < 16
  {
    if '0' <= c <= '9' then Some(c as nat - '0' as nat)
    else if 'A' <= c <= 'F' then Some(c as nat - 'A' as nat + 10)
    else None
  }

  /** HexValue reads exactly the digits HexDigit writes, and inverts it. */
  lemma HexValueInverse(c: char)
    ensures HexValue(c).Some? <==> c in HexDigits
    ensures HexValue(c).Some? ==> HexDigits[HexValue(c).value] == c
  {
  }

  lemma HexDigitValue(d: nat)
    requires d < 16
    ensures HexValue(HexDigit(d)) == Some(d)
  {
  }

  /** One `0xHH,` literal: two uppercase digits, high nibble first. */
  function Literal(b: byte): (r: string)
    ensures |r| == 5 && r[0] == '0' && r[1] == 'x' && r[4] == ','
    ensures r[2] == HexDigit(b as nat / 16) && r[3] == HexDigit(b as nat % 16)
  {
    "0x" + [HexDigit(b as nat / 16), HexDigit(b as nat % 16)] + ","
  }

  /** The text emitted for the byte at index i: a line break before every sixteenth byte. */
  function Item(i: nat, b: byte): string {
    (if i % 16 == 0 then "\n" else "") + Literal(b)
  }

  /** The text emitted for all of data, item by item. */
  function Body(data: seq<byte>): string
  {
    if data == [] then "" else Body(data[..|data| - 1]) + Item(|data| - 1, data[|data| - 1])
  }

  function Opening(name: string): string {
    "constexpr unsigned char " + name + "[] = {"
  }

  const Closing: string := "\n};\n"

  /** The whole header text for an already compressed payload. */
  function Dump(name: string, compressed: seq<byte>): string {
    Opening(name) + Body(compressed) + Closing
  }

  /** binary_dump: compress the input, then emit it byte by byte. */
  method BinaryDump(name: string, src: seq<byte>, xz: seq<byte> -> seq<byte>) returns (out: string)
    ensures out == Dump(name, xz(src))
  {
    var data := xz(src);
    out := Opening(name);
    var i := 0;
    while i < |data|
      invariant 0 <= i <= |data|
      invariant out == Opening(name) + Body(data[..i])
    {
      EmitStep(Opening(name), data, i);
      if i % 16 == 0 {
        out := out + "\n";
      }
      out := out + Literal(data[i]);
      i := i + 1;
    }
    assert data[..i] == data;
    out := out + Closing;
  }

  /** One more byte of output: a line break first at every sixteenth byte, then its literal. */
  lemma EmitStep(prefix: string, data: seq<byte>, i: nat)
    requires i < |data|
    ensures prefix + Body(data[..i + 1]) ==
            (if i % 16 == 0 then prefix + Body(data[..i]) + "\n" else prefix + Body(data[..i])) + Literal(data[i])
  {
    assert data[..i + 1][..i] == data[..i];
  }

  // ---- Reading the literals back ----

  /** s starts with a `0xHH,` literal. */
  predicate LiteralAhead(s: string) {
    |s| >= 5 && s[0] == '0' && s[1] == 'x' && HexValue(s[2]).Some? && HexValue(s[3]).Some? && s[4] == ','
  }

  function LiteralValue(s: string): byte
    requires LiteralAhead(s)
  {
    (HexValue(s[2]).value * 16 + HexValue(s[3]).value) as byte
  }

  /** Reads a sequence of `0xHH,` literals, skipping line breaks; None on anything else. */
  function Decode(s: string): (r: Option<seq<byte>>)
  {
    if s == [] then Some([])
    else if s[0] == '\n' then Decode(s[1..])
    else if LiteralAhead(s) then
      match Decode(s[5..])
      case None => None
      case Some(rest) => Some([LiteralValue(s)] + rest)
    else None
  }

  /** Decoding distributes over concatenation of two decodable texts. */
  lemma {:induction false} DecodeAppend(a: string, b: string)
    requires Decode(a).Some? && Decode(b).Some?
    ensures Decode(a + b) == Some(Decode(a).value + Decode(b).value)
    decreases |a|
  {
    if a == [] {
      assert a + b == b;
      assert Decode(a).value + Decode(b).value == Decode(b).value;
    } else if a[0] == '\n' {
      DropThen(a, b, 1);
      DecodeAppend(a[1..], b);
    } else {
      assert LiteralAhead(a) && Decode(a[5..]).Some?;
      assert Decode(a) == Some([LiteralValue(a)] + Decode(a[5..]).value);
      LiteralThen(a, b);
      DecodeAppend(a[5..], b);
      var x, y := Decode(a[5..]).value, Decode(b).value;
      assert Decode(a + b) == Some([LiteralValue(a)] + (x + y));
      assert [LiteralValue(a)] + (x + y) == ([LiteralValue(a)] + x) + y;
    }
  }

  /** A literal at the head of a stays at the head of a + b. */
  lemma LiteralThen(a: string, b: string)
    requires LiteralAhead(a)
    ensures (a + b)[0] == a[0] && LiteralAhead(a + b) && LiteralValue(a + b) == LiteralValue(a)
    ensures (a + b)[5..] == a[5..] + b
  {
    assert (a + b)[0] == a[0] && (a + b)[1] == a[1] && (a + b)[2] == a[2] && (a + b)[3] == a[3] && (a + b)[4] == a[4];
    DropThen(a, b, 5);
  }

  lemma DropThen(a: string, b: string, k: nat)
    requires 0 < k <= |a|
    ensures (a + b)[0] == a[0] && (a + b)[k..] == a[k..] + b
  {
  }

  lemma DecodeLiteral(b: byte)
    ensures Decode(Literal(b)) == Some([b])
  {
    var s := Literal(b);
    HexDigitValue(b as nat / 16);
    HexDigitValue(b as nat % 16);
    assert b as nat == (b as nat / 16) * 16 + b as nat % 16;
    assert s[0] != '\n' && LiteralAhead(s) && LiteralValue(s) == b;
    assert s[5..] == [];
    assert Decode(s[5..]) == Some([]);
    assert Decode(s) == Some([LiteralValue(s)] + []);
    assert [LiteralValue(s)] + [] == [b];
  }

  lemma DecodeItem(i: nat, b: byte)
    ensures Decode(Item(i, b)) == Some([b])
  {
    DecodeLiteral(b);
    if i % 16 == 0 {
      assert Item(i, b)[0] == '\n';
      assert Item(i, b)[1..] == Literal(b);
    } else {
      assert Item(i, b) == Literal(b);
    }
  }

  /** Reading the hex literals of the body back in order yields exactly the payload. */
  lemma {:induction false} BodyRoundTrip(data: seq<byte>)
    ensures Decode(Body(data)) == Some(data)
  {
    if data != [] {
      var n := |data| - 1;
      BodyRoundTrip(data[..n]);
      DecodeItem(n, data[n]);
      DecodeAppend(Body(data[..n]), Item(n, data[n]));
      assert data[..n] + [data[n]] == data;
    }
  }

  /** Rows of sixteen: the number of rows needed for n bytes grows by one exactly at multiples of 16. */
  lemma RowsStep(n: nat)
    ensures (n + 16) / 16 == (n + 15) / 16 + (if n % 16 == 0 then 1 else 0)
  {
  }

  /** Line breaks: one before byte 0, 16, 32, …, so ⌈|data| / 16⌉ of them, and five characters per byte. */
  lemma {:induction false} BodyShape(data: seq<byte>)
    ensures BuildConfig.Count(Body(data), '\n') == (|data| + 15) / 16
    ensures |Body(data)| == 5 * |data| + (|data| + 15) / 16
  {
    if data != [] {
      var n := |data| - 1;
      BodyShape(data[..n]);
      RowsStep(n);
      ItemShape(n, data[n]);
      BuildConfig.CountAppend(Body(data[..n]), Item(n, data[n]), '\n');
    }
  }

  lemma ItemShape(i: nat, b: byte)
    ensures BuildConfig.Count(Item(i, b), '\n') == (if i % 16 == 0 then 1 else 0)
    ensures |Item(i, b)| == 5 + (if i % 16 == 0 then 1 else 0)
  {
    LiteralNoBreak(b);
    if i % 16 == 0 {
      BuildConfig.CountAppend("\n", Literal(b), '\n');
    } else {
      assert Item(i, b) == Literal(b);
    }
  }

  lemma LiteralNoBreak(b: byte)
    ensures BuildConfig.Count(Literal(b), '\n') == 0
  {
    BuildConfig.CountAbsent(Literal(b), '\n');
  }

  /** The emitted header starts and ends with the fixed C text and holds the payload between them. */
  lemma DumpRoundTrip(name: string, compressed: seq<byte>)
    ensures var text := Dump(name, compressed);
      text[..|Opening(name)|] == Opening(name) &&
      text[|text| - |Closing|..] == Closing &&
      Decode(text[|Opening(name)|..|text| - |Closing|]) == Some(compressed)
  {
    var text := Dump(name, compressed);
    assert text[|Opening(name)|..|text| - |Closing|] == Body(compressed);
    BodyRoundTrip(compressed);
  }
}
