/**
 * The picture a commit card draws from its sha (src/components/CommitCard.tsx):
 * the sha is cut into two-character pieces, each piece is read as a base-16
 * number and written back in base 2, left-padded with "0" to eight characters,
 * and every character of the result is read as a base-2 digit; every digit 1 at
 * position i fills the 4 x 4 square at column i mod 20, row i mod 32 of the
 * 80 x 128 canvas.
 *
 * The JavaScript built-ins the effect relies on are written out: `parseInt`
 * with a radix (leading white space, sign, the "0x" prefix for radix 16, the
 * longest prefix of digits, NaN), `Number.prototype.toString(2)`,
 * `String.prototype.padStart` and `substring`. The canvas is the list of calls
 * made on its 2D context.
 */
module HashPattern {
  import Groups

  const CanvasWidth: int := 80
  const CanvasHeight: int := 128
  const Scale: int := 4
  const FillStyle: string := "#075985"

  /** A JavaScript number as the effect can produce it: an integer or NaN. */
  datatype Num = Int(value: int) | NaN

  /** The calls made on the canvas' 2D context, in order. */
  datatype CanvasCall =
    | ClearRect(x: int, y: int, w: int, h: int)
    | SetFillStyle(style: string)
    | FillRect(x: int, y: int, w: int, h: int)

  function Min(a: int, b: int): int { if a <= b then a else b }

  /** `s.substring(start, end)` for start <= end: both ends are clamped to the length. */
  function Substring(s: string, start: nat, end: nat): (r: string)
    requires start <= end
    ensures |r| == Min(end, |s|) - Min(start, |s|)
  {
    s[Min(start, |s|)..Min(end, |s|)]
  }

  // ---- Cutting the sha ----

  /** The two-character pieces of s from the left; the last is one character when |s| is odd. */
  function Chunks(s: string): seq<string>
    decreases |s|
  {
    if |s| <= 2 then (if s == [] then [] else [s]) else [s[..2]] + Chunks(s[2..])
  }

  function Join(ss: seq<string>): string {
    if ss == [] then [] else ss[0] + Join(ss[1..])
  }

  /** Cutting loses nothing: joining the pieces gives the sha back. */
  lemma {:induction false} ChunksJoin(s: string)
    ensures Join(Chunks(s)) == s
    decreases |s|
  {
    if |s| > 2 {
      ChunksJoin(s[2..]);
      assert s == s[..2] + s[2..];
    }
  }

  /** There are ceil(|s| / 2) pieces; piece k is s[2k .. 2k + 2], clamped. */
  lemma {:induction false} ChunksShape(s: string)
    ensures |Chunks(s)| == (|s| + 1) / 2
    ensures forall k :: 0 <= k < |Chunks(s)| ==> Chunks(s)[k] == s[2 * k..Min(2 * k + 2, |s|)]
    decreases |s|
  {
    if |s| > 2 {
      ChunksShape(s[2..]);
      var c := Chunks(s);
      forall k | 0 <= k < |c| ensures c[k] == s[2 * k..Min(2 * k + 2, |s|)] {
        if k > 0 {
          assert c[k] == Chunks(s[2..])[k - 1];
        }
      }
    }
  }

  /** The first loop of the effect: `hexList.push(sha.substring(i, i + 2))` for i = 0, 2, 4, ... */
  method SplitIntoPairs(sha: string) returns (hexList: seq<string>)
    ensures hexList == Chunks(sha)
  {
    hexList := [];
    var i := 0;
    while i < |sha|
      invariant i <= |sha| + 1
      invariant hexList + Chunks(sha[Min(i, |sha|)..]) == Chunks(sha)
      decreases |sha| - i
    {
      var rest := sha[i..];
      assert Chunks(rest) == [Substring(sha, i, i + 2)] + Chunks(sha[Min(i + 2, |sha|)..]) by {
        if |rest| <= 2 {
          assert Substring(sha, i, i + 2) == rest;
          assert sha[Min(i + 2, |sha|)..] == [];
        } else {
          assert Substring(sha, i, i + 2) == rest[..2];
          assert rest[2..] == sha[i + 2..];
        }
      }
      hexList := hexList + [Substring(sha, i, i + 2)];
      i := i + 2;
    }
    assert hexList + Chunks([]) == Chunks(sha);
  }

  // ---- parseInt ----

  /** The white space and line terminators `parseInt` skips before the number. */
  predicate IsWhiteSpace(c: char) {
    var n := c as int;
    || n == 0x09 || n == 0x0A || n == 0x0B || n == 0x0C || n == 0x0D || n == 0x20
    || n == 0xA0 || n == 0x1680 || (0x2000 <= n <= 0x200A) || n == 0x2028 || n == 0x2029
    || n == 0x202F || n == 0x205F || n == 0x3000 || n == 0xFEFF
  }

  function TrimStart(s: string): string {
    if s != [] && IsWhiteSpace(s[0]) then TrimStart(s[1..]) else s
  }

  /** The value of c as a digit of any radix up to 36; 36 when c is no digit at all. */
  function DigitValue(c: char): nat {
    if '0' <= c <= '9' then c as int - '0' as int
    else if 'a' <= c <= 'z' then c as int - 'a' as int + 10
    else if 'A' <= c <= 'Z' then c as int - 'A' as int + 10
    else 36
  }

  /** The longest prefix of s made of digits of the radix. */
  function DigitPrefix(s: string, radix: nat): string {
    if s != [] && DigitValue(s[0]) < radix then [s[0]] + DigitPrefix(s[1..], radix) else []
  }

  /** The value of a string of digits, most significant first. */
  function Value(ds: string, radix: nat): nat {
    if ds == [] then 0 else Value(ds[..|ds| - 1], radix) * radix + DigitValue(ds[|ds| - 1])
  }

  /** `parseInt(input, radix)`. */
  function ParseInt(input: string, radix: nat): Num
    requires 2 <= radix <= 36
  {
    var s := TrimStart(input);
    var sign := if s != [] && s[0] == '-' then -1 else 1;
    var unsigned := if s != [] && (s[0] == '-' || s[0] == '+') then s[1..] else s;
    var body := if radix == 16 && |unsigned| >= 2 && unsigned[0] == '0' && (unsigned[1] == 'x' || unsigned[1] == 'X')
                then unsigned[2..] else unsigned;
    var digits := DigitPrefix(body, radix);
    if digits == [] then NaN else Int(sign * Value(digits, radix))
  }

  predicate IsHexDigit(c: char) { DigitValue(c) < 16 }

  /** Two hexadecimal digits read as one byte, high digit first. */
  lemma HexPairValue(a: char, b: char)
    requires IsHexDigit(a) && IsHexDigit(b)
    ensures ParseInt([a, b], 16) == Int(16 * DigitValue(a) + DigitValue(b))
  {
    assert [a, b][1..] == [b];
    assert [b][1..] == [];
    assert TrimStart([a, b]) == [a, b];
    assert DigitPrefix([b], 16) == [b] + DigitPrefix([], 16);
    assert DigitPrefix([a, b], 16) == [a] + DigitPrefix([b], 16);
    assert [a, b][..1] == [a];
    assert Value([a], 16) == DigitValue(a) by {
      assert [a][..0] == [];
    }
  }

  /** A single character read in base 2: the digits 0 and 1, and NaN for anything else. */
  lemma BinaryDigitValue(c: char)
    ensures ParseInt([c], 2) == if c == '0' then Int(0) else if c == '1' then Int(1) else NaN
  {
    assert [c][1..] == [];
    assert [c][..0] == [];
    if IsWhiteSpace(c) {
      assert TrimStart([c]) == TrimStart([]) == [];
    } else {
      assert TrimStart([c]) == [c];
      if c == '-' || c == '+' {
        assert DigitPrefix([], 2) == [];
      } else {
        assert DigitPrefix([c], 2) == if DigitValue(c) < 2 then [c] else [];
        assert Value([c], 2) == DigitValue(c);
        assert DigitValue(c) < 2 <==> c == '0' || c == '1';
      }
    }
  }

  // ---- Number.prototype.toString(2) and padStart ----

  function BitChar(b: nat): char { if b % 2 == 0 then '0' else '1' }

  /** The base-2 digits of n without leading zeros ("0" for zero). */
  function Binary(n: nat): string {
    if n < 2 then [BitChar(n)] else Binary(n / 2) + [BitChar(n % 2)]
  }

  /** `x.toString(2)`. */
  function ToBinaryString(x: Num): string {
    match x
    case NaN => "NaN"
    case Int(v) => if v < 0 then "-" + Binary(-v) else Binary(v)
  }

  /** `s.padStart(width, [fill])`. */
  function PadStart(s: string, width: nat, fill: char): (r: string)
    ensures |r| == if |s| >= width then |s| else width
  {
    if |s| >= width then s else seq(width - |s|, _ => fill) + s
  }

  /** What the map callback makes of one piece: `parseInt(hex, 16).toString(2).padStart(8, "0")`. */
  function ByteString(hex: string): string {
    PadStart(ToBinaryString(ParseInt(hex, 16)), 8, '0')
  }

  /** `hexList.map(...)`. */
  function ByteStrings(hexList: seq<string>): (bs: seq<string>)
    ensures |bs| == |hexList|
  {
    if hexList == [] then [] else [ByteString(hexList[0])] + ByteStrings(hexList[1..])
  }

  /** Piece i of the mapped list is the callback's result on piece i. */
  lemma {:induction false} ByteStringsAt(hexList: seq<string>, i: nat)
    requires i < |hexList|
    ensures ByteStrings(hexList)[i] == ByteString(hexList[i])
  {
    if i > 0 {
      ByteStringsAt(hexList[1..], i - 1);
    }
  }

  /** `hexList.map(...).join("")`. */
  function BytesOf(hexList: seq<string>): string {
    Join(ByteStrings(hexList))
  }

  function Pow2(n: nat): nat { if n == 0 then 1 else 2 * Pow2(n - 1) }

  /** Bit k of v, counting from the least significant. */
  function BitAt(v: nat, k: nat): nat { if k == 0 then v % 2 else BitAt(v / 2, k - 1) }

  lemma {:induction false} ValueOfBinary(n: nat)
    ensures Value(Binary(n), 2) == n
    ensures DigitPrefix(Binary(n), 2) == Binary(n)
  {
    if n >= 2 {
      ValueOfBinary(n / 2);
      var b := Binary(n);
      assert b[..|b| - 1] == Binary(n / 2);
      assert DigitValue(b[|b| - 1]) == n % 2 by {
        assert b[|b| - 1] == BitChar(n % 2);
      }
      assert Value(b, 2) == Value(Binary(n / 2), 2) * 2 + n % 2;
      assert (n / 2) * 2 + n % 2 == n;
      BinaryIsBits(n);
      DigitPrefixOfBits(b);
    } else {
      assert Binary(n) == [BitChar(n)];
      assert [BitChar(n)][..0] == [];
    }
  }

  lemma {:induction false} DigitPrefixOfBits(s: string)
    requires forall i :: 0 <= i < |s| ==> s[i] == '0' || s[i] == '1'
    ensures DigitPrefix(s, 2) == s
  {
    if s != [] {
      DigitPrefixOfBits(s[1..]);
    }
  }

  lemma {:induction false} BinaryIsBits(n: nat)
    ensures forall i :: 0 <= i < |Binary(n)| ==> Binary(n)[i] == '0' || Binary(n)[i] == '1'
  {
    if n >= 2 {
      BinaryIsBits(n / 2);
    }
  }

  /** Zeros in front do not change the value. */
  lemma {:induction false} ValueLeadingZeros(z: nat, s: string)
    ensures Value(seq(z, _ => '0') + s, 2) == Value(s, 2)
  {
    if s == [] {
      ValueOfZeros(z);
      assert seq(z, _ => '0') + s == seq(z, _ => '0');
    } else {
      var p := s[..|s| - 1];
      ValueLeadingZeros(z, p);
      var t := seq(z, _ => '0') + s;
      assert t[..|t| - 1] == seq(z, _ => '0') + p;
    }
  }

  lemma {:induction false} ValueOfZeros(z: nat)
    ensures Value(seq(z, _ => '0'), 2) == 0
  {
    if z > 0 {
      var t := seq(z, _ => '0');
      assert t[..z - 1] == seq(z - 1, _ => '0');
      ValueOfZeros(z - 1);
    }
  }

  lemma {:induction false} BinaryLength(v: nat, w: nat)
    requires 1 <= w && v < Pow2(w)
    ensures |Binary(v)| <= w
  {
    if v >= 2 {
      assert w >= 2;
      BinaryLength(v / 2, w - 1);
    }
  }

  lemma {:induction false} BitAtIsBit(v: nat, k: nat)
    ensures BitAt(v, k) < 2
  {
    if k > 0 {
      BitAtIsBit(v / 2, k - 1);
    }
  }

  lemma {:induction false} BitAtZero(k: nat)
    ensures BitAt(0, k) == 0
  {
    if k > 0 {
      BitAtZero(k - 1);
    }
  }

  /** Left-padded to w, character j of the base-2 digits of v is bit w - 1 - j of v. */
  lemma {:induction false} PaddedBinaryAt(v: nat, w: nat, j: nat)
    requires 1 <= w && v < Pow2(w) && j < w
    ensures |PadStart(Binary(v), w, '0')| == w
    ensures PadStart(Binary(v), w, '0')[j] == BitChar(BitAt(v, w - 1 - j))
  {
    BinaryLength(v, w);
    var b := Binary(v);
    var p := PadStart(b, w, '0');
    if v < 2 {
      if j < w - 1 {
        assert p[j] == '0';
        BitAtZero(w - 2 - j);
      }
    } else {
      BinaryLength(v / 2, w - 1);
      var q := PadStart(Binary(v / 2), w - 1, '0');
      assert p == q + [BitChar(v % 2)] by {
        assert b == Binary(v / 2) + [BitChar(v % 2)];
        assert seq(w - |b|, _ => '0') == seq(w - 1 - |Binary(v / 2)|, _ => '0');
      }
      if j < w - 1 {
        PaddedBinaryAt(v / 2, w - 1, j);
      }
    }
  }

  function HexByte(hex: string): nat
    requires |hex| == 2
  {
    16 * DigitValue(hex[0]) + DigitValue(hex[1])
  }

  /**
   * A byte written in base 2 and left-padded to eight characters: its bits,
   * most significant first, which read back as the byte.
   */
  lemma PaddedByte(v: nat)
    requires v < 256
    ensures |PadStart(Binary(v), 8, '0')| == 8
    ensures forall j :: 0 <= j < 8 ==> PadStart(Binary(v), 8, '0')[j] == BitChar(BitAt(v, 7 - j))
  {
    assert Pow2(8) == 256;
    forall j | 0 <= j < 8 ensures PadStart(Binary(v), 8, '0')[j] == BitChar(BitAt(v, 7 - j)) {
      PaddedBinaryAt(v, 8, j);
    }
    PaddedBinaryAt(v, 8, 0);
  }

  /** The padded base-2 digits of a byte read back, in base 2, as the byte. */
  lemma PaddedByteRoundTrip(v: nat)
    requires v < 256
    ensures ParseInt(PadStart(Binary(v), 8, '0'), 2) == Int(v)
  {
    assert Pow2(8) == 256;
    BinaryLength(v, 8);
    var b := Binary(v);
    var z := 8 - |b|;
    var p := seq(z, _ => '0') + b;
    assert PadStart(b, 8, '0') == p;
    ValueLeadingZeros(z, b);
    ValueOfBinary(v);
    BinaryIsBits(v);
    assert forall i :: 0 <= i < |p| ==> p[i] == '0' || p[i] == '1';
    ParseIntOfBits(p);
  }

  /** A non-empty string of base-2 digits parses, in base 2, to its value. */
  lemma ParseIntOfBits(p: string)
    requires p != [] && forall i :: 0 <= i < |p| ==> p[i] == '0' || p[i] == '1'
    ensures ParseInt(p, 2) == Int(Value(p, 2))
  {
    assert !IsWhiteSpace(p[0]) by {
      assert p[0] as int == 0x30 || p[0] as int == 0x31;
    }
    assert TrimStart(p) == p;
    DigitPrefixOfBits(p);
  }

  /** A piece of two hexadecimal digits becomes the padded base-2 digits of its byte. */
  lemma ByteStringOfHexPair(hex: string)
    requires |hex| == 2 && IsHexDigit(hex[0]) && IsHexDigit(hex[1])
    ensures HexByte(hex) < 256
    ensures ByteString(hex) == PadStart(Binary(HexByte(hex)), 8, '0')
  {
    assert hex == [hex[0], hex[1]];
    HexPairValue(hex[0], hex[1]);
  }

  /** The one-digit last piece of a sha of odd length becomes the padded base-2 digits of its value. */
  lemma ByteStringOfHexDigit(hex: string)
    requires |hex| == 1 && IsHexDigit(hex[0])
    ensures DigitValue(hex[0]) < 16
    ensures ByteString(hex) == PadStart(Binary(DigitValue(hex[0])), 8, '0')
  {
    var a := hex[0];
    assert hex == [a];
    assert [a][1..] == [];
    assert TrimStart([a]) == [a];
    assert DigitPrefix([a], 16) == [a] + DigitPrefix([], 16);
    assert Value([a], 16) == DigitValue(a) by {
      assert [a][..0] == [];
    }
  }

  /** A piece without a leading hexadecimal digit (and no sign or white space) draws as "00000NaN". */
  lemma ByteStringOfNaN(hex: string)
    requires hex != [] && DigitValue(hex[0]) >= 16 && !IsWhiteSpace(hex[0]) && hex[0] != '-' && hex[0] != '+'
    ensures ByteString(hex) == "00000NaN"
  {
  }

  /** Joining strings of eight characters: character j of string k lands at 8k + j. */
  lemma {:induction false} JoinAt(ss: seq<string>, k: nat, j: nat)
    requires forall i :: 0 <= i < |ss| ==> |ss[i]| == 8
    requires k < |ss| && j < 8
    ensures |Join(ss)| == 8 * |ss|
    ensures Join(ss)[8 * k + j] == ss[k][j]
  {
    JoinLength(ss);
    if k > 0 {
      JoinAt(ss[1..], k - 1, j);
    }
  }

  lemma {:induction false} JoinLength(ss: seq<string>)
    requires forall i :: 0 <= i < |ss| ==> |ss[i]| == 8
    ensures |Join(ss)| == 8 * |ss|
  {
    if ss != [] {
      JoinLength(ss[1..]);
    }
  }

  // ---- Bits and the canvas ----

  /** The reference reading of one character of the joined string as a bit. */
  function BitOf(c: char): Num {
    if c == '0' then Int(0) else if c == '1' then Int(1) else NaN
  }

  /** The second loop of the effect: `bits.push(parseInt(bytes.substring(i, i + 1), 2))`. */
  method ToBits(bytes: string) returns (bits: seq<Num>)
    ensures |bits| == |bytes|
    ensures forall i :: 0 <= i < |bytes| ==> bits[i] == BitOf(bytes[i])
  {
    bits := [];
    for i := 0 to |bytes|
      invariant |bits| == i
      invariant forall k :: 0 <= k < i ==> bits[k] == BitOf(bytes[k])
    {
      var piece := Substring(bytes, i, i + 1);
      assert piece == [bytes[i]];
      BinaryDigitValue(bytes[i]);
      bits := bits + [ParseInt(piece, 2)];
    }
  }

  function BitsOf(bytes: string): (bits: seq<Num>)
    ensures |bits| == |bytes|
  {
    seq(|bytes|, i requires 0 <= i < |bytes| => BitOf(bytes[i]))
  }

  /** The square bit number index fills. */
  function CellOf(index: nat): CanvasCall {
    FillRect((index % (CanvasWidth / Scale)) * Scale, (index % (CanvasHeight / Scale)) * Scale, Scale, Scale)
  }

  /** The fill calls for bits, in bit order: one per bit equal to 1. */
  function Fills(bits: seq<Num>): seq<CanvasCall> {
    if bits == [] then []
    else Fills(bits[..|bits| - 1]) + (if bits[|bits| - 1] == Int(1) then [CellOf(|bits| - 1)] else [])
  }

  /** `bits.forEach((bit, index) => { if (bit === 1) ctx.fillRect(...) })`. */
  method DrawBits(bits: seq<Num>) returns (calls: seq<CanvasCall>)
    ensures calls == Fills(bits)
  {
    calls := [];
    for index := 0 to |bits|
      invariant calls == Fills(bits[..index])
    {
      assert bits[..index + 1][..index] == bits[..index];
      if bits[index] == Int(1) {
        calls := calls + [CellOf(index)];
      }
    }
    assert bits[..|bits|] == bits;
  }

  /** The fill calls the effect makes for sha. */
  function Pattern(sha: string): seq<CanvasCall> {
    Fills(BitsOf(BytesOf(Chunks(sha))))
  }

  /** The whole effect: clear, choose the colour, fill one square per bit 1. */
  method DrawCommitHash(sha: string) returns (calls: seq<CanvasCall>)
    ensures calls == [ClearRect(0, 0, CanvasWidth, CanvasHeight), SetFillStyle(FillStyle)] + Pattern(sha)
  {
    calls := [ClearRect(0, 0, CanvasWidth, CanvasHeight)];
    var hexList := SplitIntoPairs(sha);
    var bytes := BytesOf(hexList);
    var bits := ToBits(bytes);
    calls := calls + [SetFillStyle(FillStyle)];
    var fills := DrawBits(bits);
    assert bits == BitsOf(bytes);
    calls := calls + fills;
  }

  /** The fill calls are exactly the squares of the bits equal to 1. */
  lemma {:induction false} FillsAre(bits: seq<Num>, c: CanvasCall)
    ensures c in Fills(bits) <==> exists i :: 0 <= i < |bits| && bits[i] == Int(1) && c == CellOf(i)
  {
    if bits != [] {
      var p := bits[..|bits| - 1];
      FillsAre(p, c);
      if c in Fills(bits) && !(c in Fills(p)) {
        assert bits[|bits| - 1] == Int(1) && c == CellOf(|bits| - 1);
      }
      if exists i :: 0 <= i < |bits| && bits[i] == Int(1) && c == CellOf(i) {
        var i :| 0 <= i < |bits| && bits[i] == Int(1) && c == CellOf(i);
        if i < |p| {
          assert p[i] == bits[i];
        }
      }
    }
  }

  /** Whatever the sha, every square lies inside the canvas. */
  lemma {:induction false} FillsInsideCanvas(bits: seq<Num>)
    ensures forall c :: c in Fills(bits) ==>
              c.FillRect? && 0 <= c.x && c.x + c.w <= CanvasWidth && 0 <= c.y && c.y + c.h <= CanvasHeight
  {
    forall c | c in Fills(bits)
      ensures c.FillRect? && 0 <= c.x && c.x + c.w <= CanvasWidth && 0 <= c.y && c.y + c.h <= CanvasHeight
    {
      FillsAre(bits, c);
    }
  }

  /** Bit i and bit i + 160 share a square: the pattern repeats every 160 bits. */
  lemma CellPeriod(i: nat)
    ensures CellOf(i + 160) == CellOf(i)
  {
    assert (i + 160) % 20 == i % 20;
    assert (i + 160) % 32 == i % 32;
  }

  /** The first 160 bits each get a square of their own. */
  lemma CellsDistinct(i: nat, j: nat)
    requires i < j < 160
    ensures CellOf(i) != CellOf(j)
  {
    var d := j - i;
    if i % 20 == j % 20 {
      assert d % 20 == 0 by {
        assert i == 20 * (i / 20) + i % 20;
        assert j == 20 * (j / 20) + j % 20;
        assert d == 20 * (j / 20 - i / 20);
      }
      var q := d / 20;
      assert d == 20 * q;
      assert d % 32 != 0 by {
        assert q == 1 || q == 2 || q == 3 || q == 4 || q == 5 || q == 6 || q == 7;
      }
      assert i % 32 != j % 32 by {
        assert i == 32 * (i / 32) + i % 32;
        assert j == 32 * (j / 32) + j % 32;
      }
    }
  }

  /** With at most 160 bits no square is filled twice. */
  lemma {:induction false} FillsDistinct(bits: seq<Num>)
    requires |bits| <= 160
    ensures Groups.NoDuplicates(Fills(bits))
  {
    if bits != [] {
      var p := bits[..|bits| - 1];
      var n := |bits| - 1;
      FillsDistinct(p);
      if bits[n] == Int(1) {
        if CellOf(n) in Fills(p) {
          FillsAre(p, CellOf(n));
          var i :| 0 <= i < |p| && p[i] == Int(1) && CellOf(n) == CellOf(i);
          CellsDistinct(i, n);
        }
      }
    }
  }

  predicate IsHexString(s: string) {
    forall i :: 0 <= i < |s| ==> IsHexDigit(s[i])
  }

  /** Bit i of a hexadecimal sha's pattern: bit 7 - i mod 8 of byte i / 8. */
  function ShaBit(sha: string, i: nat): nat
    requires |sha| % 2 == 0 && i < 4 * |sha|
  {
    ByteBit(sha, i / 8, i % 8)
  }

  /** Bit 7 - j of byte k of a hexadecimal sha: character j of its padded byte string. */
  function ByteBit(sha: string, k: nat, j: nat): nat
    requires 2 * k + 2 <= |sha| && j < 8
  {
    BitAt(HexByte(sha[2 * k..2 * k + 2]), 7 - j)
  }

  /** Piece k of a hexadecimal sha of even length is sha[2k .. 2k + 2], written as its byte padded to eight bits. */
  lemma ShaByteString(sha: string, k: nat)
    requires IsHexString(sha) && |sha| % 2 == 0 && 2 * k + 2 <= |sha|
    ensures |ByteStrings(Chunks(sha))| == |sha| / 2
    ensures HexByte(sha[2 * k..2 * k + 2]) < 256
    ensures ByteStrings(Chunks(sha))[k] == PadStart(Binary(HexByte(sha[2 * k..2 * k + 2])), 8, '0')
  {
    ChunksShape(sha);
    var hex := sha[2 * k..2 * k + 2];
    assert Chunks(sha)[k] == hex by {
      assert Min(2 * k + 2, |sha|) == 2 * k + 2;
    }
    assert hex[0] == sha[2 * k] && hex[1] == sha[2 * k + 1];
    ByteStringOfHexPair(hex);
    ByteStringsAt(Chunks(sha), k);
  }

  /** Every piece of a hexadecimal sha, the odd last one included, is written with eight characters. */
  lemma ShaByteLengths(sha: string)
    requires IsHexString(sha)
    ensures |ByteStrings(Chunks(sha))| == (|sha| + 1) / 2
    ensures forall k :: 0 <= k < |ByteStrings(Chunks(sha))| ==> |ByteStrings(Chunks(sha))[k]| == 8
  {
    ChunksShape(sha);
    forall k | 0 <= k < |ByteStrings(Chunks(sha))| ensures |ByteStrings(Chunks(sha))[k]| == 8 {
      ShaByteLength(sha, k);
    }
  }

  lemma ShaByteLength(sha: string, k: nat)
    requires IsHexString(sha) && k < (|sha| + 1) / 2
    ensures |ByteStrings(Chunks(sha))| == (|sha| + 1) / 2
    ensures |ByteStrings(Chunks(sha))[k]| == 8
  {
    ChunksShape(sha);
    ByteStringsAt(Chunks(sha), k);
    var hex := Chunks(sha)[k];
    if 2 * k + 2 <= |sha| {
      assert hex == sha[2 * k..2 * k + 2];
      assert hex[0] == sha[2 * k] && hex[1] == sha[2 * k + 1];
      ByteStringOfHexPair(hex);
      PaddedByte(HexByte(hex));
    } else {
      assert hex == sha[2 * k..|sha|] && |hex| == 1;
      assert hex[0] == sha[2 * k];
      ByteStringOfHexDigit(hex);
      PaddedByte(DigitValue(hex[0]));
    }
  }

  /** The bit string of a hexadecimal sha has eight bits for each of its ceil(|sha| / 2) pieces. */
  lemma PatternBitsLength(sha: string)
    requires IsHexString(sha)
    ensures |BitsOf(BytesOf(Chunks(sha)))| == 8 * ((|sha| + 1) / 2)
  {
    ShaByteLengths(sha);
    JoinLength(ByteStrings(Chunks(sha)));
  }

  /** Bit j of byte k of the bits of a hexadecimal sha of even length. */
  lemma ByteBitAt(sha: string, k: nat, j: nat)
    requires IsHexString(sha) && |sha| % 2 == 0 && 2 * k + 2 <= |sha| && j < 8
    ensures |BitsOf(BytesOf(Chunks(sha)))| == 4 * |sha|
    ensures BitsOf(BytesOf(Chunks(sha)))[8 * k + j] == Int(ByteBit(sha, k, j))
    ensures ByteBit(sha, k, j) < 2
  {
    BitAtIsBit(HexByte(sha[2 * k..2 * k + 2]), 7 - j);
    var bs := ByteStrings(Chunks(sha));
    ShaByteLengths(sha);
    ShaByteString(sha, k);
    BitsOfByteAt(bs, k, j, HexByte(sha[2 * k..2 * k + 2]));
  }

  /** Where piece k is byte v padded to eight bits, bit 8k + j is bit 7 - j of v. */
  lemma BitsOfByteAt(bs: seq<string>, k: nat, j: nat, v: nat)
    requires forall i :: 0 <= i < |bs| ==> |bs[i]| == 8
    requires k < |bs| && j < 8 && v < 256
    requires bs[k] == PadStart(Binary(v), 8, '0')
    ensures |BitsOf(Join(bs))| == 8 * |bs|
    ensures BitsOf(Join(bs))[8 * k + j] == Int(BitAt(v, 7 - j))
  {
    JoinLength(bs);
    PaddedByte(v);
    BitsOfJoinAt(bs, k, j);
    BitOfBitAt(v, 7 - j);
  }

  /** For a hexadecimal sha of even length the bits are the bytes' bits, most significant first, each 0 or 1. */
  lemma ShaBits(sha: string)
    requires IsHexString(sha) && |sha| % 2 == 0
    ensures |BitsOf(BytesOf(Chunks(sha)))| == 4 * |sha|
    ensures forall i :: 0 <= i < 4 * |sha| ==> BitsOf(BytesOf(Chunks(sha)))[i] == Int(ShaBit(sha, i)) && ShaBit(sha, i) < 2
  {
    ShaBitsLength(sha);
    forall i | 0 <= i < 4 * |sha| ensures BitsOf(BytesOf(Chunks(sha)))[i] == Int(ShaBit(sha, i)) && ShaBit(sha, i) < 2 {
      ShaBitAt(sha, i);
    }
  }

  /** A hexadecimal sha of even length gives four bits per digit. */
  lemma ShaBitsLength(sha: string)
    requires IsHexString(sha) && |sha| % 2 == 0
    ensures |BitsOf(BytesOf(Chunks(sha)))| == 4 * |sha|
  {
    var n := |sha| / 2;
    assert |sha| == 2 * n;
    assert (|sha| + 1) / 2 == n;
    PatternBitsLength(sha);
  }

  /** Bit i of the bits of a hexadecimal sha of even length. */
  lemma ShaBitAt(sha: string, i: nat)
    requires IsHexString(sha) && |sha| % 2 == 0 && i < 4 * |sha|
    ensures |BitsOf(BytesOf(Chunks(sha)))| == 4 * |sha|
    ensures BitsOf(BytesOf(Chunks(sha)))[i] == Int(ShaBit(sha, i))
    ensures ShaBit(sha, i) < 2
  {
    var n := |sha| / 2;
    assert |sha| == 2 * n;
    var k, j := i / 8, i % 8;
    assert i == 8 * k + j && j < 8;
    assert k < n;
    ByteBitAt(sha, k, j);
  }

  lemma BitsOfJoinAt(bs: seq<string>, k: nat, j: nat)
    requires forall i :: 0 <= i < |bs| ==> |bs[i]| == 8
    requires k < |bs| && j < 8
    ensures |BitsOf(Join(bs))| == 8 * |bs|
    ensures BitsOf(Join(bs))[8 * k + j] == BitOf(bs[k][j])
  {
    JoinAt(bs, k, j);
  }

  /** A bit written as a character reads back as that bit. */
  lemma BitOfBitAt(v: nat, k: nat)
    ensures BitOf(BitChar(BitAt(v, k))) == Int(BitAt(v, k))
  {
    BitAtIsBit(v, k);
  }

  /**
   * For a hexadecimal sha of even length the effect fills the square of bit i
   * exactly when that bit of the sha is 1.
   */
  lemma PatternIsShaBits(sha: string, c: CanvasCall)
    requires IsHexString(sha) && |sha| % 2 == 0
    ensures c in Pattern(sha) <==> exists i :: 0 <= i < 4 * |sha| && ShaBit(sha, i) == 1 && c == CellOf(i)
  {
    ShaBits(sha);
    var bits := BitsOf(BytesOf(Chunks(sha)));
    FillsAre(bits, c);
  }

  /** A full 40-digit sha has 160 bits, each drawn in a square of its own. */
  lemma FullShaPattern(sha: string)
    requires IsHexString(sha) && |sha| == 40
    ensures |BitsOf(BytesOf(Chunks(sha)))| == 160
    ensures Groups.NoDuplicates(Pattern(sha))
  {
    ShaBits(sha);
    FillsDistinct(BitsOf(BytesOf(Chunks(sha))));
  }
}
