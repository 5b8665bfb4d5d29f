/**
 UTF-8 in the ServiceNow scripts: the encoder of LucairnSha256.js and the two
 width functions of LucairnClient.js, which are written separately and must
 agree with it.

 A JavaScript string is a sequence of UTF-16 units.  `Scalars` is what such a
 string stands for: surrogate pairs combined, a lone surrogate replaced by
 U+FFFD.  `Decode` is the decoder of RFC 3629.
 */
module Utf8 {
  import opened Wrappers

  type Unit = bv16
  type Byte = bv8
  type CodePoint = bv32

  const REPLACEMENT: CodePoint := 0xFFFD

  predicate IsHigh(u: Unit)
  {
    0xD800 <= u <= 0xDBFF
  }

  predicate IsLow(u: Unit)
  {
    0xDC00 <= u <= 0xDFFF
  }

  predicate IsScalar(c: CodePoint)
  {
    c < 0xD800 || 0xE000 <= c <= 0x10FFFF
  }

  /** Does the string start with a surrogate pair? */
  predicate PairAt(s: seq<Unit>)
  {
    |s| > 1 && IsHigh(s[0]) && IsLow(s[1])
  }

  function Combine(high: Unit, low: Unit): CodePoint
  {
    0x10000 + ((high as bv32 - 0xD800) << 10) + (low as bv32 - 0xDC00)
  }

  /** Units of the first character, 1 or 2. */
  function Step(s: seq<Unit>): (n: nat)
    requires s != []
    ensures 1 <= n <= |s|
  {
    if PairAt(s) then 2 else 1
  }

  function First(s: seq<Unit>): CodePoint
    requires s != []
  {
    if PairAt(s) then Combine(s[0], s[1])
    else if IsHigh(s[0]) || IsLow(s[0]) then REPLACEMENT
    else s[0] as bv32
  }

  function Scalars(s: seq<Unit>): seq<CodePoint>
  {
    if s == [] then [] else [First(s)] + Scalars(s[Step(s)..])
  }

  // -------------------------------------------------------------- encoding

  function Lead2(c: CodePoint): Byte
    requires c < 0x800
  {
    (0xC0 | (c >> 6)) as bv8
  }

  function Lead3(c: CodePoint): Byte
    requires c < 0x10000
  {
    (0xE0 | (c >> 12)) as bv8
  }

  function Lead4(c: CodePoint): Byte
    requires c <= 0x10FFFF
  {
    (0xF0 | (c >> 18)) as bv8
  }

  /** The continuation byte of the six lowest bits. */
  function Cont(c: CodePoint): Byte
  {
    (0x80 | (c & 0x3F)) as bv8
  }

  function EncodeOne(c: CodePoint): (bs: seq<Byte>)
    requires IsScalar(c)
    ensures |bs| == Width(c)
  {
    if c < 0x80 then [c as bv8]
    else if c < 0x800 then [Lead2(c), Cont(c)]
    else if c < 0x10000 then [Lead3(c), Cont(c >> 6), Cont(c)]
    else [Lead4(c), Cont(c >> 12), Cont(c >> 6), Cont(c)]
  }

  function Width(c: CodePoint): nat
  {
    if c < 0x80 then 1 else if c < 0x800 then 2 else if c < 0x10000 then 3 else 4
  }

  predicate AllScalar(cs: seq<CodePoint>)
  {
    forall k :: 0 <= k < |cs| ==> IsScalar(cs[k])
  }

  function Encode(cs: seq<CodePoint>): seq<Byte>
    requires AllScalar(cs)
  {
    if cs == [] then [] else EncodeOne(cs[0]) + Encode(cs[1..])
  }

  lemma FirstIsScalar(s: seq<Unit>)
    requires s != []
    ensures IsScalar(First(s))
  {
  }

  lemma {:induction false} ScalarsAreScalar(s: seq<Unit>)
    ensures AllScalar(Scalars(s))
    decreases |s|
  {
    if s == [] {
    } else {
      FirstIsScalar(s);
      ScalarsAreScalar(s[Step(s)..]);
    }
  }

  /** The UTF-8 form of a JavaScript string. */
  function Bytes(s: seq<Unit>): seq<Byte>
  {
    ScalarsAreScalar(s);
    Encode(Scalars(s))
  }

  // -------------------------------------------------------------- decoding

  predicate Tail(b: Byte)
  {
    0x80 <= b <= 0xBF
  }

  /** The second byte of three that RFC 3629 allows behind each first one. */
  predicate Second3(a: Byte, b: Byte)
  {
    (a == 0xE0 && 0xA0 <= b <= 0xBF) || (0xE1 <= a <= 0xEC && Tail(b))
    || (a == 0xED && 0x80 <= b <= 0x9F) || (0xEE <= a <= 0xEF && Tail(b))
  }

  predicate Second4(a: Byte, b: Byte)
  {
    (a == 0xF0 && 0x90 <= b <= 0xBF) || (0xF1 <= a <= 0xF3 && Tail(b)) || (a == 0xF4 && 0x80 <= b <= 0x8F)
  }

  /** The syntax of section 4 of RFC 3629: length of the character at the front, if there is one. */
  function DecodeLength(bs: seq<Byte>): (n: nat)
    ensures n <= 4 && n <= |bs|
  {
    if |bs| >= 1 && bs[0] <= 0x7F then 1
    else if |bs| >= 2 && 0xC2 <= bs[0] <= 0xDF && Tail(bs[1]) then 2
    else if |bs| >= 3 && Second3(bs[0], bs[1]) && Tail(bs[2]) then 3
    else if |bs| >= 4 && Second4(bs[0], bs[1]) && Tail(bs[2]) && Tail(bs[3]) then 4
    else 0
  }

  /** The bit distribution of section 3 of RFC 3629. */
  function Value2(a: Byte, b: Byte): CodePoint
  {
    ((a & 0x1F) as bv32 << 6) | (b & 0x3F) as bv32
  }

  function Value3(a: Byte, b: Byte, d: Byte): CodePoint
  {
    ((a & 0x0F) as bv32 << 12) | ((b & 0x3F) as bv32 << 6) | (d & 0x3F) as bv32
  }

  function Value4(a: Byte, b: Byte, d: Byte, e: Byte): CodePoint
  {
    ((a & 0x07) as bv32 << 18) | ((b & 0x3F) as bv32 << 12) | ((d & 0x3F) as bv32 << 6) | (e & 0x3F) as bv32
  }

  function DecodeValue(bs: seq<Byte>): CodePoint
    requires DecodeLength(bs) > 0
  {
    var n := DecodeLength(bs);
    if n == 1 then bs[0] as bv32
    else if n == 2 then Value2(bs[0], bs[1])
    else if n == 3 then Value3(bs[0], bs[1], bs[2])
    else Value4(bs[0], bs[1], bs[2], bs[3])
  }

  function Decode(bs: seq<Byte>): Option<seq<CodePoint>>
    decreases |bs|
  {
    if bs == [] then Some([])
    else if DecodeLength(bs) == 0 then None
    else
      match Decode(bs[DecodeLength(bs)..])
      case None => None
      case Some(cs) => Some([DecodeValue(bs)] + cs)
  }

  lemma OneByte(c: CodePoint)
    requires c < 0x80
    ensures c as bv8 <= 0x7F && c as bv8 as bv32 == c
  {
  }

  lemma TwoBytes(c: CodePoint)
    requires 0x80 <= c < 0x800
    ensures 0xC2 <= Lead2(c) <= 0xDF && Tail(Cont(c)) && Value2(Lead2(c), Cont(c)) == c
  {
  }

  lemma ThreeByteSyntax(c: CodePoint)
    requires 0x800 <= c < 0x10000 && IsScalar(c)
    ensures 0xE0 <= Lead3(c) && Second3(Lead3(c), Cont(c >> 6)) && Tail(Cont(c))
  {
  }

  lemma ThreeByteValue(c: CodePoint)
    requires 0x800 <= c < 0x10000
    ensures Value3(Lead3(c), Cont(c >> 6), Cont(c)) == c
  {
  }

  lemma FourByteSyntax(c: CodePoint)
    requires 0x10000 <= c <= 0x10FFFF
    ensures 0xF0 <= Lead4(c) && Second4(Lead4(c), Cont(c >> 12)) && Tail(Cont(c >> 6)) && Tail(Cont(c))
  {
  }

  lemma FourByteValue(c: CodePoint)
    requires 0x10000 <= c <= 0x10FFFF
    ensures Value4(Lead4(c), Cont(c >> 12), Cont(c >> 6), Cont(c)) == c
  {
  }

  lemma LeadsApart(a: Byte, b: Byte)
    ensures Second3(a, b) ==> 0xE0 <= a <= 0xEF
    ensures Second4(a, b) ==> 0xF0 <= a
  {
  }

  /** What the encoder writes for a character is decoded to it, whatever follows. */
  lemma DecodeOne(c: CodePoint, rest: seq<Byte>)
    requires IsScalar(c)
    ensures DecodeLength(EncodeOne(c) + rest) == Width(c)
    ensures DecodeValue(EncodeOne(c) + rest) == c
  {
    hide Lead2, Lead3, Lead4, Cont, Value2, Value3, Value4, Second3, Second4;
    var bs := EncodeOne(c) + rest;
    if c < 0x80 {
      OneByte(c);
    } else if c < 0x800 {
      TwoBytes(c);
    } else if c < 0x10000 {
      ThreeByteSyntax(c);
      ThreeByteValue(c);
    } else {
      FourByteSyntax(c);
      FourByteValue(c);
      LeadsApart(bs[0], bs[1]);
    }
  }

  /** Decoding gives back what was encoded. */
  lemma {:induction false} DecodeEncode(cs: seq<CodePoint>)
    requires AllScalar(cs)
    ensures Decode(Encode(cs)) == Some(cs)
  {
    hide EncodeOne, DecodeLength, DecodeValue, IsScalar;
    if cs == [] {
    } else {
      var rest := Encode(cs[1..]);
      DecodeOne(cs[0], rest);
      WidthPositive(cs[0]);
      var bs := EncodeOne(cs[0]) + rest;
      assert bs[Width(cs[0])..] == rest;
      DecodeEncode(cs[1..]);
      assert [cs[0]] + cs[1..] == cs;
    }
  }

  lemma WidthPositive(c: CodePoint)
    ensures Width(c) >= 1
  {
  }

  /** The bytes of a string denote the string, with U+FFFD for each lone surrogate. */
  lemma BytesDenote(s: seq<Unit>)
    ensures Decode(Bytes(s)) == Some(Scalars(s))
  {
    ScalarsAreScalar(s);
    DecodeEncode(Scalars(s));
  }

  /** Every surrogate is half of a pair. */
  predicate WellFormed(s: seq<Unit>)
  {
    s == [] || ((PairAt(s) || (!IsHigh(s[0]) && !IsLow(s[0]))) && WellFormed(s[Step(s)..]))
  }

  lemma CombineInjective(h: Unit, l: Unit, h': Unit, l': Unit)
    requires IsHigh(h) && IsLow(l) && IsHigh(h') && IsLow(l') && Combine(h, l) == Combine(h', l')
    ensures h == h' && l == l'
  {
  }

  lemma CombineLarge(h: Unit, l: Unit)
    requires IsHigh(h) && IsLow(l)
    ensures Combine(h, l) >= 0x10000
  {
  }

  lemma UnitSmall(u: Unit, v: Unit)
    ensures u as bv32 < 0x10000 && (u as bv32 == v as bv32 ==> u == v)
  {
  }

  /** Well-formed strings that differ have bytes that differ: a digest is a digest of the text. */
  lemma {:induction false} ScalarsInjective(s: seq<Unit>, t: seq<Unit>)
    requires WellFormed(s) && WellFormed(t) && Scalars(s) == Scalars(t)
    ensures s == t
    decreases |s|
  {
    hide Combine;
    if s != [] && t != [] {
      assert First(s) == Scalars(s)[0] == Scalars(t)[0] == First(t);
      if PairAt(s) {
        CombineLarge(s[0], s[1]);
      }
      if PairAt(t) {
        CombineLarge(t[0], t[1]);
      }
      UnitSmall(s[0], t[0]);
      UnitSmall(t[0], s[0]);
      if PairAt(s) && PairAt(t) {
        CombineInjective(s[0], s[1], t[0], t[1]);
      }
      assert Step(s) == Step(t) && s[..Step(s)] == t[..Step(t)];
      assert Scalars(s)[1..] == Scalars(s[Step(s)..]) && Scalars(t)[1..] == Scalars(t[Step(t)..]);
      ScalarsInjective(s[Step(s)..], t[Step(t)..]);
      assert s == s[..Step(s)] + s[Step(s)..] && t == t[..Step(t)] + t[Step(t)..];
    }
  }

  lemma BytesInjective(s: seq<Unit>, t: seq<Unit>)
    requires WellFormed(s) && WellFormed(t) && Bytes(s) == Bytes(t)
    ensures s == t
  {
    BytesDenote(s);
    BytesDenote(t);
    ScalarsInjective(s, t);
  }

  // ------------------------------------------------------- the code's loops

  lemma BytesUnfold(s: seq<Unit>)
    requires s != []
    ensures IsScalar(First(s)) && Bytes(s) == EncodeOne(First(s)) + Bytes(s[Step(s)..])
  {
    hide First, EncodeOne;
    FirstIsScalar(s);
    ScalarsAreScalar(s[Step(s)..]);
    ScalarsAreScalar(s);
    assert Scalars(s)[1..] == Scalars(s[Step(s)..]);
  }

  /** The pushes of one code point, by its range. */
  method PushCodePoint(out0: seq<Byte>, cp: CodePoint) returns (out: seq<Byte>)
    requires IsScalar(cp)
    ensures out == out0 + EncodeOne(cp)
  {
    hide Lead2, Lead3, Lead4, Cont;
    if cp < 0x80 {
      out := out0 + [cp as bv8];
    } else if cp < 0x800 {
      out := out0 + [Lead2(cp)];
      out := out + [Cont(cp)];
    } else if cp < 0x10000 {
      out := out0 + [Lead3(cp)];
      out := out + [Cont(cp >> 6)];
      out := out + [Cont(cp)];
    } else {
      out := out0 + [Lead4(cp)];
      out := out + [Cont(cp >> 12)];
      out := out + [Cont(cp >> 6)];
      out := out + [Cont(cp)];
    }
  }

  /** `utf8Bytes` of LucairnSha256.js. */
  method Utf8Bytes(str: seq<Unit>) returns (out: seq<Byte>)
    ensures out == Bytes(str)
  {
    hide Bytes, EncodeOne, Combine;
    out := [];
    var i := 0;
    while i < |str|
      invariant 0 <= i <= |str| && out + Bytes(str[i..]) == Bytes(str)
      decreases |str| - i
    {
      ghost var rest := str[i..];
      BytesUnfold(rest);
      assert rest[Step(rest)..] == str[i + Step(rest)..];
      var cp: CodePoint;
      if IsHigh(str[i]) {
        var next := if i + 1 < |str| then str[i + 1] else 0;
        if IsLow(next) {
          cp := Combine(str[i], next);
          i := i + 1;
        } else {
          cp := REPLACEMENT;
        }
      } else if IsLow(str[i]) {
        cp := REPLACEMENT;
      } else {
        cp := str[i] as bv32;
      }
      FirstIsScalar(rest);
      assert cp == First(rest);
      out := PushCodePoint(out, cp);
      i := i + 1;
    }
    assert str[i..] == [];
    BytesEmpty();
  }

  lemma BytesEmpty()
    ensures Bytes([]) == []
  {
  }

  /** The width the client script computes without combining anything. */
  lemma WidthOfFirst(s: seq<Unit>)
    requires s != []
    ensures Width(First(s)) == if s[0] < 0x80 then 1 else if s[0] < 0x800 then 2 else if PairAt(s) then 4 else 3
  {
  }

  /** `utf8ByteLength` of LucairnClient.js agrees with the encoder of LucairnSha256.js. */
  method Utf8ByteLength(str: seq<Unit>) returns (bytes: nat)
    ensures bytes == |Bytes(str)|
  {
    hide Bytes, EncodeOne, First;
    bytes := 0;
    var i := 0;
    while i < |str|
      invariant 0 <= i <= |str| && bytes + |Bytes(str[i..])| == |Bytes(str)|
      decreases |str| - i
    {
      ghost var rest := str[i..];
      BytesUnfold(rest);
      WidthOfFirst(rest);
      assert rest[Step(rest)..] == str[i + Step(rest)..];
      var code := str[i];
      if code < 0x80 {
        bytes := bytes + 1;
        i := i + 1;
      } else if code < 0x800 {
        bytes := bytes + 2;
        i := i + 1;
      } else if 0xD800 <= code <= 0xDBFF && i + 1 < |str| && 0xDC00 <= str[i + 1] <= 0xDFFF {
        bytes := bytes + 4;
        i := i + 2;
      } else {
        bytes := bytes + 3;
        i := i + 1;
      }
    }
    assert str[i..] == [];
    BytesEmpty();
  }

  // ------------------------------------------------------------ truncation

  /** `j` units are a whole number of characters of `s`. */
  predicate Boundary(s: seq<Unit>, j: nat)
  {
    j == 0 || (s != [] && j >= Step(s) && Boundary(s[Step(s)..], j - Step(s)))
  }

  /** How many units of `s` fit `limit` bytes, taking whole characters from the front. */
  function Cap(s: seq<Unit>, limit: int): (n: nat)
    ensures n <= |s|
  {
    if s == [] || Width(First(s)) > limit then 0
    else Step(s) + Cap(s[Step(s)..], limit - Width(First(s)))
  }

  lemma CapUnfold(s: seq<Unit>, limit: int)
    requires s != []
    ensures Cap(s, limit) == if Width(First(s)) > limit then 0 else Step(s) + Cap(s[Step(s)..], limit - Width(First(s)))
  {
  }

  lemma {:induction false} BoundaryInside(s: seq<Unit>, j: nat)
    requires Boundary(s, j)
    ensures j <= |s|
    decreases |s|
  {
    if j == 0 {
    } else {
      BoundaryInside(s[Step(s)..], j - Step(s));
    }
  }

  /** Cutting behind the first character leaves that character as it is. */
  lemma FrontUncut(s: seq<Unit>, j: nat)
    requires s != [] && Step(s) <= j <= |s|
    ensures Step(s[..j]) == Step(s) && First(s[..j]) == First(s)
    ensures s[..j][Step(s)..] == s[Step(s)..][..j - Step(s)]
    ensures Bytes(s[..j]) == EncodeOne(First(s)) + Bytes(s[Step(s)..][..j - Step(s)])
  {
    hide Bytes, EncodeOne, Combine;
    BytesUnfold(s[..j]);
  }

  /** The bytes of whole characters are the front of the bytes of the string. */
  lemma {:induction false} BytesPrefix(s: seq<Unit>, j: nat)
    requires Boundary(s, j)
    ensures j <= |s| && Bytes(s[..j]) <= Bytes(s)
    decreases |s|
  {
    hide Bytes, EncodeOne, First;
    BoundaryInside(s, j);
    if j == 0 {
      assert s[..0] == [];
      BytesEmpty();
    } else {
      FrontUncut(s, j);
      BytesUnfold(s);
      BytesPrefix(s[Step(s)..], j - Step(s));
    }
  }

  /** The cap is a whole number of characters, fits, and no longer one fits. */
  lemma {:induction false} CapLongest(s: seq<Unit>, limit: nat)
    ensures Boundary(s, Cap(s, limit)) && |Bytes(s[..Cap(s, limit)])| <= limit
    ensures forall j: nat :: Boundary(s, j) && j > Cap(s, limit) ==> j <= |s| && |Bytes(s[..j])| > limit
    decreases |s|
  {
    hide Bytes, EncodeOne, First;
    assert s[..0] == [];
    BytesEmpty();
    if s == [] {
    } else {
      var step, width := Step(s), Width(First(s));
      if width <= limit {
        CapLongest(s[step..], limit - width);
        BoundaryInside(s[step..], Cap(s[step..], limit - width));
        FrontUncut(s, Cap(s, limit));
        BytesUnfold(s);
      }
      forall j: nat | Boundary(s, j) && j > Cap(s, limit) ensures j <= |s| && |Bytes(s[..j])| > limit {
        BoundaryInside(s, j);
        FrontUncut(s, j);
        BytesUnfold(s);
      }
    }
  }

  /** Bytes and units of the character at `i`: the branches of `capUtf8Bytes`. */
  method WidthAt(str: seq<Unit>, i: nat) returns (width: nat, consumed: nat)
    requires i < |str|
    ensures width == Width(First(str[i..])) && consumed == Step(str[i..])
  {
    hide First;
    WidthOfFirst(str[i..]);
    var code := str[i];
    width := 1;
    consumed := 1;
    if code < 0x80 {
      width := 1;
    } else if code < 0x800 {
      width := 2;
    } else if 0xD800 <= code <= 0xDBFF && i + 1 < |str| {
      var low := str[i + 1];
      if 0xDC00 <= low <= 0xDFFF {
        width := 4;
        consumed := 2;
      } else {
        width := 3;
      }
    } else {
      width := 3;
    }
  }

  /**
   `capUtf8Bytes` of LucairnClient.js; `limit` is what `parseInt` made of the
   argument, None for NaN.
   */
  method CapUtf8Bytes(str: seq<Unit>, limit: Option<int>) returns (r: seq<Unit>)
    ensures limit.None? || limit.value <= 0 ==> r == []
    ensures limit.Some? && limit.value > 0 ==>
              && Boundary(str, |r|) && |r| <= |str| && r == str[..|r|]
              && |Bytes(r)| <= limit.value && Bytes(r) <= Bytes(str)
              && forall j: nat :: Boundary(str, j) && j > |r| ==> j <= |str| && |Bytes(str[..j])| > limit.value
  {
    if limit.None? || limit.value <= 0 {
      return [];
    }
    hide Bytes, EncodeOne, First, Boundary, Cap, Width, PairAt;
    var max := limit.value;
    var bytes := 0;
    var i := 0;
    assert str[0..] == str;
    while i < |str|
      invariant 0 <= i <= |str| && i + Cap(str[i..], max - bytes) == Cap(str, max)
      decreases |str| - i
    {
      ghost var rest := str[i..];
      CapUnfold(rest, max - bytes);
      assert rest[Step(rest)..] == str[i + Step(rest)..];
      var width, consumed := WidthAt(str, i);
      if bytes + width > max {
        break;
      }
      bytes := bytes + width;
      i := i + consumed;
    }
    CapLongest(str, max);
    BytesPrefix(str, Cap(str, max));
    r := str[..i];
  }
}
