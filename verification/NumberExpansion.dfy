/**
 Exact decimal expansion of JSON number literals, as the tool-schema guard does
 it before matching.

 A literal is given twice: as text, which `Expand` takes apart the way the code
 does, and as a `Literal`, the grammar of section 6 of RFC 8259, which `Print`
 writes out.  Values are compared without fractions: `SameValue` scales both
 sides to the smaller power of ten.
 */
module NumberExpansion {
  import opened Wrappers
  import opened AsciiText
  import opened Arithmetic
  import opened Decimals

  const LIMIT := 1024

  datatype Expansion = Expanded(text: string) | TooLong | NotANumber

  // ---------------------------------------------------------------- digits

  predicate AllZeros(s: string)
  {
    forall k :: 0 <= k < |s| ==> s[k] == '0'
  }

  function Zeros(n: nat): (s: string)
    ensures |s| == n && AllZeros(s)
  {
    seq(n, _ => '0')
  }

  function LStrip(s: string): (r: string)
    ensures |r| <= |s| && (r != "" ==> r[0] != '0')
    ensures AllDigits(s) ==> AllDigits(r)
  {
    if s == "" || s[0] != '0' then s else LStrip(s[1..])
  }

  function RStrip(s: string): (r: string)
    ensures |r| <= |s| && (r != "" ==> r[|r| - 1] != '0')
    ensures AllDigits(s) ==> AllDigits(r)
  {
    if s == "" || s[|s| - 1] != '0' then s else RStrip(s[..|s| - 1])
  }

  lemma {:induction false} LStripSplits(s: string)
    ensures s == Zeros(|s| - |LStrip(s)|) + LStrip(s)
  {
    if s != "" && s[0] == '0' {
      LStripSplits(s[1..]);
      var n := |s| - 1 - |LStrip(s)|;
      assert Zeros(n + 1) == ['0'] + Zeros(n);
      assert s == ['0'] + s[1..];
    } else {
      assert s == Zeros(0) + s;
    }
  }

  lemma {:induction false} RStripSplits(s: string)
    ensures s == RStrip(s) + Zeros(|s| - |RStrip(s)|)
  {
    if s != "" && s[|s| - 1] == '0' {
      RStripSplits(s[..|s| - 1]);
      var n := |s| - 1 - |RStrip(s)|;
      assert Zeros(n + 1) == Zeros(n) + ['0'];
      assert s == s[..|s| - 1] + ['0'];
    } else {
      assert s == s + Zeros(0);
    }
  }

  // ------------------------------------------------------------- expansion

  /** Position of the first `e` or `E`, or the length of the text. */
  function FindE(s: string): (i: nat)
    ensures i <= |s| && forall k :: 0 <= k < i ==> s[k] != 'e' && s[k] != 'E'
    ensures i < |s| ==> s[i] == 'e' || s[i] == 'E'
  {
    if s == "" || s[0] == 'e' || s[0] == 'E' then 0
    else
      var i := FindE(s[1..]);
      assert forall k :: 0 < k < i + 1 ==> s[k] == s[1..][k - 1];
      i + 1
  }

  function FindDot(s: string): (i: nat)
    ensures i <= |s| && forall k :: 0 <= k < i ==> s[k] != '.'
    ensures i < |s| ==> s[i] == '.'
  {
    if s == "" || s[0] == '.' then 0
    else
      var i := FindDot(s[1..]);
      assert forall k :: 0 < k < i + 1 ==> s[k] == s[1..][k - 1];
      i + 1
  }

  predicate Blank(c: char)
  {
    c == ' ' || '\t' <= c <= '\r' || '\U{1C}' <= c <= '\U{1F}'
  }

  /** Decimal digits, with the underscores that Python allows between two of them taken out. */
  function Ungrouped(t: string): (r: Option<string>)
    ensures r.Some? ==> AllDigits(r.value)
    decreases |t|
  {
    if t == "" || !IsDigit(t[0]) then None
    else if |t| == 1 then Some(t)
    else
      var rest := if t[1] == '_' then Ungrouped(t[2..]) else Ungrouped(t[1..]);
      if rest.None? then None else Some([t[0]] + rest.value)
  }

  /** `int(s)` on ASCII text: white space around it, a sign and underscores are allowed. */
  function ParseInt(s: string): Option<int>
  {
    var x := Trim(s, Blank);
    var digits := Ungrouped(if x != "" && (x[0] == '-' || x[0] == '+') then x[1..] else x);
    if digits.None? then None
    else
      var n: int := NatOf(digits.value);
      Some(if x[0] == '-' then -n else n)
  }

  /** Whole and fractional digits once the decimal point has moved by the exponent. */
  function Place(digits: string, point: int): (string, string)
  {
    if point <= 0 then ("0", Zeros(-point) + digits)
    else if point >= |digits| then (digits + Zeros(point - |digits|), "")
    else (digits[..point], digits[point..])
  }

  function Join(whole: string, frac: string): string
  {
    if frac == "" then whole else whole + "." + frac
  }

  /** The whole part as printed: without leading zeros, and never empty. */
  function Lead(whole: string): (w: string)
    ensures w != "" && (|w| > 1 ==> w[0] != '0')
    ensures whole != "" ==> |w| <= |whole|
    ensures AllDigits(whole) ==> AllDigits(w)
  {
    if LStrip(whole) == "" then "0" else LStrip(whole)
  }

  function Canonicalize(whole: string, frac: string): string
  {
    Join(Lead(whole), RStrip(frac))
  }

  function ExpandParts(intPart: string, fracPart: string, exp: int): Expansion
  {
    var digits := intPart + fracPart;
    if digits == "" || !AllDigits(digits) then NotANumber
    else if AllZeros(digits) then Expanded("0")
    else if |digits| > LIMIT || exp > LIMIT || exp < -2 * LIMIT then TooLong
    else
      var point := |intPart| + exp;
      if point > LIMIT || (point < 0 && -point + |digits| > LIMIT) then TooLong
      else
        var (whole, frac) := Place(digits, point);
        Expanded(Canonicalize(whole, frac))
  }

  function SplitDot(s: string): (string, string)
  {
    if FindDot(s) < |s| then (s[..FindDot(s)], s[FindDot(s) + 1..]) else (s, "")
  }

  /** `expand_json_number`. */
  function Expand(lit: string): Expansion
  {
    if lit == "" then NotANumber
    else
      var s := if lit[0] == '-' || lit[0] == '+' then lit[1..] else lit;
      var i := FindE(s);
      var exp := if i < |s| then ParseInt(s[i + 1..]) else Some(0);
      if exp.None? then TooLong
      else
        var (intPart, fracPart) := SplitDot(s[..i]);
        ExpandParts(intPart, fracPart, exp.value)
  }

  method ScanForE(s: string) returns (i: nat)
    ensures i == FindE(s)
  {
    i := 0;
    while i < |s| && s[i] != 'e' && s[i] != 'E'
      invariant i <= |s| && forall k :: 0 <= k < i ==> s[k] != 'e' && s[k] != 'E'
    {
      i := i + 1;
    }
  }

  method ExpandDigits(intPart: string, fracPart: string, exp: int) returns (r: Expansion)
    ensures r == ExpandParts(intPart, fracPart, exp)
  {
    hide Place, LStrip, RStrip;
    var digits := intPart + fracPart;
    if digits == "" || !AllDigits(digits) {
      return NotANumber;
    }
    if AllZeros(digits) {
      return Expanded("0");
    }
    if |digits| > LIMIT || exp > LIMIT || exp < -2 * LIMIT {
      return TooLong;
    }
    var point := |intPart| + exp;
    if point > LIMIT || (point < 0 && -point + |digits| > LIMIT) {
      return TooLong;
    }
    var whole, frac := PlaceDigits(digits, point);
    whole := LStrip(whole);
    if whole == "" {
      whole := "0";
    }
    frac := RStrip(frac);
    r := Expanded(if frac == "" then whole else whole + "." + frac);
  }

  method PlaceDigits(digits: string, point: int) returns (whole: string, frac: string)
    ensures (whole, frac) == Place(digits, point)
  {
    if point <= 0 {
      whole, frac := "0", Zeros(-point) + digits;
    } else if point >= |digits| {
      whole, frac := digits + Zeros(point - |digits|), "";
    } else {
      whole, frac := digits[..point], digits[point..];
    }
  }

  /** `expand_json_number` step by step; `NotANumber` and `TooLong` are its status codes. */
  method ExpandJsonNumber(lit: string) returns (r: Expansion)
    ensures r == Expand(lit)
  {
    hide ExpandParts, FindE, ParseInt, SplitDot;
    if lit == "" {
      return NotANumber;
    }
    var s := lit;
    if s[0] == '-' || s[0] == '+' {
      s := s[1..];
    }
    var exp := 0;
    var i := ScanForE(s);
    if i < |s| {
      var n := ParseInt(s[i + 1..]);
      if n.None? {
        return TooLong;
      }
      exp := n.value;
    }
    s := s[..i];
    var (intPart, fracPart) := SplitDot(s);
    r := ExpandDigits(intPart, fracPart, exp);
  }

  // --------------------------------------------------------------- grammar

  /** A number of section 6 of RFC 8259; `exp` holds the text behind the `e`. */
  datatype Literal = Literal(minus: bool, whole: string, frac: string, e: string, expSign: string, exp: string)

  predicate WellFormed(l: Literal)
  {
    && l.whole != "" && AllDigits(l.whole) && (|l.whole| > 1 ==> l.whole[0] != '0')
    && AllDigits(l.frac)
    && (l.e == "" || l.e == "e" || l.e == "E")
    && (l.expSign == "" || l.expSign == "-" || l.expSign == "+")
    && AllDigits(l.exp)
    && (l.e == "" ==> l.expSign == "" && l.exp == "")
    && (l.e != "" ==> l.exp != "")
  }

  function Print(l: Literal): string
  {
    (if l.minus then "-" else "") + Join(l.whole, l.frac) + l.e + l.expSign + l.exp
  }

  /** The digits of a literal, read as one number. */
  function Mantissa(l: Literal): nat
    requires WellFormed(l)
  {
    NatOf(l.whole + l.frac)
  }

  function WrittenExponent(l: Literal): int
    requires WellFormed(l)
  {
    if l.expSign == "-" then 0 - NatOf(l.exp) else NatOf(l.exp)
  }

  /** The power of ten its mantissa is scaled by. */
  function Exponent(l: Literal): int
    requires WellFormed(l)
  {
    WrittenExponent(l) - |l.frac|
  }

  /** m1 * 10^e1 == m2 * 10^e2 */
  predicate SameValue(m1: nat, e1: int, m2: nat, e2: int)
  {
    if e1 <= e2 then m1 == m2 * Pow10(e2 - e1) else m1 * Pow10(e1 - e2) == m2
  }

  /** A decimal without superfluous zeros at either end. */
  predicate Canonical(whole: string, frac: string)
  {
    && whole != "" && AllDigits(whole) && (|whole| > 1 ==> whole[0] != '0')
    && AllDigits(frac) && (frac != "" ==> frac[|frac| - 1] != '0')
  }

  // ------------------------------------------------------ facts about digits

  lemma {:induction false} NatOfZeros(s: string)
    requires AllZeros(s)
    ensures AllDigits(s) && NatOf(s) == 0
  {
    if s == "" {
    } else {
      NatOfZeros(s[..|s| - 1]);
    }
  }

  lemma {:induction false} NatOfBound(s: string)
    requires AllDigits(s)
    ensures NatOf(s) < Pow10(|s|)
  {
    if s == "" {
    } else {
      NatOfBound(s[..|s| - 1]);
    }
  }

  lemma NatOfLead(s: string)
    requires AllDigits(s) && s != "" && s[0] != '0'
    ensures NatOf(s) >= Pow10(|s| - 1)
  {
    assert s == s[..1] + s[1..];
    NatOfConcat(s[..1], s[1..]);
    assert NatOf(s[..1]) == DigitValue(s[0]) >= 1 by {
      assert s[..1][..0] == "";
    }
    MulAtLeast(NatOf(s[..1]), Pow10(|s| - 1));
  }

  lemma MulAtLeast(a: nat, b: nat)
    requires a >= 1
    ensures a * b >= b
  {
    assert a * b == b + (a - 1) * b;
    MulNonneg(a - 1, b);
  }

  lemma {:induction false} NatOfInjective(a: string, b: string)
    requires AllDigits(a) && AllDigits(b) && |a| == |b| && NatOf(a) == NatOf(b)
    ensures a == b
  {
    if a == "" {
    } else {
      var a', b' := a[..|a| - 1], b[..|b| - 1];
      NatOfInjective(a', b');
      assert a == a' + [a[|a| - 1]] && b == b' + [b[|b| - 1]];
    }
  }

  lemma {:induction false} NatOfPositive(s: string)
    requires AllDigits(s)
    ensures NatOf(s) == 0 <==> AllZeros(s)
  {
    if s == "" {
    } else {
      NatOfPositive(s[..|s| - 1]);
      assert s[..|s| - 1] + [s[|s| - 1]] == s;
    }
  }

  // ------------------------------------------------- text against grammar

  lemma DotFree(s: string)
    requires AllDigits(s)
    ensures FindDot(s) == |s|
  {
  }

  lemma SplitJoin(whole: string, frac: string)
    requires AllDigits(whole)
    ensures frac != "" ==> SplitDot(Join(whole, frac)) == (whole, frac)
    ensures frac == "" ==> SplitDot(Join(whole, frac)) == (whole, "")
  {
    if frac == "" {
      DotFree(whole);
    } else {
      var j := whole + "." + frac;
      assert j[|whole|] == '.';
      assert FindDot(j) == |whole|;
      assert j[..|whole|] == whole && j[|whole| + 1..] == frac;
    }
  }

  lemma {:induction false} UngroupedDigits(t: string)
    requires t != "" && AllDigits(t)
    ensures Ungrouped(t) == Some(t)
    decreases |t|
  {
    if |t| <= 1 {
    } else {
      assert IsDigit(t[1]);
      UngroupedDigits(t[1..]);
      assert t == [t[0]] + t[1..];
    }
  }

  lemma NothingToTrim(s: string)
    requires s != "" && !Blank(s[0]) && !Blank(s[|s| - 1])
    ensures Trim(s, Blank) == s
  {
  }

  lemma ParseExponent(l: Literal)
    requires WellFormed(l) && l.e != ""
    ensures ParseInt(l.expSign + l.exp) == Some(WrittenExponent(l))
  {
    hide Trim, Ungrouped, NatOf;
    var s := l.expSign + l.exp;
    assert s[|s| - 1] == l.exp[|l.exp| - 1] && IsDigit(l.exp[|l.exp| - 1]) && IsDigit(l.exp[0]);
    NothingToTrim(s);
    UngroupedDigits(l.exp);
    assert l.expSign != "" ==> s[0] == l.expSign[0] && s[1..] == l.exp;
    assert l.expSign == "" ==> s == l.exp;
  }

  lemma FindEBehind(a: string, b: string)
    requires forall k :: 0 <= k < |a| ==> a[k] != 'e' && a[k] != 'E'
    requires b == "" || b[0] == 'e' || b[0] == 'E'
    ensures FindE(a + b) == |a|
  {
    if b != "" {
      assert (a + b)[|a|] == b[0];
    }
  }

  function Unsigned(l: Literal): string
  {
    Join(l.whole, l.frac) + (l.e + l.expSign + l.exp)
  }

  lemma StripSign(l: Literal)
    requires WellFormed(l)
    ensures Print(l) != "" && Unsigned(l) != ""
    ensures (if Print(l)[0] == '-' || Print(l)[0] == '+' then Print(l)[1..] else Print(l)) == Unsigned(l)
  {
    var s := Unsigned(l);
    assert Print(l) == (if l.minus then "-" else "") + s;
    assert s[0] == l.whole[0] && IsDigit(s[0]);
  }

  lemma SplitExponent(l: Literal)
    requires WellFormed(l)
    ensures var s, j := Unsigned(l), Join(l.whole, l.frac);
            && FindE(s) == |j| && s[..|j|] == j && (|j| < |s| <==> l.e != "")
            && (l.e != "" ==> s[|j| + 1..] == l.expSign + l.exp)
  {
    var j, tail := Join(l.whole, l.frac), l.e + l.expSign + l.exp;
    FindEBehind(j, tail);
    assert (j + tail)[..|j|] == j;
    if l.e != "" {
      assert (j + tail)[|j| + 1..] == tail[1..] == l.expSign + l.exp;
    }
  }

  /** Taking the text of a literal apart gives the parts it was written from. */
  lemma ExpandPrint(l: Literal)
    requires WellFormed(l)
    ensures Expand(Print(l)) == ExpandParts(l.whole, l.frac, WrittenExponent(l))
  {
    hide ExpandParts, ParseInt, Print, Join, Unsigned, FindE, SplitDot;
    StripSign(l);
    SplitExponent(l);
    SplitJoin(l.whole, l.frac);
    if l.e != "" {
      ParseExponent(l);
    }
  }

  // ---------------------------------------------------------- exact value

  lemma ZerosAround(digits: string, n: nat)
    requires AllDigits(digits)
    ensures NatOf("0" + (Zeros(n) + digits)) == NatOf(digits)
    ensures NatOf(digits + Zeros(n)) == NatOf(digits) * Pow10(n)
  {
    NatOfZeros(Zeros(n));
    NatOfConcat(Zeros(n), digits);
    NatOfZeros("0");
    NatOfConcat("0", Zeros(n) + digits);
    NatOfConcat(digits, Zeros(n));
  }

  /** Moving the point keeps the value. */
  lemma PlaceExact(digits: string, point: int)
    requires AllDigits(digits) && digits != ""
    ensures var (w, f) := Place(digits, point);
            && AllDigits(w) && AllDigits(f) && w != ""
            && (point <= |digits| ==> NatOf(w + f) == NatOf(digits) && -|f| == point - |digits|)
            && (point > |digits| ==> f == "" && NatOf(w) == NatOf(digits) * Pow10(point - |digits|))
  {
    if point <= 0 {
      ZerosAround(digits, -point);
    } else if point >= |digits| {
      ZerosAround(digits, point - |digits|);
      assert point == |digits| ==> digits + Zeros(0) + "" == digits;
    } else {
      assert digits[..point] + digits[point..] == digits;
    }
  }

  lemma ZerosInFront(z: string, t: string)
    requires AllZeros(z) && AllDigits(t)
    ensures AllDigits(z + t) && NatOf(z + t) == NatOf(t)
  {
    NatOfZeros(z);
    NatOfConcat(z, t);
  }

  lemma DigitsConcat(a: string, b: string)
    requires AllDigits(a) && AllDigits(b)
    ensures AllDigits(a + b)
  {
  }

  lemma LeadOfZeros(whole: string, rest: string)
    requires AllZeros(whole) && AllDigits(rest)
    ensures AllDigits(whole + rest) && NatOf(whole + rest) == NatOf("0" + rest)
  {
    ZerosInFront(whole, rest);
    ZerosInFront("0", rest);
  }

  lemma LStripValue(whole: string, rest: string)
    requires AllDigits(whole) && AllDigits(rest)
    ensures AllDigits(whole + rest) && AllDigits(Lead(whole) + rest)
    ensures NatOf(whole + rest) == NatOf(Lead(whole) + rest)
  {
    hide NatOf, LStrip, AllDigits, AllZeros;
    var w := LStrip(whole);
    var z := Zeros(|whole| - |w|);
    LStripSplits(whole);
    if w == "" {
      assert whole == z;
      LeadOfZeros(z, rest);
      DigitsConcat(Lead(whole), rest);
    } else {
      DigitsConcat(w, rest);
      ZerosInFront(z, w + rest);
      assert z + (w + rest) == whole + rest;
    }
  }

  lemma RStripValue(front: string, frac: string)
    requires AllDigits(front) && AllDigits(frac)
    ensures var f := RStrip(frac);
            AllDigits(f) && NatOf(front + frac) == NatOf(front + f) * Pow10(|frac| - |f|)
  {
    var f := RStrip(frac);
    var z := Zeros(|frac| - |f|);
    RStripSplits(frac);
    NatOfZeros(z);
    NatOfConcat(front + f, z);
    assert (front + f) + z == front + frac;
  }

  /** Dropping superfluous zeros keeps the value. */
  lemma StripExact(whole: string, frac: string)
    requires AllDigits(whole) && AllDigits(frac)
    ensures var w, f := Lead(whole), RStrip(frac);
            && Canonical(w, f) && AllDigits(w + f)
            && NatOf(whole + frac) == NatOf(w + f) * Pow10(|frac| - |f|)
  {
    hide NatOf, Pow10, Lead, RStrip;
    LStripValue(whole, frac);
    RStripValue(Lead(whole), frac);
  }

  lemma PlaceLengths(digits: string, point: int)
    requires |digits| <= LIMIT && point <= LIMIT && (point < 0 ==> -point + |digits| <= LIMIT)
    ensures var (w, f) := Place(digits, point); |w| + |f| <= LIMIT + 1
  {
  }

  /**
   An expanded literal denotes exactly the value written, is canonical, and is
   at most 1026 characters long.
   */
  lemma ExpandExact(l: Literal) returns (w: string, f: string)
    requires WellFormed(l) && Expand(Print(l)).Expanded?
    ensures Expand(Print(l)).text == Join(w, f) && Canonical(w, f) && |Join(w, f)| <= 1026
    ensures SameValue(Mantissa(l), Exponent(l), NatOf(w + f), -|f|)
  {
    hide Expand, Print, Lead, RStrip, Join, Canonical, NatOf, Pow10, Place, SameValue;
    ExpandPrint(l);
    var digits := l.whole + l.frac;
    if AllZeros(digits) {
      ZeroExact(l);
      w, f := "0", "";
    } else {
      var point := |l.whole| + WrittenExponent(l);
      var (pw, pf) := Place(digits, point);
      PlaceExact(digits, point);
      StripExact(pw, pf);
      w, f := Lead(pw), RStrip(pf);
      ExactFromPlace(digits, point, pw, pf, w, f);
      PlaceLengths(digits, point);
      JoinLength(w, f);
    }
  }

  lemma ZeroExact(l: Literal)
    requires WellFormed(l) && AllZeros(l.whole + l.frac)
    ensures Join("0", "") == "0" && Canonical("0", "")
    ensures SameValue(Mantissa(l), Exponent(l), NatOf("0" + ""), 0)
  {
    NatOfZeros(l.whole + l.frac);
    NatOfZeros("0");
    assert "0" + "" == "0";
  }

  lemma JoinLength(w: string, f: string)
    ensures |Join(w, f)| <= |w| + 1 + |f|
  {
  }

  lemma ExactFromPlace(digits: string, point: int, pw: string, pf: string, w: string, f: string)
    requires AllDigits(digits) && AllDigits(pw) && AllDigits(pf) && AllDigits(w) && AllDigits(f) && |f| <= |pf|
    requires point <= |digits| ==> NatOf(pw + pf) == NatOf(digits) && -|pf| == point - |digits|
    requires point > |digits| ==> pf == "" && NatOf(pw) == NatOf(digits) * Pow10(point - |digits|)
    requires NatOf(pw + pf) == NatOf(w + f) * Pow10(|pf| - |f|)
    ensures SameValue(NatOf(digits), point - |digits|, NatOf(w + f), -|f|)
  {
    if point > |digits| {
      assert pw + pf == pw;
    }
  }

  // ------------------------------------------------------------ canonicity

  lemma Mod10(s: string)
    requires AllDigits(s) && s != ""
    ensures NatOf(s) % 10 == DigitValue(s[|s| - 1])
  {
  }

  /** A longer canonical fraction cannot have the value of a shorter one. */
  lemma FractionLengths(s: string, m: nat, k: nat)
    requires AllDigits(s) && s != "" && s[|s| - 1] != '0' && k > 0
    ensures NatOf(s) != m * Pow10(k)
  {
    Mod10(s);
    TimesTen(m, Pow10(k - 1));
  }

  lemma LongerIsGreater(s: string, t: string)
    requires AllDigits(s) && AllDigits(t) && |s| > |t| && s[0] != '0'
    ensures NatOf(s) > NatOf(t)
  {
    NatOfLead(s);
    NatOfBound(t);
    Pow10Monotone(|t|, |s| - 1);
  }

  lemma WholeLengths(w1: string, f1: string, w2: string, f2: string)
    requires Canonical(w1, f1) && Canonical(w2, f2) && |f1| == |f2| && |w1| > |w2|
    ensures NatOf(w1 + f1) > NatOf(w2 + f2)
  {
    hide NatOf;
    LongerIsGreater(w1 + f1, w2 + f2);
  }

  lemma Pow10Monotone(a: nat, b: nat)
    requires a <= b
    ensures Pow10(a) <= Pow10(b)
  {
    Pow10Sum(a, b - a);
    MulAtLeast(Pow10(b - a), Pow10(a));
  }

  lemma ConcatEqual(a: string, b: string, c: string, d: string)
    requires a + b == c + d && |a| == |c|
    ensures a == c && b == d
  {
    assert a == (a + b)[..|a|] == c;
    assert b == (a + b)[|a|..] == d;
  }

  /** Canonical decimals of the same value are the same text. */
  lemma CanonicalUnique(w1: string, f1: string, w2: string, f2: string)
    requires Canonical(w1, f1) && Canonical(w2, f2)
    requires SameValue(NatOf(w1 + f1), -|f1|, NatOf(w2 + f2), -|f2|)
    ensures w1 == w2 && f1 == f2
  {
    if |f1| > |f2| {
      assert (w1 + f1)[|w1 + f1| - 1] == f1[|f1| - 1];
      FractionLengths(w1 + f1, NatOf(w2 + f2), |f1| - |f2|);
    } else if |f1| < |f2| {
      assert (w2 + f2)[|w2 + f2| - 1] == f2[|f2| - 1];
      FractionLengths(w2 + f2, NatOf(w1 + f1), |f2| - |f1|);
    } else if |w1| > |w2| {
      WholeLengths(w1, f1, w2, f2);
    } else if |w1| < |w2| {
      WholeLengths(w2, f2, w1, f1);
    } else {
      NatOfInjective(w1 + f1, w2 + f2);
      ConcatEqual(w1, f1, w2, f2);
    }
  }

  /** m1 * 10^e1 == m2 * 10^e2 == m3 * 10^e3 */
  lemma SameValueEuclid(m1: nat, e1: int, m2: nat, e2: int, m3: nat, e3: int)
    requires SameValue(m1, e1, m2, e2) && SameValue(m1, e1, m3, e3)
    ensures SameValue(m2, e2, m3, e3)
  {
    // all three at the scale of the smallest exponent
    var lo := if e1 <= e2 && e1 <= e3 then e1 else if e2 <= e3 then e2 else e3;
    ScaleDown(m1, e1, m2, e2, lo);
    ScaleDown(m1, e1, m3, e3, lo);
    ScaleUp(m2, e2, m3, e3, lo);
  }

  lemma ScaleDown(m1: nat, e1: int, m2: nat, e2: int, lo: int)
    requires SameValue(m1, e1, m2, e2) && lo <= e1 && lo <= e2
    ensures m1 * Pow10(e1 - lo) == m2 * Pow10(e2 - lo)
  {
    if e1 <= e2 {
      Pow10Sum(e2 - e1, e1 - lo);
      MulAssoc(m2, Pow10(e2 - e1), Pow10(e1 - lo));
    } else {
      Pow10Sum(e1 - e2, e2 - lo);
      MulAssoc(m1, Pow10(e1 - e2), Pow10(e2 - lo));
    }
  }

  lemma ScaleUp(m1: nat, e1: int, m2: nat, e2: int, lo: int)
    requires lo <= e1 && lo <= e2 && m1 * Pow10(e1 - lo) == m2 * Pow10(e2 - lo)
    ensures SameValue(m1, e1, m2, e2)
  {
    if e1 <= e2 {
      Pow10Sum(e2 - e1, e1 - lo);
      MulAssoc(m2, Pow10(e2 - e1), Pow10(e1 - lo));
      MulCancel(m1, m2 * Pow10(e2 - e1), Pow10(e1 - lo));
    } else {
      Pow10Sum(e1 - e2, e2 - lo);
      MulAssoc(m1, Pow10(e1 - e2), Pow10(e2 - lo));
      MulCancel(m1 * Pow10(e1 - e2), m2, Pow10(e2 - lo));
    }
  }

  lemma MulAssoc(a: nat, b: nat, c: nat)
    ensures (a * b) * c == a * (b * c)
  {
  }

  lemma MulCancel(a: nat, b: nat, c: nat)
    requires c > 0 && a * c == b * c
    ensures a == b
  {
    assert (b - a) * c == b * c - a * c;
    assert (a - b) * c == a * c - b * c;
    if a < b {
      MulAtLeast(b - a, c);
    } else if a > b {
      MulAtLeast(a - b, c);
    }
  }

  /** Literals of equal magnitude that both expand are matched on the same text. */
  lemma EqualMagnitudeEqualText(l1: Literal, l2: Literal)
    requires WellFormed(l1) && WellFormed(l2)
    requires SameValue(Mantissa(l1), Exponent(l1), Mantissa(l2), Exponent(l2))
    requires Expand(Print(l1)).Expanded? && Expand(Print(l2)).Expanded?
    ensures Expand(Print(l1)) == Expand(Print(l2))
  {
    hide Expand, Print, Mantissa, Exponent, SameValue, Canonical;
    var w1, f1 := ExpandExact(l1);
    var w2, f2 := ExpandExact(l2);
    CanonicalDigits(w1, f1);
    CanonicalDigits(w2, f2);
    SameValueEuclid(Mantissa(l1), Exponent(l1), NatOf(w1 + f1), -|f1|, Mantissa(l2), Exponent(l2));
    SameValueSymmetric(NatOf(w1 + f1), -|f1|, Mantissa(l2), Exponent(l2));
    SameValueEuclid(Mantissa(l2), Exponent(l2), NatOf(w1 + f1), -|f1|, NatOf(w2 + f2), -|f2|);
    CanonicalUnique(w1, f1, w2, f2);
  }

  lemma CanonicalDigits(w: string, f: string)
    requires Canonical(w, f)
    ensures AllDigits(w + f)
  {
  }

  lemma SameValueSymmetric(m1: nat, e1: int, m2: nat, e2: int)
    requires SameValue(m1, e1, m2, e2)
    ensures SameValue(m2, e2, m1, e1)
  {
  }

  /**
   When a literal is refused as over-long: it is not zero, and written out
   before any zero is dropped it needs more than 1024 digits in all, in front
   of the point, or behind it.  The clamps on the exponent add nothing.
   */
  lemma TooLongExactly(l: Literal)
    requires WellFormed(l)
    ensures var digits := l.whole + l.frac;
            var (w, f) := Place(digits, |l.whole| + WrittenExponent(l));
            && !Expand(Print(l)).NotANumber?
            && (Expand(Print(l)).TooLong? <==> Mantissa(l) != 0 && (|digits| > 1024 || |w| > 1024 || |f| > 1024))
  {
    hide Expand, Print, Canonicalize, NatOf;
    ExpandPrint(l);
    NatOfPositive(l.whole + l.frac);
  }

  /** A non-zero literal with a positive exponent of five digits is always refused. */
  lemma BigExponentTooLong(l: Literal)
    requires WellFormed(l) && l.whole[0] != '0' && l.expSign != "-" && |l.exp| >= 5 && l.exp[0] != '0'
    ensures Expand(Print(l)).TooLong?
  {
    hide Expand, Print, Place, NatOf;
    ExpandPrint(l);
    NatOfLead(l.exp);
    Pow10Monotone(4, |l.exp| - 1);
    assert Pow10(4) == 10000 by {
      assert Pow10(2) == 100;
    }
    assert (l.whole + l.frac)[0] == l.whole[0];
  }
}
