/**
 Punycode text and code points (RFC 3492), the loops of config-pack/render.py
 that convert between them, and the label test built on both.

 `Encode` is a reference definition: the digits of `Deltas`, which does not
 scan.  `Decode` follows the decoder's loop.  The methods are proved equal to
 the two, and the two are proved inverse to each other.
 */
module Punycode {
  import opened Wrappers
  import opened Arithmetic
  import opened PunycodeDigits
  import opened PunycodeDeltas

  // ----------------------------------------------------------------- codec

  datatype Emitted = Emitted(text: seq<int>, bias: nat)

  /** The digits of all deltas, each spelled under the bias the ones before it left. */
  function Emit(b: nat, ds: seq<nat>): (e: Emitted)
  {
    if ds == [] then Emitted([], INITIAL_BIAS)
    else
      var before := Emit(b, ds[..|ds| - 1]);
      var d := ds[|ds| - 1];
      Emitted(before.text + EncInt(d, BASE, before.bias), Adapt(d, b + |ds|, |ds| == 1))
  }

  /** Punycode text of a list of code points, without scanning: the reference the encoder meets. */
  function Encode(cps: seq<int>): seq<int>
  {
    var b := Below(cps, INITIAL_N);
    b + (if b == [] then [] else [HYPHEN]) + Emit(|b|, Deltas(cps)).text
  }

  predicate IsSurrogate(n: int)
  {
    0xD800 <= n <= 0xDFFF
  }

  /** Code points the decoder refuses to produce from digits. */
  predicate Refused(n: int)
  {
    n > 0x10FFFF || n < 0x80 || IsSurrogate(n)
  }

  /** Position of the last hyphen, or -1. */
  function RFind(text: seq<int>): (b: int)
    ensures -1 <= b < |text|
    ensures b >= 0 ==> text[b] == HYPHEN
    ensures forall k :: b < k < |text| ==> text[k] != HYPHEN
  {
    if text == [] then -1
    else if text[|text| - 1] == HYPHEN then |text| - 1
    else RFind(text[..|text| - 1])
  }

  function DecodeFrom(text: seq<int>, pos: nat, st: State, bias: nat): Option<seq<int>>
    requires pos <= |text| && st.i <= |st.output|
    decreases |text| - pos
  {
    if pos >= |text| then Some(st.output)
    else
      match ReadInt(text, pos, st.i, 1, BASE, bias)
      case None => None
      case Some((p, i)) =>
        var st' := Insert(st, i - st.i);
        if Refused(st'.n) then None
        else DecodeFrom(text, p, st', Adapt(i - st.i, |st'.output|, st.i == 0))
  }

  function BasicPart(text: seq<int>): seq<int>
  {
    if RFind(text) > 0 then text[..RFind(text)] else []
  }

  function DigitsStart(text: seq<int>): (pos: nat)
    ensures pos <= |text|
  {
    if RFind(text) > 0 then RFind(text) + 1 else 0
  }

  /** Code points of a Punycode text, or None where the decoder gives up. */
  function Decode(text: seq<int>): Option<seq<int>>
  {
    if !AllBasic(BasicPart(text)) then None
    else DecodeFrom(text, DigitsStart(text), State(BasicPart(text), INITIAL_N, 0), INITIAL_BIAS)
  }

  // ------------------------------------------------- decoding is canonical

  lemma Snoc(basic: seq<int>, ds: seq<nat>, d: nat)
    ensures Apply(basic, ds + [d]) == Insert(Apply(basic, ds), d)
    ensures Emit(|basic|, ds + [d]).text == Emit(|basic|, ds).text + EncInt(d, BASE, Emit(|basic|, ds).bias)
    ensures Emit(|basic|, ds + [d]).bias
         == Adapt(d, |Apply(basic, ds).output| + 1, Apply(basic, ds).i == 0)
  {
    assert (ds + [d])[..|ds + [d]| - 1] == ds;
  }

  /** One round of the decoder's outer loop reads the spelling of one delta. */
  lemma DecodeStep(text: seq<int>, pos: nat, st: State, bias: nat) returns (p: nat, d: nat)
    requires pos < |text| && st.i <= |st.output|
    requires DecodeFrom(text, pos, st, bias).Some?
    ensures pos < p <= |text| && text[pos..p] == EncInt(d, BASE, bias)
    ensures DecodeFrom(text, p, Insert(st, d), Adapt(d, |st.output| + 1, st.i == 0))
         == DecodeFrom(text, pos, st, bias)
  {
    hide ReadInt, Insert, Adapt, EncInt;
    d := ReadIntSound(text, pos, st.i, 1, BASE, bias);
    p := ReadInt(text, pos, st.i, 1, BASE, bias).value.0;
  }

  lemma Glue(text: seq<int>, a: nat, b: nat, c: nat, x: seq<int>, y: seq<int>)
    requires a <= b <= c <= |text| && text[a..b] == x && text[b..c] == y
    ensures text[a..c] == x + y
  {
  }

  /** The decoder, resumed after the digits of `ds`, ends at some longer list of deltas. */
  lemma {:induction false} DecodeFromSound(
    text: seq<int>, start: nat, pos: nat, basic: seq<int>, ds: seq<nat>, out: seq<int>)
    returns (all: seq<nat>)
    requires start <= pos <= |text|
    requires text[start..pos] == Emit(|basic|, ds).text
    requires DecodeFrom(text, pos, Apply(basic, ds), Emit(|basic|, ds).bias) == Some(out)
    ensures out == Apply(basic, all).output
    ensures text[start..] == Emit(|basic|, all).text
    decreases |text| - pos
  {
    hide ReadInt, Insert, Adapt, EncInt;
    if pos == |text| {
      all := ds;
      assert text[start..pos] == text[start..];
    } else {
      var e := Emit(|basic|, ds);
      var p, d := DecodeStep(text, pos, Apply(basic, ds), e.bias);
      Glue(text, start, pos, p, e.text, EncInt(d, BASE, e.bias));
      Snoc(basic, ds, d);
      all := DecodeFromSound(text, start, p, basic, ds + [d], out);
    }
  }

  lemma SplitText(text: seq<int>)
    ensures var b := BasicPart(text);
            text == b + (if b == [] then [] else [HYPHEN]) + text[DigitsStart(text)..]
  {
    var r := RFind(text);
    if r > 0 {
      assert text == text[..r] + [text[r]] + text[r + 1..];
    }
  }

  /** Only one text decodes to a given list of code points, and the encoder writes it. */
  lemma EncodeDecode(text: seq<int>)
    requires Decode(text).Some?
    ensures Encode(Decode(text).value) == text
  {
    hide ReadInt, Insert, Adapt, EncInt;
    var basic, start := BasicPart(text), DigitsStart(text);
    SplitText(text);
    assert text[start..start] == Emit(|basic|, []).text;
    assert Apply(basic, []) == State(basic, INITIAL_N, 0);
    var ds := DecodeFromSound(text, start, start, basic, [], Decode(text).value);
    DeltasApply(basic, ds);
  }

  lemma DecodeInjective(s: seq<int>, t: seq<int>)
    requires Decode(s).Some? && Decode(s) == Decode(t)
    ensures s == t
  {
    EncodeDecode(s);
    EncodeDecode(t);
  }

  // --------------------------------------------- decoding inverts encoding

  /** No cut-off fires while the last of the deltas `ds` is read. */
  predicate DeltaFits(basic: seq<int>, ds: seq<nat>)
    requires ds != []
  {
    var before := ds[..|ds| - 1];
    Fits(ds[|ds| - 1], Apply(basic, before).i, 1, BASE, Emit(|basic|, before).bias)
  }

  /** The decoder gets through the last of the deltas `ds`: no cut-off fires, no code point is refused. */
  predicate Readable(basic: seq<int>, ds: seq<nat>)
    requires ds != []
  {
    DeltaFits(basic, ds) && !Refused(Apply(basic, ds).n)
  }

  predicate ReadableFrom(basic: seq<int>, ds: seq<nat>, m: nat)
  {
    forall j :: m < j <= |ds| ==> Readable(basic, ds[..j])
  }

  /** Reading the spelling of a delta moves the decoder past it, or stops it for good. */
  lemma DecodeReads(text: seq<int>, pos: nat, st: State, bias: nat, d: nat)
    requires st.i <= |st.output| && pos + |EncInt(d, BASE, bias)| <= |text|
    requires text[pos..pos + |EncInt(d, BASE, bias)|] == EncInt(d, BASE, bias)
    ensures DecodeFrom(text, pos, st, bias)
         == if Fits(d, st.i, 1, BASE, bias) && !Refused(Insert(st, d).n)
            then DecodeFrom(text, pos + |EncInt(d, BASE, bias)|, Insert(st, d), Adapt(d, |st.output| + 1, st.i == 0))
            else None
  {
    hide ReadInt, Insert, Adapt, EncInt, Fits;
    ReadIntOfEncInt(text, pos, d, st.i, 1, BASE, bias);
  }

  lemma {:induction false} EmitPrefix(b: nat, ds: seq<nat>, m: nat)
    requires m <= |ds|
    ensures Emit(b, ds[..m]).text <= Emit(b, ds).text
    decreases |ds|
  {
    if m == |ds| {
      assert ds[..m] == ds;
    } else {
      assert ds[..|ds| - 1][..m] == ds[..m];
      EmitPrefix(b, ds[..|ds| - 1], m);
    }
  }

  lemma PrefixSlice(s: seq<int>, x: seq<int>, y: seq<int>)
    requires x + y <= s
    ensures s[|x|..|x| + |y|] == y
  {
    assert s[..|x + y|] == x + y;
    assert s[|x|..|x| + |y|] == s[..|x + y|][|x|..];
  }

  lemma ShiftSlice(text: seq<int>, start: nat, s: seq<int>, a: nat, b: nat)
    requires start <= |text| && text[start..] == s && a <= b <= |s|
    ensures text[start + a..start + b] == s[a..b]
  {
    assert |text[start + a..start + b]| == |s[a..b]|;
    forall k | 0 <= k < b - a ensures text[start + a..start + b][k] == s[a..b][k] {
      assert s[a + k] == text[start..][a + k];
    }
  }

  /** The decoder before the digits of the `m`-th delta of `ds`, in a text that spells all of `ds`. */
  lemma {:induction false} DecodeFromEmit(text: seq<int>, start: nat, basic: seq<int>, ds: seq<nat>, m: nat)
    requires start <= |text| && text[start..] == Emit(|basic|, ds).text && m <= |ds|
    ensures var e := Emit(|basic|, ds[..m]);
            && start + |e.text| <= |text|
            && DecodeFrom(text, start + |e.text|, Apply(basic, ds[..m]), e.bias)
            == if ReadableFrom(basic, ds, m) then Some(Apply(basic, ds).output) else None
    decreases |ds| - m
  {
    hide ReadInt, Insert, Adapt, EncInt, Fits, Readable;
    EmitPrefix(|basic|, ds, m);
    if m == |ds| {
      assert ds[..m] == ds;
    } else {
      DecodeFromEmit(text, start, basic, ds, m + 1);
      DecodeFromEmitStep(text, start, basic, ds, m);
    }
  }

  lemma DecodeFromEmitStep(text: seq<int>, start: nat, basic: seq<int>, ds: seq<nat>, m: nat)
    requires start <= |text| && text[start..] == Emit(|basic|, ds).text && m < |ds|
    ensures var e, e' := Emit(|basic|, ds[..m]), Emit(|basic|, ds[..m + 1]);
            && start + |e.text| <= |text| && start + |e'.text| <= |text|
            && DecodeFrom(text, start + |e.text|, Apply(basic, ds[..m]), e.bias)
            == if Readable(basic, ds[..m + 1])
               then DecodeFrom(text, start + |e'.text|, Apply(basic, ds[..m + 1]), e'.bias)
               else None
  {
    hide DecodeFrom, ReadInt, Insert, Adapt, EncInt, Fits;
    var e := Emit(|basic|, ds[..m]);
    assert ds[..m + 1] == ds[..m] + [ds[m]];
    assert ds[..m + 1][..m] == ds[..m];
    EmitPrefix(|basic|, ds, m + 1);
    Snoc(basic, ds[..m], ds[m]);
    var digits := EncInt(ds[m], BASE, e.bias);
    PrefixSlice(Emit(|basic|, ds).text, e.text, digits);
    ShiftSlice(text, start, Emit(|basic|, ds).text, |e.text|, |e.text| + |digits|);
    DecodeReads(text, start + |e.text|, Apply(basic, ds[..m]), e.bias, ds[m]);
  }

  /** The decoder gets through everything the encoder writes for `cps`. */
  predicate Decodable(cps: seq<int>)
  {
    ReadableFrom(Below(cps, INITIAL_N), Deltas(cps), 0)
  }

  predicate IsDigit(c: int)
  {
    DigitOf(c).Some?
  }

  lemma {:induction false} EncIntDigits(q: nat, k: int, bias: int)
    ensures forall j :: 0 <= j < |EncInt(q, k, bias)| ==> IsDigit(EncInt(q, k, bias)[j])
    decreases q
  {
    var t := Threshold(k, bias);
    if q >= t {
      EncIntDigits(Rest(q, t), k + BASE, bias);
    }
  }

  lemma {:induction false} EmitDigits(b: nat, ds: seq<nat>)
    ensures forall j :: 0 <= j < |Emit(b, ds).text| ==> IsDigit(Emit(b, ds).text[j])
    decreases |ds|
  {
    hide EncInt, Adapt;
    if ds == [] {
    } else {
      EmitDigits(b, ds[..|ds| - 1]);
      EncIntDigits(ds[|ds| - 1], BASE, Emit(b, ds[..|ds| - 1]).bias);
    }
  }

  /** The last hyphen of a text that ends in digits is the one before them. */
  lemma RFindDelimiter(basic: seq<int>, digits: seq<int>)
    requires forall j :: 0 <= j < |digits| ==> IsDigit(digits[j])
    ensures var text := basic + (if basic == [] then [] else [HYPHEN]) + digits;
            BasicPart(text) == basic && DigitsStart(text) <= |text| && text[DigitsStart(text)..] == digits
  {
    if basic == [] {
      var text := [] + [] + digits;
      assert text == digits;
      assert RFind(text) == -1;
    } else {
      var text := basic + [HYPHEN] + digits;
      assert text[|basic|] == HYPHEN;
      forall k | |basic| < k < |text| ensures text[k] != HYPHEN {
        assert text[k] == digits[k - |basic| - 1];
      }
      assert RFind(text) == |basic|;
    }
  }

  /** Code points the decoder can produce: basic, or a scalar value up to U+10FFFF. */
  predicate Scalar(c: int)
  {
    c <= 0x10FFFF && !(0xD800 <= c <= 0xDFFF)
  }

  predicate AllScalar(cps: seq<int>)
  {
    forall k :: 0 <= k < |cps| ==> Scalar(cps[k])
  }

  /** No cut-off fires anywhere in what the encoder writes for `cps`. */
  predicate AllFit(cps: seq<int>)
  {
    forall j :: 0 < j <= |Deltas(cps)| ==> DeltaFits(Below(cps, INITIAL_N), Deltas(cps)[..j])
  }

  /** Every value of `n` the decoder passes through is a code point of its output. */
  lemma {:induction false} ApplyPasses(basic: seq<int>, ds: seq<nat>, m: nat)
    requires 0 < m <= |ds|
    ensures Apply(basic, ds[..m]).n in Apply(basic, ds).output
    decreases |ds|
  {
    if m == |ds| {
      assert ds[..m] == ds;
      var st := Apply(basic, ds);
      assert st.output[st.i - 1] == st.n;
    } else {
      var before := ds[..|ds| - 1];
      assert before[..m] == ds[..m];
      ApplyPasses(basic, before, m);
      InsertKeeps(Apply(basic, before), ds[|ds| - 1], Apply(basic, ds[..m]).n);
    }
  }

  lemma InsertKeeps(st: State, d: nat, x: int)
    requires st.i <= |st.output| && x in st.output
    ensures x in Insert(st, d).output
  {
    var k :| 0 <= k < |st.output| && st.output[k] == x;
    var st' := Insert(st, d);
    assert st'.output[if k < st'.i - 1 then k else k + 1] == x;
  }

  /** And every code point of the output is basic or such a value. */
  lemma {:induction false} ApplyPassesAll(basic: seq<int>, ds: seq<nat>, x: int) returns (m: nat)
    requires x in Apply(basic, ds).output && x !in basic
    ensures 0 < m <= |ds| && Apply(basic, ds[..m]).n == x
    decreases |ds|
  {
    hide Insert;
    if x == Apply(basic, ds).n {
      m := |ds|;
      assert ds[..m] == ds;
    } else {
      var before := ds[..|ds| - 1];
      InsertAdds(Apply(basic, before), ds[|ds| - 1], x);
      m := ApplyPassesAll(basic, before, x);
      assert before[..m] == ds[..m];
    }
  }

  lemma InsertAdds(st: State, d: nat, x: int)
    requires st.i <= |st.output| && x in Insert(st, d).output
    ensures x in st.output || x == Insert(st, d).n
  {
  }

  lemma {:induction false} BelowIsBelow(s: seq<int>, n: int, x: int)
    ensures x in Below(s, n) ==> x < n
  {
    if s == [] {
    } else {
      BelowIsBelow(s[..|s| - 1], n, x);
    }
  }

  /** The decoder's refusals, in terms of what was encoded. */
  lemma DecodableExactly(cps: seq<int>)
    ensures Decodable(cps) <==> AllScalar(cps) && AllFit(cps)
  {
    hide Deltas, Insert, DeltaFits, Apply, Below, NOf, IOf;
    var basic, ds := Below(cps, INITIAL_N), Deltas(cps);
    ApplyDeltas(cps);
    if Decodable(cps) {
      forall k | 0 <= k < |cps|
        ensures Scalar(cps[k])
      {
        if cps[k] in basic {
          BelowIsBelow(cps, INITIAL_N, cps[k]);
        } else {
          var m := ApplyPassesAll(basic, ds, cps[k]);
          assert Readable(basic, ds[..m]);
        }
      }
      forall j | 0 < j <= |ds|
        ensures DeltaFits(basic, ds[..j])
      {
        assert Readable(basic, ds[..j]);
      }
    }
    if AllScalar(cps) && AllFit(cps) {
      forall j | 0 < j <= |ds|
        ensures Readable(basic, ds[..j])
      {
        ApplyPasses(basic, ds, j);
        PassedIsNotBasic(basic, ds[..j]);
        assert DeltaFits(basic, ds[..j]);
      }
    }
  }

  lemma PassedIsNotBasic(basic: seq<int>, ds: seq<nat>)
    ensures Scalar(Apply(basic, ds).n) ==> !Refused(Apply(basic, ds).n)
  {
  }

  /**
   Decoding what the encoder writes gives the same code points back, or
   nothing: exactly nothing when one of them is a surrogate or out of range, or
   a cut-off fires.
   */
  lemma DecodeEncode(cps: seq<int>)
    ensures Decode(Encode(cps)) == if Decodable(cps) then Some(cps) else None
    ensures Decode(Encode(cps)) == if AllScalar(cps) && AllFit(cps) then Some(cps) else None
  {
    hide Deltas, DecodeFrom, Insert, Adapt, Readable, RFind, BasicPart, DigitsStart, Below, AllScalar, AllFit;
    var basic, ds := Below(cps, INITIAL_N), Deltas(cps);
    var text := Encode(cps);
    EmitDigits(|basic|, ds);
    RFindDelimiter(basic, Emit(|basic|, ds).text);
    ApplyDeltas(cps);
    assert ds[..0] == [];
    assert Emit(|basic|, []) == Emitted([], INITIAL_BIAS);
    DecodeFromEmit(text, DigitsStart(text), basic, ds, 0);
    DecodableExactly(cps);
  }

  // ------------------------------------------------ encoding is injective

  /** Two lists of deltas with the same digits agree as far as both go. */
  lemma {:induction false} EmitAgrees(b: nat, ds: seq<nat>, es: seq<nat>, m: nat)
    requires Emit(b, ds).text == Emit(b, es).text && m <= |ds| && m <= |es|
    ensures ds[..m] == es[..m]
    decreases m
  {
    hide EncInt, Adapt;
    if m == 0 {
    } else {
      EmitAgrees(b, ds, es, m - 1);
      var e := Emit(b, ds[..m - 1]);
      EmitPrefix(b, ds, m);
      EmitPrefix(b, es, m);
      assert ds[..m][..m - 1] == ds[..m - 1] && es[..m][..m - 1] == es[..m - 1];
      SamePrefix(Emit(b, ds).text, e.text, ds[m - 1], es[m - 1], e.bias);
      assert ds[..m] == ds[..m - 1] + [ds[m - 1]] && es[..m] == es[..m - 1] + [es[m - 1]];
    }
  }

  lemma SamePrefix(text: seq<int>, front: seq<int>, d: nat, e: nat, bias: int)
    requires front + EncInt(d, BASE, bias) <= text && front + EncInt(e, BASE, bias) <= text
    ensures d == e
  {
    hide EncInt;
    var a, c := EncInt(d, BASE, bias), EncInt(e, BASE, bias);
    PrefixSlice(text, front, a);
    PrefixSlice(text, front, c);
    var x, y := text[|front| + |a|..], text[|front| + |c|..];
    assert text[|front|..] == a + x;
    assert text[|front|..] == c + y;
    EncIntPrefixFree(d, e, BASE, bias, x, y);
  }

  /** Every delta has at least one digit. */
  lemma EmitLonger(b: nat, es: seq<nat>, m: nat)
    requires m < |es|
    ensures |Emit(b, es[..m]).text| < |Emit(b, es).text|
  {
    hide EncInt, Adapt;
    EmitPrefix(b, es, m + 1);
    assert es[..m + 1][..m] == es[..m];
  }

  lemma EmitInjective(b: nat, ds: seq<nat>, es: seq<nat>)
    requires Emit(b, ds).text == Emit(b, es).text && |ds| <= |es|
    ensures ds == es
  {
    hide Emit;
    EmitAgrees(b, ds, es, |ds|);
    assert ds == es[..|ds|];
    if |ds| < |es| {
      EmitLonger(b, es, |ds|);
    }
  }

  /** Different lists of code points have different texts, whether or not the decoder would take them back. */
  lemma EncodeInjective(s: seq<int>, t: seq<int>)
    requires Encode(s) == Encode(t)
    ensures s == t
  {
    hide Deltas, Below, Apply, RFind, BasicPart, DigitsStart, Emit, NOf, IOf;
    var b, c := Below(s, INITIAL_N), Below(t, INITIAL_N);
    EmitDigits(|b|, Deltas(s));
    EmitDigits(|c|, Deltas(t));
    RFindDelimiter(b, Emit(|b|, Deltas(s)).text);
    RFindDelimiter(c, Emit(|c|, Deltas(t)).text);
    if |Deltas(s)| <= |Deltas(t)| {
      EmitInjective(|b|, Deltas(s), Deltas(t));
    } else {
      EmitInjective(|b|, Deltas(t), Deltas(s));
    }
    ApplyDeltas(s);
    ApplyDeltas(t);
  }

  // ---------------------------------------- a bound under which it succeeds

  /** How far the decoder's `i` runs for one delta. */
  lemma InsertReach(st: State, d: nat, limit: nat, size: nat)
    requires st.i <= |st.output| && st.n >= INITIAL_N
    requires Insert(st, d).n <= limit && |st.output| < size
    ensures st.i + d < (limit + 1) * size
  {
    var b := |st.output| + 1;
    var q := Quot(st.i + d, b);
    QuotRem(st.i + d, b);
    Distribute(q, 1, b);
    assert st.i + d < (q + 1) * b;
    MulLe(q + 1, b, limit + 1, size);
  }

  lemma MulLe(a: nat, b: nat, c: nat, d: nat)
    requires a <= c && b <= d
    ensures a * b <= c * d
  {
    MulNonneg(c - a, b);
    MulNonneg(c, d - b);
    Distribute(c, a, b);
    assert c * (d - b) == c * d - c * b;
  }

  lemma ReadableSmall(basic: seq<int>, ds: seq<nat>, limit: nat, size: nat)
    requires ds != []
    requires Apply(basic, ds).n <= limit && !Refused(Apply(basic, ds).n)
    requires |basic| + |ds| <= size && 35 * ((limit + 1) * size) <= MAXINT
    ensures Readable(basic, ds)
  {
    hide Fits, Insert;
    var before, d := ds[..|ds| - 1], ds[|ds| - 1];
    InsertReach(Apply(basic, before), d, limit, size);
    SmallFits(d, Apply(basic, before).i, 1, BASE, Emit(|basic|, before).bias);
  }

  /**
   Round trip for every list whose size and largest code point are small
   enough; the factor 35 is the largest factor `w` can still grow by.
   */
  lemma DecodeEncodeBounded(cps: seq<int>, limit: nat)
    requires forall k :: 0 <= k < |cps| ==> cps[k] <= limit && Scalar(cps[k])
    requires 35 * ((limit + 1) * (|cps| + 1)) <= MAXINT
    ensures Decodable(cps) && Decode(Encode(cps)) == Some(cps)
  {
    hide Deltas, DecodeFrom, Insert, Adapt, Readable, Apply, Emit, Encode, Decode, Below, NOf, IOf;
    var basic, ds := Below(cps, INITIAL_N), Deltas(cps);
    ApplyDeltas(cps);
    forall j | 0 < j <= |ds| ensures Readable(basic, ds[..j]) {
      ApplyPasses(basic, ds, j);
      ReadableSmall(basic, ds[..j], limit, |cps| + 1);
    }
    DecodeEncode(cps);
  }

  // ------------------------------------------------------ the code's loops

  /** The decoder's inner loop: where the digits of one delta end, and what `i` has become. */
  method ReadDelta(encoded: seq<int>, start: nat, oldi: nat, bias: int) returns (r: Option<(nat, nat)>)
    requires start <= |encoded|
    ensures r == ReadInt(encoded, start, oldi, 1, BASE, bias)
  {
    var pos, i, w, k := start, oldi, 1, BASE;
    while true
      invariant start <= pos <= |encoded| && i >= 0 && w >= 0
      invariant ReadInt(encoded, pos, i, w, k, bias) == ReadInt(encoded, start, oldi, 1, BASE, bias)
      decreases |encoded| - pos
    {
      if pos >= |encoded| {
        return None;
      }
      var c := encoded[pos];
      pos := pos + 1;
      var digit;
      if 0x61 <= c <= 0x7A {
        digit := c - 0x61;
      } else if 0x30 <= c <= 0x39 {
        digit := c - 0x30 + 26;
      } else {
        return None;
      }
      MulNonneg(digit, w);
      i := i + digit * w;
      if i > MAXINT {
        return None;
      }
      var t := Threshold(k, bias);
      if digit < t {
        return Some((pos, i));
      }
      MulNonneg(w, BASE - t);
      w := w * (BASE - t);
      if w > MAXINT {
        return None;
      }
      k := k + BASE;
    }
  }

  method PunycodeDecode(encoded: seq<int>) returns (r: Option<seq<int>>)
    ensures r == Decode(encoded)
  {
    hide Adapt, RFind, Insert, With, ReadInt;
    var b := RFind(encoded);
    var output := if b > 0 then encoded[..b] else [];
    if !AllBasic(output) {
      return None;
    }
    var pos := if b > 0 then b + 1 else 0;
    var n, i, bias := INITIAL_N, 0, INITIAL_BIAS;
    while pos < |encoded|
      invariant 0 <= pos <= |encoded| && 0 <= i <= |output| && bias >= 0
      invariant DecodeFrom(encoded, pos, State(output, n, i), bias) == Decode(encoded)
      decreases |encoded| - pos
    {
      var oldi := i;
      var read := ReadDelta(encoded, pos, oldi, bias);
      if read.None? {
        return None;
      }
      pos, i := read.value.0, read.value.1;
      var size := |output| + 1;
      var delta := i - oldi;
      bias := PunyAdapt(delta, size, oldi == 0);
      InsertByDivision(State(output, n, oldi), delta);
      n := n + i / size;
      i := i % size;
      if n > 0x10FFFF || n < 0x80 || 0xD800 <= n <= 0xDFFF {
        return None;
      }
      output := output[..i] + [n] + output[i..];
      i := i + 1;
    }
    return Some(output);
  }

  lemma InsertByDivision(st: State, d: nat)
    requires st.i <= |st.output|
    ensures var size, i := |st.output| + 1, st.i + d;
            && 0 <= i % size <= |st.output|
            && Insert(st, d) == State(st.output[..i % size] + [st.n + i / size] + st.output[i % size..],
                                      st.n + i / size, i % size + 1)
  {
    DivMod(st.i + d, |st.output| + 1);
  }

  lemma {:induction false} BelowConcat(a: seq<int>, b: seq<int>, n: int)
    ensures Below(a + b, n) == Below(a, n) + Below(b, n)
    decreases |b|
  {
    if b == [] {
      assert a + b == a;
    } else {
      var b' := b[..|b| - 1];
      assert (a + b)[..|a + b| - 1] == a + b';
      BelowConcat(a, b', n);
    }
  }

  lemma {:induction false} BelowFull(s: seq<int>, n: int)
    requires |Below(s, n)| == |s|
    ensures Below(s, n) == s
    decreases |s|
  {
    if s == [] {
    } else {
      BelowFull(s[..|s| - 1], n);
    }
  }

  lemma BelowMisses(s: seq<int>, n: int)
    requires |Below(s, n)| < |s|
    ensures exists k :: 0 <= k < |s| && s[k] >= n
  {
    if forall k :: 0 <= k < |s| ==> s[k] < n {
      BelowAll(s, n);
    }
  }

  lemma {:induction false} BelowSkips(s: seq<int>, n: int, m: int)
    requires n <= m && forall k :: 0 <= k < |s| && s[k] >= n ==> s[k] >= m
    ensures Below(s, m) == Below(s, n)
    decreases |s|
  {
    if s == [] {
    } else {
      BelowSkips(s[..|s| - 1], n, m);
    }
  }

  /** What the encoder has emitted when it stands at position `j` of its scan for `n`. */
  function Handled(cps: seq<int>, n: int, j: nat): seq<int>
    requires j <= |cps|
  {
    Below(cps[..j], n + 1) + Below(cps[j..], n)
  }

  lemma HandledEnds(cps: seq<int>, n: int)
    ensures Handled(cps, n, 0) == Below(cps, n)
    ensures Handled(cps, n, |cps|) == Below(cps, n + 1)
  {
    assert cps[..0] == [] && cps[0..] == cps;
    assert cps[..|cps|] == cps && cps[|cps|..] == [];
  }

  /** One step of the scan: only an occurrence of `n` itself changes what is handled. */
  lemma HandledStep(cps: seq<int>, n: int, j: nat)
    requires j < |cps|
    ensures var before, i := Handled(cps, n, j), |Below(cps[..j], n + 1)|;
            && i <= |before|
            && |Below(cps[..j + 1], n + 1)| == (if cps[j] <= n then i + 1 else i)
            && Handled(cps, n, j + 1) == (if cps[j] == n then With(before, i, n) else before)
  {
    hide Below, With;
    var c := [cps[j]];
    var front, back := Below(cps[..j], n + 1), Below(cps[j + 1..], n);
    assert cps[..j + 1] == cps[..j] + c;
    assert cps[j..] == c + cps[j + 1..];
    BelowConcat(cps[..j], c, n + 1);
    BelowConcat(c, cps[j + 1..], n);
    BelowOne(cps[j], n);
    BelowOne(cps[j], n + 1);
    WithMiddle(front, back, cps[j]);
  }

  lemma WithMiddle(front: seq<int>, back: seq<int>, c: int)
    ensures With(front + back, |front|, c) == (front + [c]) + back == front + ([c] + back)
    ensures (front + []) + back == front + ([] + back) == front + back
  {
    assert (front + back)[..|front|] == front;
    assert (front + back)[|front|..] == back;
  }

  lemma BelowOne(c: int, n: int)
    ensures Below([c], n) == if c < n then [c] else []
  {
    assert [c][..0] == [];
    assert Below([], n) == [];
  }

  lemma HandledLatest(cps: seq<int>, n: int, j: nat)
    requires j <= |cps| && n >= INITIAL_N
    ensures Latest(Handled(cps, n, j), |Below(cps[..j], n + 1)|, n)
  {
  }

  function MinAtLeast(s: seq<int>, n: int): (m: int)
    requires exists k :: 0 <= k < |s| && s[k] >= n
    ensures m in s && m >= n
    ensures forall k :: 0 <= k < |s| && s[k] >= n ==> m <= s[k]
  {
    var last := s[|s| - 1];
    if forall k :: 0 <= k < |s| - 1 ==> s[k] < n then last
    else
      var m := MinAtLeast(s[..|s| - 1], n);
      if n <= last < m then last else m
  }

  /** Digits of one delta, lowest first, behind what is already written. */
  method EmitDelta(out0: seq<int>, delta: nat, bias: nat) returns (out: seq<int>)
    ensures out == out0 + EncInt(delta, BASE, bias)
  {
    out := out0;
    var q, k := delta, BASE;
    while true
      invariant q >= 0 && out + EncInt(q, k, bias) == out0 + EncInt(delta, BASE, bias)
      decreases q
    {
      var t := Threshold(k, bias);
      if q < t {
        break;
      }
      DivMod(q - t, BASE - t);
      var d := t + (q - t) % (BASE - t);
      ghost var rest := EncInt(Rest(q, t), k + BASE, bias);
      assert out + ([DigitChar(d)] + rest) == (out + [DigitChar(d)]) + rest;
      out := out + [if d < 26 then d + 0x61 else d - 26 + 0x30];
      q := (q - t) / (BASE - t);
      k := k + BASE;
    }
    out := out + [if q < 26 then q + 0x61 else q - 26 + 0x30];
  }

  /** The encoder's variables, when its scan for `n` has handled `done` and stands behind `i` of it. */
  ghost predicate Scanning(done: seq<int>, b: nat, n: int, i: int, out: seq<int>, h: int, delta: int, bias: nat)
  {
    && n >= INITIAL_N && h == |done| == b + |Deltas(done)|
    && delta == (n - NOf(done)) * (h + 1) + i - IOf(done)
    && Emitted(out, bias) == Emit(b, Deltas(done))
  }

  lemma ScanStart(cps: seq<int>)
    ensures var basic := Below(cps, INITIAL_N);
            Scanning(basic, |basic|, INITIAL_N, 0, [], |basic|, 0, INITIAL_BIAS)
  {
  }

  lemma ScanSkip(done: seq<int>, b: nat, n: int, i: int, out: seq<int>, h: int, delta: int, bias: nat)
    requires Scanning(done, b, n, i, out, h, delta, bias)
    ensures Scanning(done, b, n, i + 1, out, h, delta + 1, bias)
  {
  }

  lemma ScanTurn(done: seq<int>, b: nat, n: int, out: seq<int>, h: int, delta: int, bias: nat)
    requires Scanning(done, b, n, |done|, out, h, delta, bias)
    ensures Scanning(done, b, n + 1, 0, out, h, delta + 1, bias)
  {
    hide Deltas, Emit, NOf, IOf;
    assert (n + 1 - NOf(done)) * (h + 1) == (n - NOf(done)) * (h + 1) + (h + 1);
  }

  lemma ScanJump(done: seq<int>, b: nat, n: int, i: int, out: seq<int>, h: int, delta: int, bias: nat, m: int)
    requires Scanning(done, b, n, i, out, h, delta, bias) && m >= n
    ensures Scanning(done, b, m, i, out, h, delta + (m - n) * (h + 1), bias)
  {
    hide Deltas, Emit, NOf, IOf;
    assert (m - NOf(done)) == (m - n) + (n - NOf(done));
    Distribute(m - n, n - NOf(done), h + 1);
  }

  lemma ScanEmit(done: seq<int>, b: nat, n: int, i: nat, out: seq<int>, h: int, delta: int, bias: nat)
    requires Scanning(done, b, n, i, out, h, delta, bias) && Latest(done, i, n)
    ensures delta >= 0 && bias >= 0
    ensures Scanning(With(done, i, n), b, n, i + 1, out + EncInt(delta, BASE, bias), h + 1, 0,
                     Adapt(delta, h + 1, h == b))
  {
    hide EncInt, Adapt, NOf, IOf, With, Latest;
    DeltasOfWith(done, i, n);
    var ds := Deltas(done) + [delta];
    assert ds[..|ds| - 1] == Deltas(done);
  }

  lemma ScanFacts(done: seq<int>, b: nat, n: int, i: int, out: seq<int>, h: int, delta: int, bias: nat)
    requires Scanning(done, b, n, i, out, h, delta, bias)
    ensures n >= INITIAL_N && h == |done|
  {
  }

  lemma ScanDone(cps: seq<int>, n: int, out: seq<int>, h: int, delta: int, bias: nat)
    requires Scanning(Below(cps, n), |Below(cps, INITIAL_N)|, n, 0, out, h, delta, bias) && h >= |cps|
    ensures Encode(cps) == Below(cps, INITIAL_N) + (if Below(cps, INITIAL_N) == [] then [] else [HYPHEN]) + out
  {
    BelowFull(cps, n);
  }

  /** The encoder's inner loop: one scan for `n`, emitting a delta at each occurrence. */
  method ScanFor(codePoints: seq<nat>, b: nat, n: nat, out0: seq<int>, ghost digits0: seq<int>,
                 h0: nat, delta0: int, bias0: nat)
    returns (out: seq<int>, ghost digits: seq<int>, h: nat, delta: int, bias: nat)
    requires n in codePoints
    requires Scanning(Below(codePoints, n), b, n, 0, digits0, h0, delta0, bias0)
    ensures Scanning(Below(codePoints, n + 1), b, n, h, digits, h, delta, bias)
    ensures h > h0
    ensures forall front :: out0 == front + digits0 ==> out == front + digits
  {
    hide Deltas, Emit, NOf, IOf, EncInt, Adapt, With, Latest, Below, Handled, Scanning;
    out, digits, h, delta, bias := out0, digits0, h0, delta0, bias0;
    HandledEnds(codePoints, n);
    for j := 0 to |codePoints|
      invariant forall front :: out0 == front + digits0 ==> out == front + digits
      invariant Scanning(Handled(codePoints, n, j), b, n, |Below(codePoints[..j], n + 1)|, digits, h, delta, bias)
      invariant h >= h0 && (n in codePoints[..j] ==> h > h0)
    {
      var c := codePoints[j];
      ghost var done, i := Handled(codePoints, n, j), |Below(codePoints[..j], n + 1)|;
      HandledStep(codePoints, n, j);
      if c < n {
        ScanSkip(done, b, n, i, digits, h, delta, bias);
        delta := delta + 1;
      } else if c == n {
        ScanFacts(done, b, n, i, digits, h, delta, bias);
        HandledLatest(codePoints, n, j);
        ScanEmit(done, b, n, i, digits, h, delta, bias);
        digits := digits + EncInt(delta, BASE, bias);
        out := EmitDelta(out, delta, bias);
        bias := PunyAdapt(delta, h + 1, h == b);
        delta := 0;
        h := h + 1;
      }
    }
    assert codePoints[..|codePoints|] == codePoints;
    ScanFacts(Below(codePoints, n + 1), b, n, |Below(codePoints, n + 1)|, digits, h, delta, bias);
  }

  method PunycodeEncode(codePoints: seq<nat>) returns (out: seq<int>)
    ensures out == Encode(codePoints)
  {
    hide Deltas, Emit, Below, MinAtLeast, Scanning, Encode;
    var basic := Below(codePoints, INITIAL_N);
    var b := |basic|;
    var h := b;
    out := basic;
    if b > 0 {
      out := out + [HYPHEN];
    }
    ghost var digits: seq<int> := [];
    ghost var front := out;
    var n, delta := INITIAL_N, 0;
    var bias: nat := INITIAL_BIAS;
    ScanStart(codePoints);
    while h < |codePoints|
      invariant out == front + digits
      invariant Scanning(Below(codePoints, n), b, n, 0, digits, h, delta, bias)
      decreases |codePoints| - h
    {
      ScanFacts(Below(codePoints, n), b, n, 0, digits, h, delta, bias);
      BelowMisses(codePoints, n);
      var m := MinAtLeast(codePoints, n);
      ScanJump(Below(codePoints, n), b, n, 0, digits, h, delta, bias, m);
      BelowSkips(codePoints, n, m);
      delta := delta + (m - n) * (h + 1);
      n := m;
      out, digits, h, delta, bias := ScanFor(codePoints, b, n, out, digits, h, delta, bias);
      ScanFacts(Below(codePoints, n + 1), b, n, h, digits, h, delta, bias);
      ScanTurn(Below(codePoints, n + 1), b, n, digits, h, delta, bias);
      delta := delta + 1;
      n := n + 1;
    }
    ScanDone(codePoints, n, digits, h, delta, bias);
  }

  // ------------------------------------------------------------ ACE labels

  function LowerChar(c: int): int
  {
    if 0x41 <= c <= 0x5A then c + 0x20 else c
  }

  /** Lower-casing of a label; host labels are ASCII by the time they get here. */
  function Lower(s: seq<int>): (r: seq<int>)
    ensures |r| == |s|
  {
    seq(|s|, k requires 0 <= k < |s| => LowerChar(s[k]))
  }

  predicate IdnLetterOk(cp: int)
  {
    if 0x61 <= cp <= 0x7A || 0x30 <= cp <= 0x39 || cp == 0x2D then true
    else if 0xDF <= cp <= 0xF6 || 0xF8 <= cp <= 0xFF then true
    else if 0x101 <= cp <= 0x137 then cp % 2 == 1 && cp != 0x133
    else if cp == 0x138 then true
    else if 0x13A <= cp <= 0x148 then cp % 2 == 0 && cp != 0x140
    else if 0x14B <= cp <= 0x177 then cp % 2 == 1
    else cp == 0x17A || cp == 0x17C || cp == 0x17E
  }

  predicate AllLetters(cps: seq<int>)
  {
    forall k :: 0 <= k < |cps| ==> IdnLetterOk(cps[k])
  }

  /** What follows the `xn--` of a label. */
  function AceRest(name: seq<int>): seq<int>
  {
    var l := Lower(name);
    if |l| >= 4 then l[4..] else []
  }

  predicate ValidAceLabel(name: seq<int>)
  {
    var rest := AceRest(name);
    match Decode(rest)
    case None => false
    case Some(cps) =>
      cps != [] && !AllBasic(cps) && AllLetters(cps) && Encode(cps) == rest
  }

  /** The last test of `valid_ace_label`, encoding again, never rejects anything. */
  lemma AceReencodeRedundant(name: seq<int>)
    ensures ValidAceLabel(name)
       <==> var d := Decode(AceRest(name)); d.Some? && !AllBasic(d.value) && AllLetters(d.value)
  {
    if Decode(AceRest(name)).Some? {
      EncodeDecode(AceRest(name));
    }
  }

  const ACE_PREFIX: seq<int> := [0x78, 0x6E, 0x2D, 0x2D]

  lemma LettersLower(s: seq<int>)
    requires forall k :: 0 <= k < |s| ==> LowerChar(s[k]) == s[k]
    ensures Lower(s) == s
  {
  }

  lemma LowerConcat(a: seq<int>, b: seq<int>)
    ensures Lower(a + b) == Lower(a) + Lower(b)
  {
  }

  /** Every character the encoder writes for such letters is one that lower-casing keeps. */
  lemma EncodeIsLower(cps: seq<int>)
    requires AllLetters(cps)
    ensures Lower(Encode(cps)) == Encode(cps)
  {
    hide Deltas, Emit, Lower;
    var b := Below(cps, INITIAL_N);
    var delimiter := if b == [] then [] else [HYPHEN];
    var digits := Emit(|b|, Deltas(cps)).text;
    EmitDigits(|b|, Deltas(cps));
    BelowKeeps(cps, INITIAL_N);
    LettersLower(b);
    LettersLower(delimiter);
    LettersLower(digits);
    LowerConcat(b, delimiter);
    LowerConcat(b + delimiter, digits);
  }

  lemma {:induction false} BelowKeeps(s: seq<int>, n: int)
    requires AllLetters(s)
    ensures AllLetters(Below(s, n))
    decreases |s|
  {
    if s == [] {
    } else {
      BelowKeeps(s[..|s| - 1], n);
    }
  }

  /**
   No letter is out of reach of the label test: any 63 or fewer allowed letters,
   one of them not ASCII, have a label that `valid_ace_label` accepts, and it
   decodes to them.  The length of the label itself is for the host test.
   */
  lemma EveryIdnWordHasALabel(cps: seq<int>)
    requires |cps| <= 63 && AllLetters(cps) && !AllBasic(cps)
    ensures ValidAceLabel(ACE_PREFIX + Encode(cps))
    ensures Decode(AceRest(ACE_PREFIX + Encode(cps))) == Some(cps)
  {
    hide Encode, Decode;
    forall k | 0 <= k < |cps| ensures cps[k] <= 0x17E && Scalar(cps[k]) {
      assert IdnLetterOk(cps[k]);
    }
    DecodeEncodeBounded(cps, 0x17E);
    EncodeIsLower(cps);
    LowerPrefixed(Encode(cps));
  }

  lemma LowerPrefixed(s: seq<int>)
    requires Lower(s) == s
    ensures AceRest(ACE_PREFIX + s) == s
  {
    var l := Lower(ACE_PREFIX + s);
    forall k | 0 <= k < |s| ensures l[4..][k] == s[k] {
      assert (ACE_PREFIX + s)[k + 4] == s[k] == Lower(s)[k];
    }
  }

  lemma {:induction false} EmitLength(b: nat, ds: seq<nat>)
    ensures |Emit(b, ds).text| >= |ds|
  {
    if ds == [] {
    } else {
      EmitLength(b, ds[..|ds| - 1]);
    }
  }

  /** ASCII letters, digits and hyphens, as they may stand in a label. */
  predicate LabelCodes(s: seq<int>)
  {
    forall k :: 0 <= k < |s| ==> IdnLetterOk(s[k]) && s[k] < 0x80
  }

  lemma LabelCodesConcat(s: seq<int>, t: seq<int>)
    requires LabelCodes(s) && LabelCodes(t)
    ensures LabelCodes(s + t)
  {
  }

  lemma BasicIsLabelCodes(cps: seq<int>)
    requires AllLetters(cps)
    ensures LabelCodes(Below(cps, INITIAL_N))
  {
    var b := Below(cps, INITIAL_N);
    BelowKeeps(cps, INITIAL_N);
    forall k | 0 <= k < |b|
      ensures b[k] < 0x80
    {
      BelowIsBelow(cps, INITIAL_N, b[k]);
    }
  }

  lemma DigitsAreLabelCodes(digits: seq<int>)
    requires forall j :: 0 <= j < |digits| ==> IsDigit(digits[j])
    ensures LabelCodes(digits)
  {
  }

  /** What the encoder writes for such a word: no shorter than the word, and no hyphen last. */
  lemma EncodeSpelling(cps: seq<int>)
    requires AllLetters(cps) && !AllBasic(cps)
    ensures var s := Encode(cps);
            s != [] && IsDigit(s[|s| - 1]) && |cps| <= |s| && LabelCodes(s)
  {
    var ds, b := Deltas(cps), Below(cps, INITIAL_N);
    assert ds != [];
    hide Deltas, Below, Emit, NOf, IOf, LabelCodes, IsDigit, Apply, AllLetters;
    var digits := Emit(|b|, ds).text;
    ApplyDeltas(cps);
    EmitLength(|b|, ds);
    EmitDigits(|b|, ds);
    BasicIsLabelCodes(cps);
    DigitsAreLabelCodes(digits);
    HyphenIsLabelCode();
    var delimiter := if b == [] then [] else [HYPHEN];
    LabelCodesConcat(b, delimiter);
    LabelCodesConcat(b + delimiter, digits);
  }

  lemma HyphenIsLabelCode()
    ensures LabelCodes([HYPHEN]) && LabelCodes([])
  {
  }

  /** Two accepted labels that differ in more than letter case never show the same word. */
  lemma AceLabelsDistinct(s: seq<int>, t: seq<int>)
    requires ValidAceLabel(s) && Decode(AceRest(s)) == Decode(AceRest(t))
    ensures AceRest(s) == AceRest(t)
  {
    DecodeInjective(AceRest(s), AceRest(t));
  }
}
