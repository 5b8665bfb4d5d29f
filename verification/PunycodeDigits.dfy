/**
 The digits of Punycode (RFC 3492) as config-pack/render.py computes them:
 bias adaptation, thresholds and generalized variable-length integers.

 Text is a sequence of character codes, so that `ord` and `chr` disappear: a
 Python string may hold any code, and every code is handled.
 */
module PunycodeDigits {
  import opened Wrappers
  import opened Arithmetic

  const BASE := 36
  const TMIN := 1
  const TMAX := 26
  const SKEW := 38
  const DAMP := 700
  const INITIAL_BIAS := 72
  const INITIAL_N := 0x80
  const MAXINT := 0x7FFFFFFF
  const HYPHEN := 0x2D

  function Threshold(k: int, bias: int): (t: int)
    ensures TMIN <= t <= TMAX
  {
    if k <= bias then TMIN
    else if k >= bias + TMAX then TMAX
    else k - bias
  }

  /**
   `x / b` and `x % b` by repeated subtraction.  Every division below whose
   divisor varies goes through these two, which keeps the proofs about the
   codec linear; `DivMod` ties them to the operators.
   */
  function Quot(x: nat, b: nat): (q: nat)
    requires b > 0
    ensures q <= x
  {
    if x < b then 0 else 1 + Quot(x - b, b)
  }

  function Rem(x: nat, b: nat): (r: nat)
    requires b > 0
    ensures r < b
  {
    if x < b then x else Rem(x - b, b)
  }

  lemma Distribute(x: int, y: int, b: int)
    ensures (x - y) * b == x * b - y * b
    ensures (x + y) * b == x * b + y * b
  {
  }

  lemma Scaled(e: int, b: int)
    requires e >= 1 && b > 0
    ensures e * b >= b && (-e) * b <= -b
  {
  }

  lemma {:induction false} QuotRem(x: nat, b: nat)
    requires b > 0
    ensures x == Quot(x, b) * b + Rem(x, b)
    decreases x
  {
    if x >= b {
      QuotRem(x - b, b);
      Distribute(Quot(x - b, b), 1, b);
    }
  }

  /** Quotient and remainder are unique. */
  lemma Division(x: nat, b: nat, q: int, r: int)
    requires b > 0 && x == q * b + r && 0 <= r < b
    ensures Quot(x, b) == q && Rem(x, b) == r
  {
    QuotRem(x, b);
    var e := q - Quot(x, b);
    Distribute(q, Quot(x, b), b);
    if e >= 1 {
      Scaled(e, b);
    } else if e <= -1 {
      Scaled(-e, b);
    }
  }

  lemma DivMod(x: nat, b: nat)
    requires b > 0
    ensures Quot(x, b) == x / b && Rem(x, b) == x % b
  {
    Division(x, b, x / b, x % b);
  }

  function Scale(delta: nat, k: nat): nat
    decreases delta
  {
    if delta > ((BASE - TMIN) * TMAX) / 2 then Scale(delta / (BASE - TMIN), k + BASE)
    else k + Quot((BASE - TMIN + 1) * delta, delta + SKEW)
  }

  /** Bias adaptation, section 6.1 of RFC 3492. */
  function Adapt(delta: nat, numpoints: nat, first: bool): nat
    requires numpoints > 0
  {
    var d := if first then delta / DAMP else delta / 2;
    Scale(d + Quot(d, numpoints), 0)
  }

  /** The delta after `k` divisions by 35. */
  function Divided(delta: nat, k: nat): nat
    decreases k
  {
    if k == 0 then delta else Divided(delta / 35, k - 1)
  }

  lemma {:induction false} ScaleExactly(delta: nat, k: nat) returns (m: nat)
    ensures Divided(delta, m) <= 455 && (forall j :: 0 <= j < m ==> Divided(delta, j) > 455)
    ensures Scale(delta, k) == k + 36 * m + 36 * Divided(delta, m) / (Divided(delta, m) + 38)
    decreases delta
  {
    if delta <= 455 {
      m := 0;
      DivMod(36 * delta, delta + 38);
    } else {
      var less := ScaleExactly(delta / 35, k + 36);
      m := less + 1;
    }
  }

  /**
   The bias in plain arithmetic: the delta, damped by 700 the first time and by
   2 later on and grown by its share of the points, is divided by 35 as often as
   it takes to come down to 455; each division counts 36, and the rest of the
   bias is the last quotient.
   */
  lemma AdaptExactly(delta: nat, numpoints: nat, first: bool)
    requires numpoints > 0
    ensures
      var damped := if first then delta / 700 else delta / 2;
      var start := damped + damped / numpoints;
      exists m: nat ::
        && Divided(start, m) <= 455 && (forall j :: 0 <= j < m ==> Divided(start, j) > 455)
        && Adapt(delta, numpoints, first) == 36 * m + 36 * Divided(start, m) / (Divided(start, m) + 38)
  {
    var damped := if first then delta / 700 else delta / 2;
    DivMod(damped, numpoints);
    var m := ScaleExactly(damped + damped / numpoints, 0);
    assert Adapt(delta, numpoints, first) == Scale(damped + damped / numpoints, 0);
  }

  method PunyAdapt(delta0: nat, numpoints: nat, first: bool) returns (bias: nat)
    requires numpoints > 0
    ensures bias == Adapt(delta0, numpoints, first)
  {
    var delta := if first then delta0 / DAMP else delta0 / 2;
    DivMod(delta, numpoints);
    delta := delta + delta / numpoints;
    var k := 0;
    while delta > ((BASE - TMIN) * TMAX) / 2
      invariant delta >= 0 && k >= 0
      invariant Scale(delta, k) == Adapt(delta0, numpoints, first)
      decreases delta
    {
      delta := delta / (BASE - TMIN);
      k := k + BASE;
    }
    DivMod((BASE - TMIN + 1) * delta, delta + SKEW);
    bias := k + ((BASE - TMIN + 1) * delta) / (delta + SKEW);
  }

  function DigitChar(d: int): int
    requires 0 <= d < BASE
  {
    if d < 26 then d + 0x61 else d - 26 + 0x30
  }

  function DigitOf(c: int): Option<int>
  {
    if 0x61 <= c <= 0x7A then Some(c - 0x61)
    else if 0x30 <= c <= 0x39 then Some(c - 0x30 + 26)
    else None
  }

  /** The encoder's lowest digit of a number that needs more than one. */
  function LowDigit(q: nat, t: int): (d: int)
    requires TMIN <= t <= TMAX && t <= q
    ensures t <= d < BASE
  {
    t + Rem(q - t, BASE - t)
  }

  function Rest(q: nat, t: int): (r: nat)
    requires TMIN <= t <= TMAX && t <= q
    ensures r < q
  {
    Quot(q - t, BASE - t)
  }

  /** The generalized variable-length integer of section 3.3 of RFC 3492, as characters. */
  function EncInt(q: nat, k: int, bias: int): (cs: seq<int>)
    ensures |cs| > 0
    decreases q
  {
    var t := Threshold(k, bias);
    if q < t then [DigitChar(q)]
    else [DigitChar(LowDigit(q, t))] + EncInt(Rest(q, t), k + BASE, bias)
  }

  /** The decoder's inner loop: position after the last digit and the new `i`. */
  function ReadInt(text: seq<int>, pos: nat, i: nat, w: nat, k: int, bias: int): (r: Option<(nat, nat)>)
    requires pos <= |text|
    ensures r.Some? ==> pos < r.value.0 <= |text| && i <= r.value.1 <= MAXINT
    decreases |text| - pos
  {
    if pos >= |text| then None
    else
      match DigitOf(text[pos])
      case None => None
      case Some(d) =>
        MulNonneg(d, w);
        var i' := i + d * w;
        var t := Threshold(k, bias);
        if i' > MAXINT then None
        else if d < t then Some((pos + 1, i'))
        else
          MulNonneg(w, BASE - t);
          var w' := w * (BASE - t);
          if w' > MAXINT then None
          else ReadInt(text, pos + 1, i', w', k + BASE, bias)
  }

  /** Neither overflow cut-off fires while the digits of `q` are read. */
  predicate Fits(q: nat, i: int, w: int, k: int, bias: int)
    decreases q
  {
    var t := Threshold(k, bias);
    if q < t then i + q * w <= MAXINT
    else
      && i + LowDigit(q, t) * w <= MAXINT
      && w * (BASE - t) <= MAXINT
      && Fits(Rest(q, t), i + LowDigit(q, t) * w, w * (BASE - t), k + BASE, bias)
  }

  /** A number is its lowest digit plus the rest, whatever weight both are given. */
  lemma Regroup(q: nat, t: int, w: int)
    requires TMIN <= t <= TMAX && t <= q
    ensures LowDigit(q, t) * w + Rest(q, t) * (w * (BASE - t)) == q * w
  {
    var b := BASE - t;
    var d, r := LowDigit(q, t), Rest(q, t);
    QuotRem(q - t, b);
    Weigh(q, d, r, b, w);
  }

  lemma Weigh(q: int, d: int, r: int, b: int, w: int)
    requires q == d + r * b
    ensures d * w + r * (w * b) == q * w
  {
  }

  /** The lowest digit and the rest determine the number: it has one spelling only. */
  lemma Ungroup(q: int, d: int, r: nat, t: int)
    requires TMIN <= t <= TMAX && t <= d < BASE && q == d + r * (BASE - t)
    ensures q >= t && LowDigit(q, t) == d && Rest(q, t) == r
  {
    MulNonneg(r, BASE - t);
    Division(q - t, BASE - t, r, d - t);
  }

  /** Digits that are read are the only spelling of the number they denote. */
  lemma {:induction false} ReadIntSound(text: seq<int>, pos: nat, i: nat, w: nat, k: int, bias: int) returns (q: nat)
    requires pos <= |text|
    requires ReadInt(text, pos, i, w, k, bias).Some?
    ensures var (p, i') := ReadInt(text, pos, i, w, k, bias).value;
            text[pos..p] == EncInt(q, k, bias) && i' == i + q * w
    decreases |text| - pos
  {
    var d := DigitOf(text[pos]).value;
    var t := Threshold(k, bias);
    var (p, i') := ReadInt(text, pos, i, w, k, bias).value;
    assert DigitChar(d) == text[pos];
    if d < t {
      q := d;
      assert text[pos..p] == [text[pos]];
    } else {
      MulNonneg(d, w);
      MulNonneg(w, BASE - t);
      var r := ReadIntSound(text, pos + 1, i + d * w, w * (BASE - t), k + BASE, bias);
      MulNonneg(r, BASE - t);
      q := d + r * (BASE - t);
      Ungroup(q, d, r, t);
      Regroup(q, t, w);
      assert text[pos..p] == [text[pos]] + text[pos + 1..p];
    }
  }

  /** Reading the digits of `q` back gives `q`, unless a cut-off fires: then nothing. */
  lemma {:induction false} ReadIntOfEncInt(text: seq<int>, pos: nat, q: nat, i: nat, w: nat, k: int, bias: int)
    requires pos + |EncInt(q, k, bias)| <= |text|
    requires text[pos..pos + |EncInt(q, k, bias)|] == EncInt(q, k, bias)
    ensures ReadInt(text, pos, i, w, k, bias)
         == if Fits(q, i, w, k, bias) then Some((pos + |EncInt(q, k, bias)|, i + q * w)) else None
    decreases q
  {
    var e := EncInt(q, k, bias);
    var t := Threshold(k, bias);
    assert text[pos] == e[0];
    if q < t {
      assert DigitOf(text[pos]) == Some(q);
    } else {
      var d := LowDigit(q, t);
      assert DigitOf(text[pos]) == Some(d);
      var e' := EncInt(Rest(q, t), k + BASE, bias);
      assert e == [e[0]] + e';
      assert text[pos + 1..pos + 1 + |e'|] == text[pos..pos + |e|][1..] == e';
      MulNonneg(d, w);
      MulNonneg(w, BASE - t);
      ReadIntOfEncInt(text, pos + 1, Rest(q, t), i + d * w, w * (BASE - t), k + BASE, bias);
      Regroup(q, t, w);
    }
  }

  /** No spelling is the start of another one: what the digits say does not depend on what follows them. */
  lemma {:induction false} EncIntPrefixFree(q: nat, r: nat, k: int, bias: int, x: seq<int>, y: seq<int>)
    requires EncInt(q, k, bias) + x == EncInt(r, k, bias) + y
    ensures q == r
    decreases q
  {
    var t := Threshold(k, bias);
    var a, b := EncInt(q, k, bias), EncInt(r, k, bias);
    assert (a + x)[0] == a[0] && (b + y)[0] == b[0];
    assert DigitOf(a[0]) == Some(if q < t then q else LowDigit(q, t));
    assert DigitOf(b[0]) == Some(if r < t then r else LowDigit(r, t));
    if q >= t && r >= t {
      var a', b' := EncInt(Rest(q, t), k + BASE, bias), EncInt(Rest(r, t), k + BASE, bias);
      assert a + x == [a[0]] + (a' + x) && b + y == [b[0]] + (b' + y);
      assert a' + x == (a + x)[1..] == (b + y)[1..] == b' + y;
      EncIntPrefixFree(Rest(q, t), Rest(r, t), k + BASE, bias, x, y);
      SameParts(q, r, t);
    }
  }

  lemma SameParts(q: nat, r: nat, t: int)
    requires TMIN <= t <= TMAX && t <= q && t <= r
    requires LowDigit(q, t) == LowDigit(r, t) && Rest(q, t) == Rest(r, t)
    ensures q == r
  {
    QuotRem(q - t, BASE - t);
    QuotRem(r - t, BASE - t);
  }

  /** A number 35 times below the cut-off never trips either of them. */
  lemma {:induction false} SmallFits(q: nat, i: nat, w: nat, k: int, bias: int)
    requires 35 * (i + q * w) <= MAXINT
    ensures Fits(q, i, w, k, bias)
    decreases q
  {
    var t := Threshold(k, bias);
    MulNonneg(q, w);
    if q >= t {
      Regroup(q, t, w);
      var d := LowDigit(q, t);
      MulNonneg(d, w);
      MulNonneg(w, BASE - t);
      MulNonneg(Rest(q, t), w * (BASE - t));
      WeightBound(d, w, BASE - t);
      SmallFits(Rest(q, t), i + d * w, w * (BASE - t), k + BASE, bias);
    }
  }

  lemma WeightBound(d: int, w: nat, b: int)
    requires d >= 1 && 0 < b <= 35
    ensures w * b <= 35 * (d * w)
  {
    MulNonneg(w, 35 - b);
    MulNonneg(d - 1, w);
    assert w * b == 35 * w - w * (35 - b);
    assert d * w == w + (d - 1) * w;
  }
}
