/** Powers of ten, and what putting digits behind each other does to a number. */
module Decimals {
  import opened Arithmetic
  import opened AsciiText

  function Pow10(n: nat): (p: nat)
    ensures p >= 1
  {
    if n == 0 then 1 else 10 * Pow10(n - 1)
  }

  lemma NatOfSnoc(a: string, c: char)
    requires AllDigits(a) && IsDigit(c)
    ensures NatOf(a + [c]) == 10 * NatOf(a) + DigitValue(c)
  {
    assert (a + [c])[..|a|] == a;
  }

  lemma {:induction false} NatOfConcat(a: string, b: string)
    requires AllDigits(a) && AllDigits(b)
    ensures NatOf(a + b) == NatOf(a) * Pow10(|b|) + NatOf(b)
    decreases |b|
  {
    if b == "" {
      assert a + b == a;
    } else {
      hide NatOf, Pow10;
      var b', c := b[..|b| - 1], b[|b| - 1];
      NatOfConcat(a, b');
      AppendDigit(a, b', c);
      assert b == b' + [c];
    }
  }

  lemma AppendDigit(a: string, b: string, c: char)
    requires AllDigits(a) && AllDigits(b) && IsDigit(c)
    requires NatOf(a + b) == NatOf(a) * Pow10(|b|) + NatOf(b)
    ensures NatOf(a + (b + [c])) == NatOf(a) * Pow10(|b + [c]|) + NatOf(b + [c])
  {
    hide NatOf;
    NatOfSnoc(a + b, c);
    NatOfSnoc(b, c);
    assert a + (b + [c]) == a + b + [c];
    TimesTen(NatOf(a), Pow10(|b|));
  }

  lemma {:induction false} Pow10Sum(a: nat, b: nat)
    ensures Pow10(a + b) == Pow10(a) * Pow10(b)
  {
    if a == 0 {
    } else {
      Pow10Sum(a - 1, b);
      TimesTen(Pow10(b), Pow10(a - 1));
    }
  }
}
