/**
 The IBAN matcher of the tool-schema guard on ASCII text: the ISO 7064
 MOD 97-10 check of one candidate, and the search that must not let one
 candidate hide another.
 */
module Iban {
  import opened Wrappers
  import opened AsciiText
  import opened Arithmetic
  import opened Decimals

  const MIN_LENGTH := 15
  const MAX_LENGTH := 34

  datatype Verdict = Failed | Passed | Inapplicable

  predicate IsAlnum(c: char)
  {
    IsDigit(c) || IsLetter(c)
  }

  predicate AllAlnum(s: string)
  {
    forall k :: 0 <= k < |s| ==> IsAlnum(s[k])
  }

  // -------------------------------------------------------------- checksum

  /** What ISO 7064 writes for a character: a digit for a digit, 10 to 35 for a letter of any case. */
  function Code(c: char): (d: int)
    requires IsAlnum(c)
    ensures 0 <= d <= 35
  {
    if IsDigit(c) then c as int - 48
    else if 'A' <= c <= 'Z' then c as int - 65 + 10
    else c as int - 97 + 10
  }

  function DigitChar(d: int): (c: char)
    requires 0 <= d <= 9
    ensures IsDigit(c) && DigitValue(c) == d
  {
    (48 + d) as char
  }

  function SpellOne(c: char): (t: string)
    requires IsAlnum(c)
    ensures AllDigits(t)
  {
    if IsDigit(c) then [c] else [DigitChar(Code(c) / 10), DigitChar(Code(c) % 10)]
  }

  /** A candidate with every letter spelled as its two digits. */
  function Spell(s: string): (t: string)
    requires AllAlnum(s)
    ensures AllDigits(t)
  {
    if s == "" then "" else Spell(s[..|s| - 1]) + SpellOne(s[|s| - 1])
  }

  function Rotate(s: string): (r: string)
    requires |s| >= 4
    ensures |r| == |s| && (AllAlnum(s) ==> AllAlnum(r))
  {
    s[4..] + s[..4]
  }

  /** The verdict ISO 7064 MOD 97-10 gives: on the whole number, not digit by digit. */
  function Checksum(candidate: string): Verdict
  {
    if |candidate| < MIN_LENGTH || !AllAlnum(candidate) then Inapplicable
    else if NatOf(Spell(Rotate(candidate))) % 97 == 1 then Passed
    else Failed
  }

  function Weight(c: char): nat
  {
    if IsDigit(c) then 10 else 100
  }

  lemma SpellOneValue(c: char)
    requires IsAlnum(c)
    ensures NatOf(SpellOne(c)) == Code(c) && Pow10(|SpellOne(c)|) == Weight(c)
  {
    var t := SpellOne(c);
    assert NatOf([]) == 0;
    if IsDigit(c) {
      assert t[..0] == [];
      assert Pow10(1) == 10;
    } else {
      assert t[..1] == [t[0]] && [t[0]][..0] == [];
      assert NatOf([t[0]]) == DigitValue(t[0]);
      assert Pow10(2) == 10 * Pow10(1) == 100;
    }
  }

  lemma SpellSnoc(s: string)
    requires AllAlnum(s) && s != ""
    ensures var c := s[|s| - 1];
            NatOf(Spell(s)) == NatOf(Spell(s[..|s| - 1])) * Weight(c) + Code(c)
  {
    hide NatOf, SpellOne, Pow10;
    var c := s[|s| - 1];
    SpellOneValue(c);
    NatOfConcat(Spell(s[..|s| - 1]), SpellOne(c));
  }

  lemma ModStep(x: nat, w: nat, d: nat)
    ensures ((x % 97) * w + d) % 97 == (x * w + d) % 97
  {
    var q := x / 97;
    assert x == 97 * q + x % 97;
    Split97(q, x % 97, w, d);
    ModShift((x % 97) * w + d, q * w);
  }

  lemma Split97(q: int, r: int, w: int, d: int)
    ensures (97 * q + r) * w + d == (r * w + d) + 97 * (q * w)
  {
  }

  lemma ModShift(y: int, k: int)
    ensures (y + 97 * k) % 97 == y % 97
  {
  }

  /** `rem` is the residue of the first `i` characters of `s`, all of them alphanumeric. */
  ghost predicate Residue(s: string, i: nat, rem: int)
    requires i <= |s|
  {
    AllAlnum(s[..i]) && rem == NatOf(Spell(s[..i])) % 97
  }

  lemma ResidueStart(s: string)
    ensures Residue(s, 0, 0)
  {
  }

  lemma ResidueStep(s: string, i: nat, rem: int)
    requires i < |s| && Residue(s, i, rem) && IsAlnum(s[i])
    ensures Residue(s, i + 1, (rem * Weight(s[i]) + Code(s[i])) % 97)
  {
    hide NatOf, Spell, Code;
    assert s[..i + 1][..i] == s[..i];
    SpellSnoc(s[..i + 1]);
    ModStep(NatOf(Spell(s[..i])), Weight(s[i]), Code(s[i]));
  }

  lemma ResidueVerdict(candidate: string, rem: int)
    requires |candidate| >= MIN_LENGTH && Residue(Rotate(candidate), |candidate|, rem)
    ensures Checksum(candidate) == if rem == 1 then Passed else Failed
  {
    hide NatOf, Spell;
    assert Rotate(candidate)[..|candidate|] == Rotate(candidate);
    AlnumOfRotated(candidate);
  }

  lemma NotApplicable(candidate: string)
    ensures |candidate| < MIN_LENGTH || !AllAlnum(candidate) ==> Checksum(candidate) == Inapplicable
  {
    hide NatOf, Spell, AllAlnum;
  }

  lemma NotAlnum(s: string, k: nat)
    requires k < |s| && !IsAlnum(s[k])
    ensures !AllAlnum(s)
  {
  }

  method IbanCandidateChecksum(candidate: string) returns (v: Verdict)
    ensures v == Checksum(candidate)
  {
    hide NatOf, Spell, Rotate, Turn, Residue, Checksum, AllAlnum;
    NotApplicable(candidate);
    if |candidate| < MIN_LENGTH {
      return Inapplicable;
    }
    var n := |candidate|;
    var rem := 0;
    ghost var rotated := Rotate(candidate);
    ResidueStart(rotated);
    for i := 0 to n
      invariant Residue(rotated, i, rem)
    {
      var c := candidate[Turn(i, n)];
      RotateAt(candidate, i);
      if '0' <= c <= '9' {
        ResidueStep(rotated, i, rem);
        rem := (rem * 10 + (c as int - 48)) % 97;
      } else if 'A' <= c <= 'Z' {
        ResidueStep(rotated, i, rem);
        rem := (rem * 100 + (c as int - 65) + 10) % 97;
      } else if 'a' <= c <= 'z' {
        ResidueStep(rotated, i, rem);
        rem := (rem * 100 + (c as int - 97) + 10) % 97;
      } else {
        NotAlnum(candidate, Turn(i, n));
        return Inapplicable;
      }
    }
    ResidueVerdict(candidate, rem);
    return if rem == 1 then Passed else Failed;
  }

  /** Where the rotated candidate keeps its `i`-th character. */
  function Turn(i: nat, n: nat): (k: nat)
    requires n > 0
    ensures k < n
  {
    (i + 4) % n
  }

  lemma RotateAt(s: string, i: nat)
    requires 4 <= |s| && i < |s|
    ensures Rotate(s)[i] == s[Turn(i, |s|)]
  {
    if i + 4 >= |s| {
      ModOnce(i + 4, |s|);
    } else {
      ModNone(i + 4, |s|);
    }
  }

  lemma ModNone(x: nat, n: nat)
    requires x < n
    ensures x % n == x
  {
  }

  lemma ModOnce(x: nat, n: nat)
    requires 0 < n <= x < 2 * n
    ensures x % n == x - n
  {
    ModNone(x - n, n);
    assert x == 1 * n + (x - n);
  }

  lemma AlnumOfRotated(s: string)
    requires |s| >= 4 && AllAlnum(Rotate(s))
    ensures AllAlnum(s)
  {
    var r := Rotate(s);
    forall k | 0 <= k < |s| ensures IsAlnum(s[k]) {
      assert s[k] == r[if k < 4 then |s| - 4 + k else k - 4];
    }
  }

  // ------------------------------------------------------- what it detects

  lemma {:induction false} TenCancels(x: int, k: nat)
    requires (x * Pow10(k)) % 97 == 0
    ensures x % 97 == 0
    decreases k
  {
    if k == 0 {
    } else {
      TimesTen(x, Pow10(k - 1));
      TenInvertible(x * Pow10(k - 1));
      TenCancels(x, k - 1);
    }
  }

  /** 10 * 68 == 7 * 97 + 1 */
  lemma TenInvertible(y: int)
    requires (10 * y) % 97 == 0
    ensures y % 97 == 0
  {
    var q := (10 * y) / 97;
    assert 10 * y == 97 * q;
    assert y == 97 * (68 * q - 7 * y);
  }

  lemma PowersOfTen(k: nat)
    ensures Pow10(0) == 1 && Pow10(k + 1) == 10 * Pow10(k) && Pow10(k + 2) == 10 * (10 * Pow10(k))
  {
  }

  /** Exchanging one character for another of its kind moves the number by a multiple of a power of ten. */
  lemma {:induction false} SpellReplaced(s: string, j: nat, c: char) returns (k: nat)
    requires AllAlnum(s) && j < |s| && IsAlnum(c) && IsDigit(c) == IsDigit(s[j])
    ensures AllAlnum(s[j := c])
    ensures NatOf(Spell(s[j := c])) == NatOf(Spell(s)) + (Code(c) - Code(s[j])) * Pow10(k)
    decreases |s|
  {
    hide NatOf, Spell, Pow10;
    var t := s[j := c];
    SpellSnoc(s);
    SpellSnoc(t);
    if j == |s| - 1 {
      k := 0;
      PowersOfTen(0);
      assert t[..|s| - 1] == s[..|s| - 1];
    } else {
      var last := s[|s| - 1];
      assert t[..|s| - 1] == s[..|s| - 1][j := c];
      var k' := SpellReplaced(s[..|s| - 1], j, c);
      var x, delta := NatOf(Spell(s[..|s| - 1])), Code(c) - Code(s[j]);
      PowersOfTen(k');
      if IsDigit(last) {
        k := k' + 1;
        Scale10(x, delta, Pow10(k'), Code(last));
      } else {
        k := k' + 2;
        Scale100(x, delta, Pow10(k'), Code(last));
      }
    }
  }

  lemma Scale10(x: int, delta: int, p: int, d: int)
    ensures (x + delta * p) * 10 + d == (x * 10 + d) + delta * (10 * p)
  {
  }

  lemma Scale100(x: int, delta: int, p: int, d: int)
    ensures (x + delta * p) * 100 + d == (x * 100 + d) + delta * (10 * (10 * p))
  {
  }

  lemma RotateReplaced(s: string, j: nat, c: char)
    requires 4 <= |s| && j < |s|
    ensures var i := if j < 4 then |s| - 4 + j else j - 4;
            Rotate(s[j := c]) == Rotate(s)[i := c] && Rotate(s)[i] == s[j]
  {
  }

  /**
   A correct check number detects every single wrong character: a digit typed
   as another digit, or a letter as another letter.
   */
  lemma OneWrongCharacterFails(s: string, j: nat, c: char)
    requires Checksum(s) == Passed && j < |s|
    requires IsAlnum(c) && IsDigit(c) == IsDigit(s[j]) && Code(c) != Code(s[j])
    ensures Checksum(s[j := c]) == Failed
  {
    hide NatOf, Spell, Rotate, Pow10, Code;
    RotateReplaced(s, j, c);
    var i := if j < 4 then |s| - 4 + j else j - 4;
    var r := Rotate(s);
    var k := SpellReplaced(r, i, c);
    var t := s[j := c];
    assert AllAlnum(t);
    SmallDifference(c, s[j]);
    ResidueDiffers(NatOf(Spell(r)), NatOf(Spell(Rotate(t))), Code(c) - Code(s[j]), k);
  }

  lemma SmallDifference(c: char, d: char)
    requires IsAlnum(c) && IsAlnum(d)
    ensures -97 < Code(c) - Code(d) < 97
  {
  }

  /** A small multiple of a power of ten does not go unnoticed. */
  lemma ResidueDiffers(x: nat, y: nat, delta: int, k: nat)
    requires y == x + delta * Pow10(k) && delta != 0 && -97 < delta < 97
    ensures x % 97 == 1 ==> y % 97 != 1
  {
    hide Pow10;
    if x % 97 == y % 97 {
      SameResidue(x, y);
      TenCancels(delta, k);
    }
  }

  lemma SameResidue(x: nat, y: nat)
    requires x % 97 == y % 97
    ensures (y - x) % 97 == 0
  {
  }

  lemma TwoDigits(x: string, a: nat, b: nat)
    requires AllAlnum(x) && a < 10 && b < 10
    ensures
      var s := x + [DigitChar(a), DigitChar(b)];
      AllAlnum(s) && NatOf(Spell(s)) == 100 * NatOf(Spell(x)) + 10 * a + b
  {
    hide NatOf, Spell;
    var one := x + [DigitChar(a)];
    var s := x + [DigitChar(a), DigitChar(b)];
    assert s[..|s| - 1] == one && one[..|one| - 1] == x;
    SpellSnoc(one);
    SpellSnoc(s);
  }

  /**
   How check digits are made: the number with two zeros in their place is taken
   from 98, modulo 97.  Whatever the country and the account are, the candidate
   with these check digits passes.
   */
  lemma GeneratedPasses(country: string, account: string)
    requires |country| == 2 && 11 <= |account| && AllAlnum(country) && AllAlnum(account)
    ensures AllAlnum(account + country + "00")
    ensures
      var check := 98 - NatOf(Spell(account + country + "00")) % 97;
      Checksum(country + [DigitChar(check / 10), DigitChar(check % 10)] + account) == Passed
  {
    hide NatOf, Spell, Rotate, AllAlnum, DigitChar, Checksum;
    var x := account + country;
    Together(account, country);
    assert x + "00" == x + [DigitChar(0), DigitChar(0)] by { ZeroDigit(); }
    TwoDigits(x, 0, 0);
    var n := NatOf(Spell(x + "00"));
    var check := 98 - n % 97;
    TwoDigits(x, check / 10, check % 10);
    var digits := [DigitChar(check / 10), DigitChar(check % 10)];
    var candidate := country + digits + account;
    RotatedIs(country, digits, account);
    AlnumOfRotated(candidate);
    OneIsLeft(n, check);
    var m := NatOf(Spell(x + digits));
    assert m == n + 10 * (check / 10) + check % 10;
    assert m % 97 == 1;
    PassedWhen(candidate, x + digits);
  }

  lemma PassedWhen(candidate: string, rotated: string)
    requires 15 <= |candidate| && AllAlnum(candidate) && rotated == Rotate(candidate)
    requires NatOf(Spell(rotated)) % 97 == 1
    ensures Checksum(candidate) == Passed
  {
  }

  lemma Together(a: string, b: string)
    requires AllAlnum(a) && AllAlnum(b)
    ensures AllAlnum(a + b)
  {
  }

  lemma ZeroDigit()
    ensures "00" == [DigitChar(0), DigitChar(0)]
  {
  }

  lemma RotatedIs(country: string, digits: string, account: string)
    requires |country| == 2 && |digits| == 2
    ensures Rotate(country + digits + account) == account + country + digits
  {
  }

  lemma OneIsLeft(n: nat, check: nat)
    requires check == 98 - n % 97
    ensures (n + 10 * (check / 10) + check % 10) % 97 == 1
  {
    assert n + check == 97 * (n / 97 + 1) + 1;
  }

  // ---------------------------------------------------------------- search

  predicate Shape(s: string, p: nat)
    requires p + 4 <= |s|
  {
    IsLetter(s[p]) && IsLetter(s[p + 1]) && IsDigit(s[p + 2]) && IsDigit(s[p + 3])
  }

  predicate AlnumAt(s: string, k: int)
  {
    0 <= k < |s| && IsAlnum(s[k])
  }

  predicate AlnumBetween(s: string, p: nat, e: nat)
  {
    forall k :: p <= k < e ==> AlnumAt(s, k)
  }

  /**
   The pattern matches at `a` with capture `[p, e)`: the start of the text or
   one separator, two letters, two digits, 11 to 30 more alphanumeric
   characters, and the end of the text or a separator.
   */
  predicate MatchesAt(s: string, a: nat, p: nat, e: nat)
  {
    && p + MIN_LENGTH <= e <= |s| && e <= p + MAX_LENGTH
    && ((a == p == 0) || (p == a + 1 && !AlnumAt(s, a)))
    && Shape(s, p) && AlnumBetween(s, p, e) && !AlnumAt(s, e)
  }

  function RunEnd(s: string, p: nat): (e: nat)
    requires p <= |s|
    ensures p <= e <= |s| && AlnumBetween(s, p, e) && !AlnumAt(s, e)
    decreases |s| - p
  {
    if !AlnumAt(s, p) then p else RunEnd(s, p + 1)
  }

  predicate Captures(s: string, p: nat)
    requires p <= |s|
  {
    p + MIN_LENGTH <= RunEnd(s, p) <= p + MAX_LENGTH && Shape(s, p)
  }

  /** A match starting at `a` with capture `[p, e)`. */
  datatype Match = Match(a: nat, p: nat, e: nat)

  /** Leftmost match at or behind `pos`, as a regular-expression search finds it. */
  function Search(s: string, pos: nat): (r: Option<Match>)
    requires pos <= |s|
    decreases |s| - pos
  {
    if pos == 0 && Captures(s, 0) then Some(Match(0, 0, RunEnd(s, 0)))
    else if pos == |s| then None
    else if !AlnumAt(s, pos) && Captures(s, pos + 1) then Some(Match(pos, pos + 1, RunEnd(s, pos + 1)))
    else Search(s, pos + 1)
  }

  lemma CapturesMatch(s: string, a: nat, p: nat, e: nat)
    requires MatchesAt(s, a, p, e)
    ensures Captures(s, p) && RunEnd(s, p) == e
  {
    var e' := RunEnd(s, p);
    assert e < e' ==> AlnumAt(s, e);
    assert e' < e ==> AlnumAt(s, e');
  }

  /** `Search` finds a match, and none starts between `pos` and that one. */
  lemma {:induction false} SearchLeftmost(s: string, pos: nat)
    requires pos <= |s|
    ensures match Search(s, pos)
            case None => forall a: nat, p: nat, e: nat :: pos <= a ==> !MatchesAt(s, a, p, e)
            case Some(m) =>
              && pos <= m.a && MatchesAt(s, m.a, m.p, m.e)
              && forall a: nat, p: nat, e: nat :: pos <= a && MatchesAt(s, a, p, e) ==> m.a <= a
    decreases |s| - pos
  {
    forall p: nat, e: nat | MatchesAt(s, pos, p, e) ensures Captures(s, p) && RunEnd(s, p) == e {
      CapturesMatch(s, pos, p, e);
    }
    if !(pos == 0 && Captures(s, 0)) && pos < |s| && !(!AlnumAt(s, pos) && Captures(s, pos + 1)) {
      SearchLeftmost(s, pos + 1);
    }
  }

  /** A candidate: a maximal alphanumeric run of the right length and shape. */
  predicate Candidate(s: string, p: nat, e: nat)
  {
    && p + 15 <= e <= |s| && e <= p + 34
    && AlnumBetween(s, p, e) && !AlnumAt(s, e) && (p == 0 || !AlnumAt(s, p - 1))
    && Shape(s, p)
  }

  ghost predicate HasValidCandidate(s: string)
  {
    exists p: nat, e: nat :: Candidate(s, p, e) && Checksum(s[p..e]) != Failed
  }

  lemma CandidateMatches(s: string, p: nat, e: nat)
    requires Candidate(s, p, e)
    ensures MatchesAt(s, if p == 0 then 0 else p - 1, p, e)
  {
  }

  /** Behind a boundary, every candidate starts behind it too. */
  lemma StartsBehind(s: string, pos: nat, p: nat, e: nat)
    requires Candidate(s, p, e) && pos < e && pos <= |s| && (pos == 0 || !AlnumAt(s, pos))
    ensures pos <= p && (pos > 0 ==> pos < p)
  {
  }

  /**
   `contains_checksum_valid_iban`: true exactly when some candidate anywhere
   passes, however many failing ones stand before it or share a separator.
   */
  method ContainsChecksumValidIban(s: string) returns (found: bool)
    ensures found <==> HasValidCandidate(s)
  {
    hide Checksum, Shape, RunEnd, Captures, Search;
    SearchLeftmost(s, 0);
    if Search(s, 0).None? {
      forall p: nat, e: nat | Candidate(s, p, e) ensures false {
        CandidateMatches(s, p, e);
      }
      return false;
    }
    var pos := 0;
    while pos < |s|
      invariant 0 <= pos <= |s| && (pos == 0 || !AlnumAt(s, pos))
      invariant forall p: nat, e: nat :: Candidate(s, p, e) && e <= pos ==> Checksum(s[p..e]) == Failed
      decreases |s| - pos
    {
      SearchLeftmost(s, pos);
      var m := Search(s, pos);
      if m.None? {
        forall p: nat, e: nat | Candidate(s, p, e) ensures Checksum(s[p..e]) == Failed {
          if e > pos {
            NextCandidate(s, pos, p, e);
          }
        }
        return false;
      }
      var start, end := m.value.p, m.value.e;
      MatchIsCandidate(s, m.value.a, start, end);
      var v := IbanCandidateChecksum(s[start..end]);
      if v != Failed {
        return true;
      }
      forall p: nat, e: nat | Candidate(s, p, e) && e <= end ensures Checksum(s[p..e]) == Failed {
        if e > pos {
          NextCandidate(s, pos, p, e);
          SameRun(s, start, end, p, e);
        }
      }
      pos := end;
    }
    return false;
  }

  lemma MatchIsCandidate(s: string, a: nat, p: nat, e: nat)
    requires MatchesAt(s, a, p, e)
    ensures Candidate(s, p, e)
  {
  }

  /** A candidate not yet passed is a match the search from here would see. */
  lemma NextCandidate(s: string, pos: nat, p: nat, e: nat)
    requires Candidate(s, p, e) && pos <= |s| && (pos == 0 || !AlnumAt(s, pos)) && pos < e
    ensures exists a :: pos <= a && MatchesAt(s, a, p, e) && (p == a || p == a + 1)
  {
    StartsBehind(s, pos, p, e);
    CandidateMatches(s, p, e);
    var a := if p == 0 then 0 else p - 1;
    assert pos <= a && MatchesAt(s, a, p, e);
  }

  lemma SameRun(s: string, p: nat, e: nat, p': nat, e': nat)
    requires Candidate(s, p, e) && Candidate(s, p', e') && p <= p' && e' <= e
    ensures p == p' && e == e'
  {
    assert p < p' ==> !AlnumAt(s, p' - 1);
  }
}
