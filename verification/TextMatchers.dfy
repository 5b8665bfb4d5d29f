/**
 The guard's own patterns, for the two places where a claim about any matchers
 is settled by one input.  What Unicode folding does stays a parameter.
 */
module TextMatchers {
  import opened Wrappers
  import opened AsciiText
  import opened JsonTree
  import opened SchemaGuard
  import Iban

  // --- The patterns ---------------------------------------------------------------

  /** Ten digits in a row. */
  ghost predicate HasDigitRun(s: string)
  {
    exists p: nat :: TenDigitsAt(s, p)
  }

  predicate TenDigitsAt(s: string, p: nat)
  {
    p + 10 <= |s| && forall k :: p <= k < p + 10 ==> IsDigit(s[k])
  }

  /** The digit-run pattern matches with capture `[a, e)`: ten digits or more between boundaries. */
  predicate RunAt(s: string, a: nat, e: nat)
  {
    && a + 10 <= e <= |s| && (forall k :: a <= k < e ==> IsDigit(s[k]))
    && (a == 0 || !IsDigit(s[a - 1])) && (e == |s| || !IsDigit(s[e]))
  }

  predicate LocalChar(c: char)
  {
    IsLetter(c) || IsDigit(c) || c in "._%+-"
  }

  predicate DomainChar(c: char)
  {
    IsLetter(c) || IsDigit(c) || c == '.' || c == '-'
  }

  /** The e-mail pattern: an at sign at `i` behind a local part, a domain, and a dot at `j` with two letters behind it. */
  predicate EmailAt(s: string, i: nat, j: nat)
  {
    && 0 < i && i + 1 < j && j <= i + 254 && j + 2 < |s|
    && s[i] == '@' && LocalChar(s[i - 1]) && (forall k :: i < k < j ==> DomainChar(s[k]))
    && s[j] == '.' && IsLetter(s[j + 1]) && IsLetter(s[j + 2])
  }

  ghost predicate HasEmail(s: string)
  {
    exists i: nat, j: nat :: EmailAt(s, i, j)
  }

  /** The matchers of the guard. */
  ghost function Standard(fold: string -> string): Matchers
  {
    Matchers(s => Iban.HasValidCandidate(s), s => HasEmail(s), s => HasDigitRun(s), fold)
  }

  /** Boundaries never matter: the pattern matches somewhere exactly when ten digits stand in a row. */
  lemma DigitRunPattern(s: string)
    ensures HasDigitRun(s) <==> exists a: nat, e: nat :: RunAt(s, a, e)
  {
    if HasDigitRun(s) {
      var p: nat :| TenDigitsAt(s, p);
      var a := RunStart(s, p);
      var e := RunEnd(s, p + 10);
      assert RunAt(s, a, e);
    }
    forall a: nat, e: nat | RunAt(s, a, e)
      ensures HasDigitRun(s)
    {
      assert TenDigitsAt(s, a);
    }
  }

  /** The e-mail pattern with its counts: a local part from `a`, an at sign at `i`, a domain, a dot at `j`, letters up to `e`. */
  predicate EmailMatch(s: string, a: nat, i: nat, j: nat, e: nat)
  {
    && 1 <= i - a <= 64 && 1 <= j - i - 1 <= 253 && e - j - 1 >= 2 && e <= |s|
    && (forall k :: a <= k < i ==> LocalChar(s[k])) && s[i] == '@'
    && (forall k :: i < k < j ==> DomainChar(s[k])) && s[j] == '.' && forall k :: j < k < e ==> IsLetter(s[k])
  }

  /** How long the local part and the last label are never matters. */
  lemma EmailPattern(s: string)
    ensures HasEmail(s) <==> exists a: nat, i: nat, j: nat, e: nat :: EmailMatch(s, a, i, j, e)
  {
    if HasEmail(s) {
      var i: nat, j: nat :| EmailAt(s, i, j);
      assert EmailMatch(s, i - 1, i, j, j + 3);
    }
    forall a: nat, i: nat, j: nat, e: nat | EmailMatch(s, a, i, j, e)
      ensures HasEmail(s)
    {
      assert EmailAt(s, i, j);
    }
  }

  /** Where the digits that end before `p` begin. */
  function RunStart(s: string, p: nat): (a: nat)
    requires p <= |s|
    ensures a <= p && (forall k :: a <= k < p ==> IsDigit(s[k])) && (a == 0 || !IsDigit(s[a - 1]))
  {
    if p == 0 || !IsDigit(s[p - 1]) then p else RunStart(s, p - 1)
  }

  /** Where the digits that begin at `p` end. */
  function RunEnd(s: string, p: nat): (e: nat)
    requires p <= |s|
    ensures p <= e <= |s| && (forall k :: p <= k < e ==> IsDigit(s[k])) && (e == |s| || !IsDigit(s[e]))
    decreases |s| - p
  {
    if p == |s| || !IsDigit(s[p]) then p else RunEnd(s, p + 1)
  }

  // --- A literal that filtering would lose -----------------------------------------------

  const LITERAL := "12345678901e20000"

  lemma NoAtNoEmail(s: string)
    requires '@' !in s
    ensures !HasAt(s) && !HasEmail(s)
  {
  }

  lemma LiteralIsARun()
    ensures HasDigitRun(LITERAL) && '@' !in LITERAL && !Iban.HasValidCandidate(LITERAL)
  {
    assert TenDigitsAt(LITERAL, 0);
    forall p: nat, e: nat
      ensures !Iban.Candidate(LITERAL, p, e)
    {
      assert p + 4 <= 17 ==> !(IsLetter(LITERAL[p]) && IsLetter(LITERAL[p + 1]));
    }
  }

  /**
   The strict findings are not the permissive ones without the digit runs: this
   literal alone is dropped by the filter and refused by the walk.
   */
  lemma FilteringLosesALiteral(fold: string -> string)
    ensures
      var r := Inspect(Standard(fold), Arr([Num(LITERAL)]));
      WithoutRuns(r.permissive) == [] && Refuses(RefuseHighConfidence, r)
  {
    LiteralIsARun();
    SuchALiteral();
    NoAtNoEmail(LITERAL);
    hide Inspect, WithoutRuns, Refuses;
    FilteringIsNotEnough(Standard(fold), LITERAL);
  }

  // --- A name that a pointer spells out ---------------------------------------------------

  const NAME := "patient_1234567890"

  /** Two members of one name, below a name that the digit-run matcher hits. */
  const REPEATED := Arr([Obj([Member(NAME, Obj([Member("a", Num("1")), Member("a", Num("2"))]))])])

  lemma NameIsARun()
    ensures HasDigitRun(NAME) && '@' !in NAME && !Iban.HasValidCandidate(NAME)
  {
    assert TenDigitsAt(NAME, 8);
    forall p: nat, e: nat
      ensures !Iban.Candidate(NAME, p, e)
    {
      assert !Iban.AlnumAt(NAME, 7);
      assert p + 15 <= e <= 18 ==> p <= 7 < e;
    }
  }

  lemma NameMatches(fold: string -> string)
    ensures MatchesItself(Standard(fold), NAME)
  {
    NameIsARun();
    NoAtNoEmail(NAME);
  }

  lemma RepeatedPath()
    ensures Duplicate(REPEATED, []) == Some([Index(0), Key(NAME), Key("a")])
  {
    var twice := [Member("a", Num("1")), Member("a", Num("2"))];
    var above := [Index(0), Key(NAME)];
    assert twice[1..] == [Member("a", Num("2"))];
    assert above + [Key("a")] == [Index(0), Key(NAME), Key("a")];
    assert DuplicateMember(twice[1..], {"a"}, above) == Some(above + [Key("a")]);
    assert {} + {"a"} == {"a"};
    assert Duplicate(Obj(twice), above) == Some(above + [Key("a")]);
    assert [Index(0)] + [Key(NAME)] == above && [] + [Index(0)] == [Index(0)];
    assert DuplicateMember([Member(NAME, Obj(twice))], {}, [Index(0)]) == Some(above + [Key("a")]);
    var tool := Obj([Member(NAME, Obj(twice))]);
    assert Duplicate(tool, [Index(0)]) == Some(above + [Key("a")]);
    assert DuplicateItem([tool], 0, []) == Some(above + [Key("a")]);
    assert REPEATED == Arr([tool]);
  }

  /** The report of a repeated name shows the names above it, also one that matches by itself. */
  lemma AncestorIsSpelledOut(fold: string -> string)
    ensures
      var r := Inspect(Standard(fold), REPEATED);
      && r.permissive == r.strict == [Finding(MalformedTools, Clean, DuplicateKey, [Index(0), Key(NAME), Key("a")])]
      && MatchesItself(Standard(fold), NAME) && NAME !in r.redactions
  {
    hide MatchesItself;
    RepeatedPath();
    NameMatches(fold);
    assert NAME != "a";
  }
}
