/** Small text operations that several of the modelled files share. */
module AsciiText {
  import opened Wrappers

  // --- Digits and letters ---------------------------------------------------------------------

  predicate IsDigit(c: char)
  {
    '0' <= c <= '9'
  }

  predicate IsLetter(c: char)
  {
    'a' <= c <= 'z' || 'A' <= c <= 'Z'
  }

  predicate AllDigits(s: string)
  {
    forall k :: 0 <= k < |s| ==> IsDigit(s[k])
  }

  function DigitValue(c: char): (d: int)
    ensures IsDigit(c) ==> 0 <= d <= 9
  {
    c as int - '0' as int
  }

  /** A decimal number. */
  function NatOf(s: string): (n: nat)
    requires AllDigits(s)
  {
    if s == "" then 0 else 10 * NatOf(s[..|s| - 1]) + DigitValue(s[|s| - 1])
  }

  function HexDigit(c: char): Option<nat>
  {
    if '0' <= c <= '9' then Some(c as nat - 48)
    else if 'a' <= c <= 'f' then Some(c as nat - 87)
    else if 'A' <= c <= 'F' then Some(c as nat - 55)
    else None
  }

  /** A hexadecimal digit is one of sixteen, in either case. */
  lemma HexDigitExactly(c: char, v: nat)
    ensures HexDigit(c) == Some(v) <==> v < 16 && (c == "0123456789abcdef"[v] || c == "0123456789ABCDEF"[v])
  {
  }

  // --- Cutting --------------------------------------------------------------------

  function TrimLeft(x: string, blank: char -> bool): string
  {
    if x != "" && blank(x[0]) then TrimLeft(x[1..], blank) else x
  }

  function TrimRight(x: string, blank: char -> bool): string
  {
    if x != "" && blank(x[|x| - 1]) then TrimRight(x[..|x| - 1], blank) else x
  }

  function Trim(x: string, blank: char -> bool): string
  {
    TrimRight(TrimLeft(x, blank), blank)
  }

  predicate All(x: string, blank: char -> bool)
  {
    forall k :: 0 <= k < |x| ==> blank(x[k])
  }

  /** Nothing to trim. */
  predicate Tight(y: string, blank: char -> bool)
  {
    y != "" ==> !blank(y[0]) && !blank(y[|y| - 1])
  }

  /** What is trimmed off is blank, and as much as there is. */
  lemma {:induction false} TrimSplits(x: string, blank: char -> bool) returns (a: string, b: string)
    ensures x == a + Trim(x, blank) + b && All(a, blank) && All(b, blank) && Tight(Trim(x, blank), blank)
    decreases |x|
  {
    if x != "" && blank(x[0]) {
      var front;
      front, b := TrimSplits(x[1..], blank);
      a := [x[0]] + front;
      assert x == [x[0]] + x[1..];
    } else {
      a := "";
      b := TrimRightSplits(x, blank);
      var y := TrimRight(x, blank);
      assert y != "" ==> y[0] == x[0];
    }
  }

  lemma {:induction false} TrimRightSplits(x: string, blank: char -> bool) returns (b: string)
    ensures x == TrimRight(x, blank) + b && All(b, blank)
    ensures var y := TrimRight(x, blank); y != "" ==> !blank(y[|y| - 1])
  {
    if x != "" && blank(x[|x| - 1]) {
      var back := TrimRightSplits(x[..|x| - 1], blank);
      b := back + [x[|x| - 1]];
      assert x == x[..|x| - 1] + [x[|x| - 1]];
    } else {
      b := "";
    }
  }

  /** The text between blanks is what trimming leaves. */
  lemma {:induction false} TrimOf(a: string, y: string, b: string, blank: char -> bool)
    requires All(a, blank) && All(b, blank) && Tight(y, blank)
    ensures Trim(a + y + b, blank) == y
    decreases |a|
  {
    var x := a + y + b;
    if a == "" {
      assert x == y + b;
      if y == "" {
        assert x == b;
        BlankOnly(b, blank);
      } else {
        TrimRightOf(y, b, blank);
      }
    } else {
      assert x[0] == a[0] && x[1..] == a[1..] + y + b;
      TrimOf(a[1..], y, b, blank);
    }
  }

  lemma {:induction false} TrimRightOf(y: string, b: string, blank: char -> bool)
    requires All(b, blank) && (y != "" ==> !blank(y[|y| - 1]))
    ensures TrimRight(y + b, blank) == y
    decreases |b|
  {
    var x := y + b;
    if b == "" {
      assert x == y;
    } else {
      assert x[|x| - 1] == b[|b| - 1] && x[..|x| - 1] == y + b[..|b| - 1];
      TrimRightOf(y, b[..|b| - 1], blank);
    }
  }

  lemma {:induction false} BlankOnly(b: string, blank: char -> bool)
    requires All(b, blank)
    ensures TrimLeft(b, blank) == ""
  {
    if b == "" {
    } else {
      BlankOnly(b[1..], blank);
    }
  }

  /** Everything before the first `c`, which is all of `x` when there is none. */
  function Before(x: string, c: char): (b: string)
    ensures b <= x && c !in b
    ensures |b| < |x| ==> x[|b|] == c
  {
    if x == "" || x[0] == c then "" else [x[0]] + Before(x[1..], c)
  }

  lemma {:induction false} BeforeIs(s: string, c: char, t: string)
    requires c !in s && (t == "" || t[0] == c)
    ensures Before(s + t, c) == s
  {
    if s == "" {
      assert s + t == t;
    } else {
      assert (s + t)[0] == s[0] && s[0] in s && (s + t)[1..] == s[1..] + t;
      BeforeIs(s[1..], c, t);
    }
  }

  // --- Case -----------------------------------------------------------------------

  function LowerOf(c: char): char
  {
    if 'A' <= c <= 'Z' then (c as int + 32) as char else c
  }

  function Lower(s: string): string
  {
    seq(|s|, i requires 0 <= i < |s| => LowerOf(s[i]))
  }

  /** The same letter, but for its case. */
  predicate SameLetter(a: char, b: char)
  {
    IsLetter(a) && IsLetter(b) && (a as int - b as int == 32 || b as int - a as int == 32)
  }

  /** Lower-casing forgets the case of letters, and nothing else. */
  lemma LowerExactly(a: string, b: string)
    ensures Lower(a) == Lower(b)
       <==> |a| == |b| && forall k :: 0 <= k < |a| ==> a[k] == b[k] || SameLetter(a[k], b[k])
    ensures forall k :: 0 <= k < |a| ==> !('A' <= Lower(a)[k] <= 'Z')
  {
    if Lower(a) == Lower(b) {
      forall k | 0 <= k < |a|
        ensures a[k] == b[k] || SameLetter(a[k], b[k])
      {
        assert Lower(a)[k] == Lower(b)[k];
      }
    }
  }
}
