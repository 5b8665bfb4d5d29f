/**
 What the three decoders read, as a grammar: every text is a row of units, each
 an escape that stands for something or a character that stands for itself, and
 a decoder gives back what they stand for.
 */
module EscapeForms {
  import opened Wrappers
  import opened AsciiText
  import opened DecodedVariants
  import opened EscapeDecoders

  // --- Digits ---------------------------------------------------------------------------

  predicate InBase(x: string, base: nat)
  {
    forall i :: 0 <= i < |x| ==> HexDigit(x[i]).Some? && HexDigit(x[i]).value < base
  }

  /** The text starts with this many digits. */
  predicate Ahead(s: string, n: nat, base: nat)
  {
    n <= |s| && InBase(s[..n], base)
  }

  /** The character that the digits number. */
  function Numbered(x: string, base: nat): char
    requires InBase(x, base)
  {
    CodePoint(ValueOf(x, base))
  }

  function Printed(n: nat, base: nat, width: nat): string
    requires 2 <= base <= 16
    decreases width
  {
    if width == 0 then "" else Printed(n / base, base, width - 1) + ["0123456789abcdef"[n % base]]
  }

  function Power(base: nat, k: nat): nat
  {
    if k == 0 then 1 else base * Power(base, k - 1)
  }

  /** Digits in either case have the value they are printed for. */
  lemma {:induction false} PrintedValue(n: nat, base: nat, width: nat, x: string)
    requires 2 <= base <= 16 && n < Power(base, width) && Lower(x) == Printed(n, base, width)
    ensures InBase(x, base) && ValueOf(x, base) == n && |x| == width
    decreases width
  {
    hide Lower, LowerOf, HexDigit, InBase, ValueOf, Printed;
    if width == 0 {
      NothingPrinted(n, base, x);
    } else {
      var q, r := Quotient(n, base, Power(base, width - 1));
      LastPrinted(n, base, width);
      LowerLast(x, Printed(q, base, width - 1), "0123456789abcdef"[r]);
      var front := x[..|x| - 1];
      PrintedValue(q, base, width - 1, front);
      DigitInCase(x[|x| - 1], r);
      ValueSnoc(x, base, q, r);
    }
  }

  lemma NothingPrinted(n: nat, base: nat, x: string)
    requires 2 <= base <= 16 && Lower(x) == Printed(n, base, 0)
    ensures x == "" && InBase(x, base) && ValueOf(x, base) == 0
  {
    assert |Lower(x)| == 0;
  }

  lemma ValueSnoc(x: string, base: nat, q: nat, r: nat)
    requires x != "" && InBase(x[..|x| - 1], base) && ValueOf(x[..|x| - 1], base) == q
    requires HexDigit(x[|x| - 1]) == Some(r) && r < base
    ensures InBase(x, base) && ValueOf(x, base) == base * q + r
  {
    assert x == x[..|x| - 1] + [x[|x| - 1]];
  }

  lemma LowerLast(x: string, front: string, d: char)
    requires Lower(x) == front + [d]
    ensures x != "" && Lower(x[..|x| - 1]) == front && LowerOf(x[|x| - 1]) == d
  {
    assert |Lower(x)| == |front| + 1;
    assert Lower(x)[..|x| - 1] == front && Lower(x)[|x| - 1] == d;
  }

  lemma DigitInCase(c: char, v: nat)
    requires v < 16 && LowerOf(c) == "0123456789abcdef"[v]
    ensures HexDigit(c) == Some(v)
  {
  }

  lemma Quotient(n: nat, base: nat, p: nat) returns (q: nat, r: nat)
    requires base > 0 && n < base * p
    ensures q == n / base && r == n % base && n == base * q + r && q < p && r < base
  {
    q, r := n / base, n % base;
    if q >= p {
      Multiples(base, q, p);
    }
  }

  lemma LastPrinted(n: nat, base: nat, width: nat)
    requires 2 <= base <= 16 && width > 0
    ensures Printed(n, base, width) == Printed(n / base, base, width - 1) + ["0123456789abcdef"[n % base]]
  {
  }

  lemma Multiples(base: nat, a: nat, b: nat)
    requires a >= b
    ensures base * a >= base * b
  {
  }

  lemma {:induction false} DigitRunIs(x: string, rest: string, base: nat, max: nat)
    requires InBase(x, base) && |x| <= max && (|x| == max || !Ahead(rest, 1, base))
    ensures DigitRun(x + rest, base, max) == |x|
  {
    var s := x + rest;
    if x == "" {
      assert s == rest;
      if rest != "" {
        assert rest[..1] == [rest[0]];
      }
    } else {
      assert s[0] == x[0] && s[1..] == x[1..] + rest;
      DigitRunIs(x[1..], rest, base, max - 1);
    }
  }

  /** A run goes on for as long as it may. */
  lemma {:induction false} DigitRunStops(s: string, base: nat, max: nat)
    ensures
      var n := DigitRun(s, base, max);
      InBase(s[..n], base) && (n == max || !Ahead(s[n..], 1, base))
  {
    if s == "" || max == 0 || HexDigit(s[0]).None? || HexDigit(s[0]).value >= base {
      if s != "" {
        assert s[..1] == [s[0]];
      }
    } else {
      DigitRunStops(s[1..], base, max - 1);
      var n := DigitRun(s[1..], base, max - 1);
      assert s[1..][n..] == s[n + 1..];
    }
  }

  lemma AheadRuns(s: string, n: nat, base: nat)
    ensures Ahead(s, n, base) <==> DigitRun(s, base, n) == n
  {
    DigitRunStops(s, base, n);
    if Ahead(s, n, base) {
      DigitRunIs(s[..n], s[n..], base, n);
      assert s == s[..n] + s[n..];
    }
  }

  // --- Units -----------------------------------------------------------------------------

  /** A piece of text, and what it stands for. */
  datatype Unit = Unit(text: string, meant: string)

  function Written(us: seq<Unit>): string
  {
    if us == [] then "" else us[0].text + Written(us[1..])
  }

  function Meant(us: seq<Unit>): string
  {
    if us == [] then "" else us[0].meant + Meant(us[1..])
  }

  // --- Percent-encoding --------------------------------------------------------------------

  /** `%` and two hexadecimal digits, or a character of its own. */
  predicate PercentUnit(u: Unit, rest: string)
  {
    || (|u.text| == 3 && u.text[0] == '%' && InBase(u.text[1..], 16) && u.meant == [Numbered(u.text[1..], 16)])
    || (|u.text| == 1 && u.meant == u.text && (u.text == "%" ==> !Ahead(rest, 2, 16)))
  }

  lemma PercentStep(u: Unit, rest: string)
    requires PercentUnit(u, rest)
    ensures DecodePercent(u.text + rest) == u.meant + DecodePercent(rest)
  {
    var s := u.text + rest;
    AheadRuns(s[1..], 2, 16);
    if |u.text| == 3 {
      assert s[1..][..2] == u.text[1..] && s[3..] == rest;
    } else {
      assert s[1..] == rest;
    }
  }

  lemma PercentNext(s: string) returns (u: Unit, rest: string)
    requires s != ""
    ensures s == u.text + rest && PercentUnit(u, rest) && u.text != ""
  {
    AheadRuns(s[1..], 2, 16);
    if s[0] == '%' && DigitRun(s[1..], 16, 2) == 2 {
      assert s[..3][1..] == s[1..][..2];
      u, rest := Unit(s[..3], [Numbered(s[1..][..2], 16)]), s[3..];
    } else {
      u, rest := Unit(s[..1], s[..1]), s[1..];
    }
  }

  // --- Backslash escapes ----------------------------------------------------------------------

  predicate Braced(e: string, c: char)
  {
    && 4 <= |e| <= 9 && e[..2] == "u{" && e[|e| - 1] == '}'
    && InBase(e[2..|e| - 1], 16) && c == Numbered(e[2..|e| - 1], 16)
  }

  predicate Fixed(e: string, letter: char, n: nat, c: char)
  {
    |e| == 1 + n && e[0] == letter && InBase(e[1..], 16) && c == Numbered(e[1..], 16)
  }

  predicate Octal(e: string, c: char, rest: string)
  {
    1 <= |e| <= 3 && InBase(e, 8) && (|e| == 3 || !Ahead(rest, 1, 8)) && c == Numbered(e, 8)
  }

  /** A brace, up to six digits and a brace. */
  predicate BraceAhead(rest: string)
  {
    exists n :: 1 <= n <= 6 && BracesAt(rest, n)
  }

  predicate BracesAt(rest: string, n: nat)
  {
    n + 1 < |rest| && rest[0] == '{' && InBase(rest[1..n + 1], 16) && rest[n + 1] == '}'
  }

  /** A character with nothing behind it that would make it the start of another form. */
  predicate Itself(e: string, c: char, rest: string)
  {
    && e == [c] && !InBase(e, 8) && (c == 'u' ==> !BraceAhead(rest) && !Ahead(rest, 4, 16))
    && (c == 'U' ==> !Ahead(rest, 8, 16)) && (c == 'x' ==> !Ahead(rest, 2, 16))
  }

  /** The six forms behind a backslash. */
  predicate EscapeForm(e: string, c: char, rest: string)
  {
    || Braced(e, c) || Fixed(e, 'u', 4, c) || Fixed(e, 'U', 8, c) || Fixed(e, 'x', 2, c)
    || Octal(e, c, rest) || Itself(e, c, rest)
  }

  /** A backslash with one of the six forms, or a character of its own; a backslash only at the very end. */
  predicate BackslashUnit(u: Unit, rest: string)
  {
    || (|u.text| >= 2 && u.text[0] == '\\' && |u.meant| == 1 && EscapeForm(u.text[1..], u.meant[0], rest))
    || (|u.text| == 1 && u.meant == u.text && (u.text == "\\" ==> rest == ""))
  }

  lemma BracesAre(e: string, rest: string)
    requires 4 <= |e| <= 9 && e[..2] == "u{" && e[|e| - 1] == '}' && InBase(e[2..|e| - 1], 16)
    ensures
      var s := e + rest;
      && s[0] == 'u' && s[1] == '{' && DigitRun(s[2..], 16, 6) == |e| - 3 && s[|e| - 1] == '}'
      && s[2..][..|e| - 3] == e[2..|e| - 1]
  {
    var s, x := e + rest, e[2..|e| - 1];
    var tail := "}" + rest;
    assert s[0] == e[..2][0] && s[1] == e[..2][1];
    assert s[2..] == x + tail;
    assert tail[..1] == "}" && tail[..1][0] == '}' && HexDigit('}').None?;
    assert !Ahead(tail, 1, 16);
    DigitRunIs(x, tail, 16, 6);
  }

  lemma BraceExactly(s: string)
    requires s != "" && s[0] == 'u'
    ensures
      var n := if |s| >= 2 && s[1] == '{' then DigitRun(s[2..], 16, 6) else 0;
      BraceAhead(s[1..]) <==> n > 0 && 2 + n < |s| && s[2 + n] == '}'
  {
    var rest := s[1..];
    hide DigitRun, InBase, HexDigit;
    if n: nat :| 1 <= n <= 6 && BracesAt(rest, n) {
      var e := s[..n + 3];
      assert e[2..|e| - 1] == rest[1..n + 1];
      BracesAre(e, s[n + 3..]);
      assert s == e + s[n + 3..];
    }
    if |s| >= 2 && s[1] == '{' {
      DigitRunStops(s[2..], 16, 6);
      var n := DigitRun(s[2..], 16, 6);
      assert n + 1 < |rest| ==> rest[1..n + 1] == s[2..][..n];
      assert n > 0 && 2 + n < |s| && s[2 + n] == '}' ==> BracesAt(rest, n);
    }
  }

  lemma EscapeStep(e: string, c: char, rest: string)
    requires EscapeForm(e, c, rest) && e != ""
    ensures Escape(e + rest) == (|e|, c)
  {
    hide DigitRun, ValueOf, CodePoint, BraceAhead;
    var s := e + rest;
    assert s[1..] == e[1..] + rest;
    if s[0] == 'u' {
      BraceExactly(s);
    }
    AheadRuns(s[1..], 4, 16);
    AheadRuns(s[1..], 8, 16);
    AheadRuns(s[1..], 2, 16);
    assert HexDigit('u').None? && HexDigit('U').None? && HexDigit('x').None?;
    if Braced(e, c) {
      BracesAre(e, rest);
    } else if Octal(e, c, rest) {
      DigitRunIs(e, rest, 8, 3);
      assert s[0] == e[0] && s[0..|e|] == e;
    } else if Itself(e, c, rest) {
      assert s[1..] == rest;
      NoDigitFirst(s, 8, 3);
    } else {
      var n := |e| - 1;
      assert s[1..][..n] == e[1..] && s[1..][0..n] == e[1..];
    }
  }

  lemma NoDigitFirst(s: string, base: nat, max: nat)
    requires s != "" && !InBase([s[0]], base)
    ensures DigitRun(s, base, max) == 0
  {
  }

  lemma BackslashStep(u: Unit, rest: string)
    requires BackslashUnit(u, rest)
    ensures DecodeBackslashes(u.text + rest) == u.meant + DecodeBackslashes(rest)
  {
    hide Escape, EscapeForm;
    var s := u.text + rest;
    if |u.text| >= 2 {
      var e := u.text[1..];
      EscapeStep(e, u.meant[0], rest);
      assert s[1..] == e + rest && s[1..][|e|..] == rest && u.meant == [u.meant[0]];
    } else {
      assert s[1..] == rest;
    }
  }

  lemma OctalFirst(s: string, n: nat)
    requires 0 < n <= |s| && InBase(s[..n], 8)
    ensures s[0] != 'u' && s[0] != 'U' && s[0] != 'x'
  {
    assert s[..n][0] == s[0];
  }

  /** What the decoder takes is one of the forms. */
  lemma EscapeNext(s: string)
    requires s != ""
    ensures var (n, c) := Escape(s); EscapeForm(s[..n], c, s[n..])
  {
    hide *;
    if s[0] == 'u' && BraceAhead(s[1..]) {
      NextBraced(s);
    } else if s[0] == 'u' && Ahead(s[1..], 4, 16) {
      NextFixed(s, 'u', 4);
    } else if s[0] == 'U' && Ahead(s[1..], 8, 16) {
      NextFixed(s, 'U', 8);
    } else if s[0] == 'x' && Ahead(s[1..], 2, 16) {
      NextFixed(s, 'x', 2);
    } else if DigitRun(s, 8, 3) > 0 {
      NextOctal(s);
    } else {
      NextItself(s);
    }
  }

  lemma NextBraced(s: string)
    requires s != "" && s[0] == 'u' && BraceAhead(s[1..])
    ensures var (n, c) := Escape(s); EscapeForm(s[..n], c, s[n..])
  {
    hide DigitRun, ValueOf, CodePoint, BraceAhead, InBase, HexDigit;
    BraceExactly(s);
    DigitRunStops(s[2..], 16, 6);
    var n := Escape(s).0;
    assert s[..n][2..n - 1] == s[2..][0..n - 3] == s[2..][..n - 3];
  }

  lemma NextFixed(s: string, letter: char, k: nat)
    requires (letter, k) in [('u', 4), ('U', 8), ('x', 2)]
    requires s != "" && s[0] == letter && Ahead(s[1..], k, 16) && (letter == 'u' ==> !BraceAhead(s[1..]))
    ensures var (n, c) := Escape(s); EscapeForm(s[..n], c, s[n..])
  {
    hide DigitRun, ValueOf, CodePoint, BraceAhead, InBase, HexDigit;
    if letter == 'u' {
      BraceExactly(s);
    }
    AheadRuns(s[1..], k, 16);
    assert s[..k + 1][1..] == s[1..][0..k] == s[1..][..k];
    assert Escape(s).0 == k + 1;
    assert Fixed(s[..k + 1], letter, k, Escape(s).1);
  }

  lemma NextOctal(s: string)
    requires s != "" && DigitRun(s, 8, 3) > 0
    ensures var (n, c) := Escape(s); EscapeForm(s[..n], c, s[n..])
  {
    hide DigitRun, ValueOf, CodePoint, BraceAhead, InBase, HexDigit;
    DigitRunStops(s, 8, 3);
    var n := DigitRun(s, 8, 3);
    OctalFirst(s, n);
    assert s[0..n] == s[..n];
    assert Octal(s[..n], Escape(s).1, s[n..]);
  }

  lemma NextItself(s: string)
    requires s != "" && DigitRun(s, 8, 3) == 0
    requires s[0] == 'u' ==> !BraceAhead(s[1..]) && !Ahead(s[1..], 4, 16)
    requires s[0] == 'U' ==> !Ahead(s[1..], 8, 16)
    requires s[0] == 'x' ==> !Ahead(s[1..], 2, 16)
    ensures var (n, c) := Escape(s); EscapeForm(s[..n], c, s[n..])
  {
    hide DigitRun, ValueOf, CodePoint, BraceAhead, InBase, HexDigit;
    if s[0] == 'u' {
      BraceExactly(s);
    }
    AheadRuns(s[1..], 4, 16);
    AheadRuns(s[1..], 8, 16);
    AheadRuns(s[1..], 2, 16);
    DigitRunStops(s, 8, 3);
    assert s[0..] == s && !Ahead(s, 1, 8);
    assert s[..1] == [s[0]];
    assert Escape(s) == (1, s[0]);
    assert Itself(s[..1], s[0], s[1..]);
  }

  lemma BackslashNext(s: string) returns (u: Unit, rest: string)
    requires s != ""
    ensures s == u.text + rest && BackslashUnit(u, rest) && u.text != ""
  {
    hide Escape, EscapeForm;
    if s[0] == '\\' && |s| >= 2 {
      var (n, c) := Escape(s[1..]);
      EscapeNext(s[1..]);
      u, rest := Unit(s[..n + 1], [c]), s[1..][n..];
      assert u.text[1..] == s[1..][..n];
    } else {
      u, rest := Unit(s[..1], s[..1]), s[1..];
    }
  }

  // --- Character references -----------------------------------------------------------------

  predicate NameChar(c: char)
  {
    IsLetter(c) || IsDigit(c)
  }

  predicate NameChars(x: string)
  {
    forall i :: 0 <= i < |x| ==> NameChar(x[i])
  }

  lemma {:induction false} NameRunIs(x: string, rest: string, max: nat)
    requires NameChars(x) && |x| <= max && (|x| == max || rest == "" || !NameChar(rest[0]))
    ensures NameRun(x + rest, max) == |x|
  {
    var s := x + rest;
    if x == "" {
      assert s == rest;
    } else {
      assert s[0] == x[0] && s[1..] == x[1..] + rest;
      NameRunIs(x[1..], rest, max - 1);
    }
  }

  lemma {:induction false} NameRunStops(s: string, max: nat)
    ensures
      var n := NameRun(s, max);
      NameChars(s[..n]) && (n == max || n == |s| || !NameChar(s[n]))
  {
    if s == "" || max == 0 || !NameChar(s[0]) {
    } else {
      NameRunStops(s[1..], max - 1);
    }
  }

  /** `#` and up to seven digits. */
  predicate DecimalRef(ref: string, after: string, meant: string)
  {
    && 2 <= |ref| <= 8 && ref[0] == '#' && InBase(ref[1..], 10) && (|ref| == 8 || !Ahead(after, 1, 10))
    && meant == [Numbered(ref[1..], 10)]
  }

  /** `#x` and up to six digits. */
  predicate HexRef(ref: string, after: string, meant: string)
  {
    && 3 <= |ref| <= 8 && ref[0] == '#' && ref[1] in "xX" && InBase(ref[2..], 16)
    && (|ref| == 8 || !Ahead(after, 1, 16)) && meant == [Numbered(ref[2..], 16)]
  }

  /** A name; one that is not in the table stands for its own text. */
  predicate NamedRef(ref: string, after: string, text: string, meant: string)
  {
    && 2 <= |ref| <= 32 && IsLetter(ref[0]) && NameChars(ref)
    && (|ref| == 32 || after == "" || !NameChar(after[0]))
    && meant == if ref in NAMED_REFS then [NAMED_REFS[ref]] else text
  }

  /** The three forms behind an ampersand, with `after` behind them. */
  predicate RefForm(ref: string, after: string, text: string, meant: string)
  {
    DecimalRef(ref, after, meant) || HexRef(ref, after, meant) || NamedRef(ref, after, text, meant)
  }

  predicate RefAhead(rest: string)
  {
    && |rest| >= 2
    && if rest[0] == '#' then Ahead(rest[1..], 1, 10) || (rest[1] in "xX" && Ahead(rest[2..], 1, 16))
       else IsLetter(rest[0]) && NameChar(rest[1])
  }

  /** An ampersand and a reference, with a semicolon or without, or a character of its own. */
  predicate RefUnit(u: Unit, rest: string)
  {
    || (|u.text| >= 4 && u.text[0] == '&' && u.text[|u.text| - 1] == ';'
        && RefForm(u.text[1..|u.text| - 1], ";" + rest, u.text, u.meant))
    || (|u.text| >= 3 && u.text[0] == '&' && (rest == "" || rest[0] != ';')
        && RefForm(u.text[1..], rest, u.text, u.meant))
    || (|u.text| == 1 && u.meant == u.text && (u.text == "&" ==> !RefAhead(rest)))
  }

  /** What a reference stands for, as the decoder has it. */
  function Standing(c: Option<char>, text: string): string
  {
    if c.Some? then [c.value] else text
  }

  lemma ReferenceOf(ref: string, after: string, text: string, meant: string)
    requires RefForm(ref, after, text, meant)
    ensures
      var r := Reference(ref + after);
      r.Some? && r.value.0 == |ref| && meant == Standing(r.value.1, text)
  {
    hide DigitRun, NameRun, ValueOf, CodePoint, NAMED_REFS;
    var s := ref + after;
    if DecimalRef(ref, after, meant) {
      assert s[1..] == ref[1..] + after;
      DigitRunIs(ref[1..], after, 10, 7);
      assert s[1..][0..|ref| - 1] == ref[1..];
    } else if HexRef(ref, after, meant) {
      assert s[1..][0] == s[1] == ref[1] && s[2..] == ref[2..] + after;
      assert HexDigit('x').None? && HexDigit('X').None?;
      assert [s[1..][0]][0] == ref[1];
      NoDigitFirst(s[1..], 10, 7);
      DigitRunIs(ref[2..], after, 16, 6);
      assert s[2..][0..|ref| - 2] == ref[2..];
    } else {
      assert s[0] == ref[0] && s[1..] == ref[1..] + after;
      NameRunIs(ref[1..], after, 31);
      assert s[..|ref|] == ref;
    }
  }

  lemma NoReference(rest: string)
    ensures Reference(rest).Some? ==> RefAhead(rest)
  {
    hide ValueOf, CodePoint, NAMED_REFS;
    if |rest| >= 2 {
      DigitRunStops(rest[1..], 10, 7);
      DigitRunStops(rest[2..], 16, 6);
      assert DigitRun(rest[1..], 10, 7) > 0 ==> Ahead(rest[1..], 1, 10);
      assert DigitRun(rest[2..], 16, 6) > 0 ==> Ahead(rest[2..], 1, 16);
    }
  }

  lemma RefStep(u: Unit, rest: string)
    requires RefUnit(u, rest)
    ensures DecodeCharRefs(u.text + rest) == u.meant + DecodeCharRefs(rest)
  {
    hide Reference, RefForm, RefAhead;
    var s := u.text + rest;
    if |u.text| == 1 {
      assert s[1..] == rest;
      NoReference(rest);
    } else if |u.text| >= 4 && u.text[|u.text| - 1] == ';'
              && RefForm(u.text[1..|u.text| - 1], ";" + rest, u.text, u.meant) {
      var ref := u.text[1..|u.text| - 1];
      ReferenceOf(ref, ";" + rest, u.text, u.meant);
      assert s[1..] == ref + (";" + rest);
      assert s[|u.text|..] == rest && s[..|u.text|] == u.text;
    } else {
      ReferenceOf(u.text[1..], rest, u.text, u.meant);
      assert s[1..] == u.text[1..] + rest;
      assert s[|u.text|..] == rest && s[..|u.text|] == u.text;
    }
  }

  /** What the decoder takes is one of the forms. */
  lemma ReferenceNext(s: string, text: string)
    requires Reference(s).Some?
    ensures
      var (n, c) := Reference(s).value;
      RefForm(s[..n], s[n..], text, Standing(c, text))
  {
    hide DigitRun, NameRun, ValueOf, CodePoint, NAMED_REFS, InBase, HexDigit;
    var (n, c) := Reference(s).value;
    var ref := s[..n];
    DigitRunStops(s[1..], 10, 7);
    DigitRunStops(s[2..], 16, 6);
    NameRunStops(s[1..], 31);
    if s[0] == '#' && DigitRun(s[1..], 10, 7) > 0 {
      assert ref[1..] == s[1..][0..n - 1] == s[1..][..n - 1] && s[1..][n - 1..] == s[n..];
      assert DecimalRef(ref, s[n..], Standing(c, text));
    } else if s[0] == '#' {
      assert ref[2..] == s[2..][0..n - 2] == s[2..][..n - 2] && s[2..][n - 2..] == s[n..];
      assert HexRef(ref, s[n..], Standing(c, text));
    } else {
      assert ref[1..] == s[1..][..n - 1];
      assert forall i :: 0 <= i < n ==> NameChar(ref[i]) by {
        assert forall i :: 1 <= i < n ==> ref[i] == s[1..][..n - 1][i - 1];
      }
      assert NamedRef(ref, s[n..], text, Standing(c, text));
    }
  }

  lemma RefNext(s: string) returns (u: Unit, rest: string)
    requires s != ""
    ensures s == u.text + rest && RefUnit(u, rest) && u.text != ""
  {
    hide Reference, RefForm;
    if s[0] == '&' && Reference(s[1..]).Some? {
      var (n, c) := Reference(s[1..]).value;
      if 1 + n < |s| && s[1 + n] == ';' {
        var text := s[..n + 2];
        u, rest := Unit(text, Standing(c, text)), s[n + 2..];
        ReferenceNext(s[1..], text);
        assert s[1..][..n] == text[1..|text| - 1];
        assert s[1..][n..] == ";" + rest;
      } else {
        var text := s[..n + 1];
        u, rest := Unit(text, Standing(c, text)), s[n + 1..];
        ReferenceNext(s[1..], text);
        assert s[1..][..n] == text[1..];
        assert s[1..][n..] == rest;
      }
    } else {
      u, rest := Unit(s[..1], s[..1]), s[1..];
      if RefAhead(rest) {
        AheadIsReference(rest);
      }
    }
  }

  lemma AheadIsReference(rest: string)
    requires RefAhead(rest)
    ensures Reference(rest).Some?
  {
    hide ValueOf, CodePoint, NAMED_REFS;
    DigitRunStops(rest[1..], 10, 7);
    DigitRunStops(rest[2..], 16, 6);
  }

  // --- Any text -------------------------------------------------------------------------------

  predicate UnitOf(d: Decoder, u: Unit, rest: string)
  {
    match d
    case Backslashes => BackslashUnit(u, rest)
    case CharRefs => RefUnit(u, rest)
    case Percent => PercentUnit(u, rest)
  }

  /** Every unit has its form in front of what follows it. */
  predicate Fits(d: Decoder, us: seq<Unit>)
  {
    us == [] || (UnitOf(d, us[0], Written(us[1..])) && Fits(d, us[1..]))
  }

  /** However a text is written in units, the decoder gives back what is meant. */
  lemma {:induction false} WrittenIsRead(d: Decoder, us: seq<Unit>)
    requires Fits(d, us)
    ensures Read(d, Written(us)) == Meant(us)
  {
    hide BackslashUnit, RefUnit, PercentUnit;
    if us == [] {
    } else {
      WrittenIsRead(d, us[1..]);
      var u, rest := us[0], Written(us[1..]);
      match d
      case Backslashes => BackslashStep(u, rest);
      case CharRefs => RefStep(u, rest);
      case Percent => PercentStep(u, rest);
    }
  }

  lemma {:induction false} TextIsWritten(d: Decoder, s: string) returns (us: seq<Unit>)
    ensures Fits(d, us) && Written(us) == s
    decreases |s|
  {
    hide BackslashUnit, RefUnit, PercentUnit;
    if s == "" {
      us := [];
    } else {
      var u, rest;
      match d {
        case Backslashes => u, rest := BackslashNext(s);
        case CharRefs => u, rest := RefNext(s);
        case Percent => u, rest := PercentNext(s);
      }
      var more := TextIsWritten(d, rest);
      us := [u] + more;
      assert us[1..] == more;
    }
  }

  /** The text can be written in units that stand for this. */
  ghost predicate Spells(d: Decoder, s: string, meant: string)
  {
    exists us :: Fits(d, us) && Written(us) == s && Meant(us) == meant
  }

  /** Exactly what each decoder makes of a text: what its units stand for. */
  lemma DecodersExactly(d: Decoder, s: string, meant: string)
    ensures Read(d, s) == meant <==> Spells(d, s, meant)
  {
    hide Read, Fits, Written, Meant;
    if Read(d, s) == meant {
      var us := TextIsWritten(d, s);
      WrittenIsRead(d, us);
    }
    forall us | Fits(d, us) && Written(us) == s && Meant(us) == meant
      ensures Read(d, s) == meant
    {
      WrittenIsRead(d, us);
    }
  }

  // --- Secrets --------------------------------------------------------------------------------

  /** `s` is `meant`, written at most `k` times over, each time with the escapes of one kind. */
  ghost predicate Wrapped(s: string, meant: string, k: nat)
    decreases k
  {
    s == meant || (k > 0 && exists d, inner :: Spells(d, s, inner) && Wrapped(inner, meant, k - 1))
  }

  lemma {:induction false} ImageFirst(v: string, d: Decoder, ds: seq<Decoder>)
    ensures Image(Read, v, [d] + ds) == Image(Read, Read(d, v), ds)
    decreases |ds|
  {
    hide Read;
    var all := [d] + ds;
    if ds == [] {
      assert all[..0] == [] && Image(Read, v, []) == v;
    } else {
      assert all[..|all| - 1] == [d] + ds[..|ds| - 1];
      ImageFirst(v, d, ds[..|ds| - 1]);
    }
  }

  lemma {:induction false} WrappedIsWithin(s: string, meant: string, k: nat) returns (ds: seq<Decoder>)
    requires Wrapped(s, meant, k)
    ensures |ds| <= k && Image(Read, s, ds) == meant
    decreases k
  {
    hide Read, Spells;
    if s == meant {
      ds := [];
    } else {
      var d, inner :| Spells(d, s, inner) && Wrapped(inner, meant, k - 1);
      DecodersExactly(d, s, inner);
      var more := WrappedIsWithin(inner, meant, k - 1);
      ds := [d] + more;
      ImageFirst(s, d, more);
    }
  }

  lemma {:induction false} WithinIsWrapped(s: string, ds: seq<Decoder>, k: nat)
    requires |ds| <= k
    ensures Wrapped(s, Image(Read, s, ds), k)
    decreases |ds|
  {
    hide Read, Spells;
    if ds == [] {
    } else {
      var inner := Read(ds[0], s);
      DecodersExactly(ds[0], s, inner);
      assert ds == [ds[0]] + ds[1..];
      ImageFirst(s, ds[0], ds[1..]);
      WithinIsWrapped(inner, ds[1..], k - 1);
    }
  }

  /**
   `secret_shape_in` with the decoders it has: a shape is reported exactly when
   the value is a text of that kind written at most four times over, in
   whichever forms.
   */
  method SecretShapeIn(patterns: seq<string -> bool>, value: string) returns (r: Option<nat>)
    ensures r.Some? <==> exists meant, p :: Wrapped(value, meant, ROUNDS) && 0 <= p < |patterns| && patterns[p](meant)
    ensures r.Some? ==> r.value < |patterns| && exists meant :: Wrapped(value, meant, ROUNDS) && patterns[r.value](meant)
  {
    hide Read, Wrapped;
    r := DecodedVariants.SecretShapeIn(Read, patterns, value);
    if r.Some? {
      ghost var ds: seq<Decoder> :| |ds| <= ROUNDS && patterns[r.value](Image(Read, value, ds));
      WithinIsWrapped(value, ds, ROUNDS);
      assert Wrapped(value, Image(Read, value, ds), ROUNDS) && patterns[r.value](Image(Read, value, ds));
    }
    forall meant, p | Wrapped(value, meant, ROUNDS) && 0 <= p < |patterns| && patterns[p](meant)
      ensures r.Some?
    {
      var ds := WrappedIsWithin(value, meant, ROUNDS);
      assert patterns[p](Image(Read, value, ds));
    }
  }

  // --- Every character has its forms --------------------------------------------------------------

  lemma NumberedBack(c: char, base: nat, width: nat, x: string)
    requires 2 <= base <= 16 && c as nat < Power(base, width) && Lower(x) == Printed(c as nat, base, width)
    ensures InBase(x, base) && |x| == width && Numbered(x, base) == c
  {
    PrintedValue(c as nat, base, width, x);
  }

  /**
   Any character can be written in braces with six hexadecimal digits, in either
   case, as a decimal reference with seven digits, and, if it is a byte, behind
   a percent sign: in front of anything.
   */
  lemma EveryCharacterHasForms(c: char, hex: string, dec: string, rest: string)
    requires Lower(hex) == Printed(c as nat, 16, 6) && Lower(dec) == Printed(c as nat, 10, 7)
    ensures BackslashUnit(Unit("\\u{" + hex + "}", [c]), rest)
    ensures RefUnit(Unit("&#" + dec + ";", [c]), rest)
    ensures forall pair :: c as nat < 256 && Lower(pair) == Printed(c as nat, 16, 2) ==>
      PercentUnit(Unit("%" + pair, [c]), rest)
  {
    hide Printed, Numbered, InBase, Lower;
    assert Power(16, 6) == 0x100_0000 && Power(10, 7) == 1000_0000 && Power(16, 2) == 256 by { Powers(); }
    NumberedBack(c, 16, 6, hex);
    NumberedBack(c, 10, 7, dec);
    var braced := "\\u{" + hex + "}";
    assert braced[1..] == "u{" + hex + "}";
    assert braced[1..][2..8] == hex && braced[1..][..2] == "u{";
    var ref := "&#" + dec + ";";
    assert ref[1..9] == "#" + dec && ref[1..9][1..] == dec;
    forall pair | c as nat < 256 && Lower(pair) == Printed(c as nat, 16, 2)
      ensures PercentUnit(Unit("%" + pair, [c]), rest)
    {
      NumberedBack(c, 16, 2, pair);
      assert ("%" + pair)[1..] == pair;
    }
  }

  lemma Powers()
    ensures Power(16, 6) == 0x100_0000 && Power(10, 7) == 1000_0000 && Power(16, 2) == 256
  {
    assert Power(16, 3) == 4096;
    assert Power(10, 4) == 10000;
  }
}
