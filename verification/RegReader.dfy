/**
 Every `.reg` file that the reader of check.py has no complaint about, whoever
 wrote it: up to comments and blank lines it is what the writer makes of some
 pairs.
 */
module RegReader {
  import opened Wrappers
  import opened AsciiText
  import opened RegFile

  /** A comment or a blank line. */
  predicate Remark(line: string)
  {
    line == "" || line[0] == ';'
  }

  function Meaningful(lines: seq<string>): seq<string>
  {
    if lines == [] then []
    else (if Remark(lines[0]) then [] else [lines[0]]) + Meaningful(lines[1..])
  }

  lemma FirstMeant(lines: seq<string>)
    requires lines != [] && !Remark(lines[0])
    ensures Meaningful(lines) != [] && Meaningful(lines)[0] == lines[0] && Meaningful(lines)[1..] == Meaningful(lines[1..])
  {
  }

  // --- A quoted group is an escaped text ----------------------------------------------

  lemma {:induction false} QuotedIsEscaped(s: string)
    requires Quoted(s).Some?
    ensures
      var (g, rest) := Quoted(s).value;
      Escape(Unescape(g)) == g && s == g + "\"" + rest
    decreases |s|
  {
    hide Escape;
    var (g, rest) := Quoted(s).value;
    if s[0] == '"' {
      assert Unescape("") == "" && Escape("") == "" by { NothingEscaped(); }
    } else if s[0] != '\\' {
      QuotedIsEscaped(s[1..]);
      var h := Quoted(s[1..]).value.0;
      assert g[1..] == h && Unescape(g) == [s[0]] + Unescape(h);
      EscapeCons(s[0], Unescape(h));
    } else {
      QuotedIsEscaped(s[2..]);
      var h := Quoted(s[2..]).value.0;
      assert g == s[..2] + h && g[2..] == h && Unescape(g) == [s[1]] + Unescape(h);
      EscapeCons(s[1], Unescape(h));
      assert s[..2] == [s[0]] + [s[1]];
    }
  }

  lemma NothingEscaped()
    ensures Unescape("") == "" && Escape("") == ""
  {
  }

  lemma EscapeCons(c: char, t: string)
    ensures Escape([c] + t) == EscapeChar(c) + Escape(t)
  {
    var s := [c] + t;
    EscapeStep(s);
    assert s[1..] == t;
  }

  /** A line that the pattern matches is the line of the pair that is read from it. */
  lemma MatchedIsPairLine(line: string)
    requires MatchLine(line).Some?
    ensures
      var (g, h) := MatchLine(line).value;
      line == PairLine((Unescape(g), Unescape(h)))
  {
    hide Escape, Unescape, Quoted;
    var (g, t) := Quoted(line[1..]).value;
    var (h, rest) := Quoted(t[2..]).value;
    QuotedIsEscaped(line[1..]);
    QuotedIsEscaped(t[2..]);
    assert line == "\"" + line[1..] && t == "=\"" + t[2..];
    assert line == "\"" + (g + "\"" + ("=\"" + (h + "\"" + "")));
  }

  // --- The values ---------------------------------------------------------------------

  /** Without a section line among them, lines that draw no complaint are pairs with names of their own. */
  lemma {:induction false} CleanLinesArePairs(r: Reader, lines: seq<string>, number: nat) returns (ps: Pairs)
    requires r.inSection && SectionLines(lines) == [] && ReadAll(r, lines, number).report == r.report
    ensures Meaningful(lines) == PairLines(ps) && Repeats(r.seen, ps) == []
    ensures ReadAll(r, lines, number).values == Dictionary(r.values, ps)
    decreases |lines|
  {
    hide MatchLine, PairLine, Lower;
    if lines == [] {
      ps := [];
    } else {
      var line := lines[0];
      var next := Read(r, line, number);
      ReadAllGrows(next, lines[1..], number + 1);
      assert next.report == r.report by { NotLonger(r.report, next.report, ReadAll(r, lines, number).report); }
      var more := CleanLinesArePairs(next, lines[1..], number + 1);
      if Remark(line) {
        ps := more;
      } else {
        var m := MatchLine(line);
        assert m.Some?;
        MatchedIsPairLine(line);
        var p := (Unescape(m.value.0), Unescape(m.value.1));
        ReadPair(r, p, number);
        ps := [p] + more;
        assert ps[1..] == more;
      }
    }
  }

  lemma NotLonger(a: seq<Complaint>, b: seq<Complaint>, c: seq<Complaint>)
    requires b <= c && c == a && |a| <= |b|
    ensures b == a
  {
  }

  lemma {:induction false} PairsAreClean(r: Reader, lines: seq<string>, number: nat, ps: Pairs)
    requires r.inSection && Meaningful(lines) == PairLines(ps) && Repeats(r.seen, ps) == []
    ensures SectionLines(lines) == []
    ensures ReadAll(r, lines, number).report == r.report
    ensures ReadAll(r, lines, number).values == Dictionary(r.values, ps)
    decreases |lines|
  {
    hide MatchLine, PairLine, Lower;
    if lines == [] {
      assert ps == [];
    } else if Remark(lines[0]) {
      PairsAreClean(r, lines[1..], number + 1, ps);
    } else {
      FirstMeant(lines);
      assert ps != [] && PairLines(ps)[1..] == PairLines(ps[1..]);
      assert lines[0] == PairLine(ps[0]) && Meaningful(lines[1..]) == PairLines(ps[1..]);
      ReadPair(r, ps[0], number);
      QuoteFirst(ps[0]);
      PairsAreClean(Read(r, lines[0], number), lines[1..], number + 1, ps[1..]);
    }
  }

  lemma QuoteFirst(p: (string, string))
    ensures PairLine(p) != "" && PairLine(p)[0] == '"'
  {
  }

  // --- The section and the file ----------------------------------------------------------

  lemma ReadGrows(r: Reader, line: string, number: nat)
    ensures r.report <= Read(r, line, number).report
  {
    hide MatchLine, Unescape, Lower;
  }

  /** Before the section, only comments, blank lines and the section itself draw no complaint. */
  lemma NoPairYet(r: Reader, line: string, number: nat)
    requires !r.inSection && Read(r, line, number).report == r.report
    ensures Remark(line) ==> Read(r, line, number) == r
    ensures !Remark(line) ==> line[0] == '[' && Read(r, line, number) == r.(inSection := true)
  {
    hide MatchLine, Unescape, Lower;
  }

  /** Behind the header: one section line, and then pairs. */
  lemma {:induction false} CleanFileHasPairs(r: Reader, lines: seq<string>, number: nat, section: string)
    returns (ps: Pairs)
    requires !r.inSection && SectionLines(lines) == [section] && ReadAll(r, lines, number).report == r.report
    ensures Meaningful(lines) == [section] + PairLines(ps) && Repeats(r.seen, ps) == []
    ensures ReadAll(r, lines, number).values == Dictionary(r.values, ps)
    decreases |lines|
  {
    hide MatchLine, PairLine, Lower, Dictionary, Repeats, Read;
    var next := Read(r, lines[0], number);
    ReadAllGrows(next, lines[1..], number + 1);
    assert next.report == r.report by {
      ReadGrows(r, lines[0], number);
      NotLonger(r.report, next.report, ReadAll(r, lines, number).report);
    }
    NoPairYet(r, lines[0], number);
    if Remark(lines[0]) {
      ps := CleanFileHasPairs(r, lines[1..], number + 1, section);
    } else {
      assert SectionLines(lines) == [lines[0]] + SectionLines(lines[1..]);
      ps := CleanLinesArePairs(next, lines[1..], number + 1);
    }
  }

  lemma {:induction false} PairsMakeACleanFile(r: Reader, lines: seq<string>, number: nat, section: string, ps: Pairs)
    requires !r.inSection && section != "" && section[0] == '['
    requires Meaningful(lines) == [section] + PairLines(ps) && Repeats(r.seen, ps) == []
    ensures SectionLines(lines) == [section] && ReadAll(r, lines, number).report == r.report
    ensures ReadAll(r, lines, number).values == Dictionary(r.values, ps)
    decreases |lines|
  {
    hide MatchLine, PairLine, Lower, Dictionary, Repeats;
    if Remark(lines[0]) {
      PairsMakeACleanFile(r, lines[1..], number + 1, section, ps);
    } else {
      FirstMeant(lines);
      assert ([section] + PairLines(ps))[1..] == PairLines(ps);
      assert lines[0] == section && Meaningful(lines[1..]) == PairLines(ps);
      PairsAreClean(r.(inSection := true), lines[1..], number + 1, ps);
    }
  }

  lemma {:induction false} JoinOfSplit(t: string)
    ensures Join(SplitLines(t)) == t
  {
    if t == "" {
    } else if |t| >= 2 && t[0] == '\r' && t[1] == '\n' {
      JoinOfSplit(t[2..]);
      var r := SplitLines(t[2..]);
      assert ([""] + r)[1..] == r;
      assert t == "\r\n" + t[2..];
    } else {
      JoinOfSplit(t[1..]);
      var r := SplitLines(t[1..]);
      var all := [[t[0]] + r[0]] + r[1..];
      assert all[1..] == r[1..];
      assert t == [t[0]] + t[1..];
    }
  }

  /** The text is a header and lines that, but for comments and blank lines, are a section and these pairs. */
  ghost predicate FileOf(text: string, registryKey: string, ps: Pairs)
  {
    && ps != [] && DistinctNames(ps)
    && exists lines :: Lines(text, lines) && Meaningful(lines) == [Section(registryKey)] + PairLines(ps)
  }

  predicate Lines(text: string, lines: seq<string>)
  {
    text == Join([HEADER] + lines) && forall l :: l in lines ==> OneLine(l)
  }

  /** Exactly which files draw no complaint, and what is read from them. */
  lemma CleanExactly(text: string, registryKey: string)
    ensures Checked(text, registryKey).1 == [] <==> exists ps :: FileOf(text, registryKey, ps)
    ensures forall ps :: FileOf(text, registryKey, ps) ==> HoldsPairs(Checked(text, registryKey).0, ps)
  {
    hide Checked, FileOf, HoldsPairs;
    if Checked(text, registryKey).1 == [] {
      var ps := CleanIsAFile(text, registryKey);
    }
    forall ps | FileOf(text, registryKey, ps)
      ensures Checked(text, registryKey).1 == [] && HoldsPairs(Checked(text, registryKey).0, ps)
    {
      FileIsClean(text, registryKey, ps);
    }
  }

  lemma CleanIsAFile(text: string, registryKey: string) returns (ps: Pairs)
    requires Checked(text, registryKey).1 == []
    ensures FileOf(text, registryKey, ps)
  {
    hide ReadAll, Ascii, NoBreak, SplitLines, HEADER, Join, PairLines, Repeats, Dictionary, DistinctNames, Section,
      Meaningful, SectionLines;
    var lines := SplitLines(text);
    var start := Reader(map[], {}, false, Opening(lines, registryKey));
    ReadAllGrows(start, lines[1..], 2);
    assert start.report == [];
    SectionsBehindTheHeader(lines);
    ps := CleanFileHasPairs(start, lines[1..], 2, Section(registryKey));
    RepeatsExactly({}, ps);
    if ps == [] {
      NothingRead(start.values);
    }
    SplitAscii(text);
    JoinOfSplit(text);
    assert [HEADER] + lines[1..] == lines;
    forall l | l in lines[1..]
      ensures OneLine(l)
    {
      assert l in lines && NoBreak(l) && Ascii(l);
      CleanLine(l);
    }
    assert Lines(text, lines[1..]);
  }

  lemma NothingRead(values: map<string, string>)
    ensures Dictionary(values, []) == values
  {
  }

  lemma CleanLine(l: string)
    ensures OneLine(l) <==> NoBreak(l) && Ascii(l)
  {
  }

  lemma SectionsBehindTheHeader(lines: seq<string>)
    requires lines != [] && lines[0] == HEADER
    ensures SectionLines(lines) == SectionLines(lines[1..])
  {
    hide HEADER;
    HeaderIsALine();
  }

  lemma FileIsClean(text: string, registryKey: string, ps: Pairs)
    requires FileOf(text, registryKey, ps)
    ensures Checked(text, registryKey).1 == [] && HoldsPairs(Checked(text, registryKey).0, ps)
  {
    hide ReadAll, Ascii, NoBreak, SplitLines, HEADER, Join, PairLines, Repeats, Dictionary, DistinctNames,
      Meaningful, SectionLines, HoldsPairs, OneLine;
    var lines :| Lines(text, lines) && Meaningful(lines) == [Section(registryKey)] + PairLines(ps);
    var all := [HEADER] + lines;
    HeaderIsALine();
    SplitJoin(all);
    JoinAscii(all);
    NoBreaks(all);
    SectionsBehindTheHeader(all);
    RepeatsExactly({}, ps);
    var start := Reader(map[], {}, false, []);
    assert all[1..] == lines;
    PairsMakeACleanFile(start, lines, 2, Section(registryKey), ps);
    assert Opening(all, registryKey) == [];
    DictionaryGrows(map[], ps);
    DictionaryHoldsThePairs(ps);
  }
}
