/**
 The `.reg` file of the configuration pack: the writer of render.py and the
 reader of check.py, which must find exactly what was written.
 */
module RegFile {
  import opened Wrappers
  import opened AsciiText

  // --- Text -----------------------------------------------------------------------

  predicate Plain(s: string)
  {
    forall i :: 0 <= i < |s| ==> ' ' <= s[i] <= '~'
  }

  predicate NoBreak(s: string)
  {
    forall i :: 0 <= i < |s| ==> s[i] != '\r' && s[i] != '\n'
  }

  predicate OneLine(s: string)
  {
    forall i :: 0 <= i < |s| ==> s[i] != '\r' && s[i] != '\n' && s[i] < '\U{0080}'
  }

  /** `"\r\n".join(lines)`. */
  function Join(lines: seq<string>): string
    requires lines != []
  {
    if |lines| == 1 then lines[0] else lines[0] + "\r\n" + Join(lines[1..])
  }

  /** `t.split("\r\n")`. */
  function SplitLines(t: string): (r: seq<string>)
    ensures r != []
  {
    if t == "" then [""]
    else if |t| >= 2 && t[0] == '\r' && t[1] == '\n' then [""] + SplitLines(t[2..])
    else
      var r := SplitLines(t[1..]);
      [[t[0]] + r[0]] + r[1..]
  }

  /** `s.replace(c, with)`. */
  function Replace(s: string, c: char, with: string): string
  {
    if s == "" then "" else (if s[0] == c then with else [s[0]]) + Replace(s[1..], c, with)
  }

  // --- The writer -----------------------------------------------------------------

  type Pairs = seq<(string, string)>

  /** The replacements of `_reg_escape`, in their order. */
  function Escape(s: string): string
  {
    Replace(Replace(s, '\\', "\\\\"), '"', "\\\"")
  }

  function PairLine(p: (string, string)): string
  {
    "\"" + Escape(p.0) + "\"=\"" + Escape(p.1) + "\""
  }

  function PairLines(ps: Pairs): seq<string>
  {
    if ps == [] then [] else [PairLine(ps[0])] + PairLines(ps[1..])
  }

  const HEADER := "Windows Registry Editor Version 5.00"

  const NOTE := ["; Lucairn gateway settings", " for Claude Desktop", " (third-party inference mode)."]
  const TYPES := ["; Every value is REG_SZ,", " directly under the policy key.", " See SETUP.md before importing."]

  function Sentence(words: seq<string>): string
  {
    if words == [] then "" else words[0] + Sentence(words[1..])
  }

  function Notes(gateway: string): seq<string>
  {
    ["", Sentence(NOTE), "; Gateway: " + gateway, Sentence(TYPES), ""]
  }

  function Section(registryKey: string): string
  {
    "[" + registryKey + "]"
  }

  /** All lines but the first. */
  function Body(registryKey: string, gateway: string, ps: Pairs): seq<string>
  {
    Notes(gateway) + [Section(registryKey)] + PairLines(ps) + [""]
  }

  predicate Writable(gateway: string, ps: Pairs)
  {
    ps != [] && Plain(gateway) && forall p :: p in ps ==> Plain(p.0) && Plain(p.1)
  }

  /** `render_reg`; `None` is the refusal. */
  function Render(registryKey: string, gateway: string, ps: Pairs): Option<string>
  {
    if !Writable(gateway, ps) then None
    else Some(Join([HEADER] + Body(registryKey, gateway, ps)) + "\r\n")
  }

  /** A control character, or one that is not ASCII. */
  predicate Unprintable(c: char)
  {
    c < '\U{20}' || c >= '\U{7F}'
  }

  /** What the writer refuses: no pairs at all, or an unprintable character in the gateway, a name or a value. */
  lemma RefusedExactly(registryKey: string, gateway: string, ps: Pairs)
    ensures Render(registryKey, gateway, ps).None? <==>
      || ps == [] || (exists c :: c in gateway && Unprintable(c))
      || exists p, c :: p in ps && c in p.0 + p.1 && Unprintable(c)
  {
    PlainExactly(gateway);
    forall p | p in ps
      ensures Plain(p.0) && Plain(p.1) <==> forall c :: c in p.0 + p.1 ==> !Unprintable(c)
    {
      PlainExactly(p.0);
      PlainExactly(p.1);
    }
    hide Plain, Unprintable;
  }

  lemma PlainExactly(s: string)
    ensures Plain(s) <==> forall c :: c in s ==> !Unprintable(c)
  {
    if forall c :: c in s ==> !Unprintable(c) {
      assert forall i :: 0 <= i < |s| ==> s[i] in s;
    }
  }

  method RenderReg(registryKey: string, gateway: string, ps: Pairs) returns (r: Option<string>)
    ensures r == Render(registryKey, gateway, ps)
  {
    if ps == [] || !Plain(gateway) {
      return None;
    }
    var lines := [HEADER] + Notes(gateway) + [Section(registryKey)];
    ghost var front := lines;
    hide HEADER, Notes, Section;
    var n := 0;
    while n < |ps|
      invariant 0 <= n <= |ps| && lines + PairLines(ps[n..]) == front + PairLines(ps)
      invariant forall p :: p in ps[..n] ==> Plain(p.0) && Plain(p.1)
    {
      if !Plain(ps[n].0) || !Plain(ps[n].1) {
        assert ps[n] in ps;
        return None;
      }
      assert ps[n..][1..] == ps[n + 1..] && ps[..n + 1] == ps[..n] + [ps[n]];
      assert lines + PairLines(ps[n..]) == lines + [PairLine(ps[n])] + PairLines(ps[n + 1..]);
      lines := lines + [PairLine(ps[n])];
      n := n + 1;
    }
    assert ps[..n] == ps && ps[n..] == [] && lines == front + PairLines(ps);
    assert front + PairLines(ps) + [""] == [HEADER] + Body(registryKey, gateway, ps);
    r := Some(Join(lines + [""]) + "\r\n");
  }

  // --- The reader -----------------------------------------------------------------

  /** The text up to the closing quote and what follows it; `s` starts behind the opening quote. */
  function Quoted(s: string): (r: Option<(string, string)>)
    ensures r.Some? ==> |r.value.0| + |r.value.1| < |s|
    decreases |s|
  {
    if s == "" then None
    else if s[0] == '"' then Some(("", s[1..]))
    else if s[0] != '\\' then
      var r := Quoted(s[1..]);
      if r.None? then None else Some(([s[0]] + r.value.0, r.value.1))
    else if |s| >= 2 && (s[1] == '\\' || s[1] == '"') then
      var r := Quoted(s[2..]);
      if r.None? then None else Some((s[..2] + r.value.0, r.value.1))
    else None
  }

  /** `REG_LINE.fullmatch`: the two groups. */
  function MatchLine(s: string): Option<(string, string)>
  {
    if s == "" || s[0] != '"' then None
    else
      var name := Quoted(s[1..]);
      if name.None? then None
      else
        var t := name.value.1;
        if |t| < 2 || t[0] != '=' || t[1] != '"' then None
        else
          var value := Quoted(t[2..]);
          if value.None? || value.value.1 != "" then None else Some((name.value.0, value.value.0))
  }

  /** `_reg_unescape`. */
  function Unescape(s: string): string
    decreases |s|
  {
    if |s| >= 2 && s[0] == '\\' && (s[1] == '\\' || s[1] == '"') then [s[1]] + Unescape(s[2..])
    else if s != "" then [s[0]] + Unescape(s[1..])
    else ""
  }

  datatype Complaint =
    | NotAscii | LineEnds | FirstLine | Sections | NoValues
    | Malformed(number: nat) | Duplicate(name: string) | UnknownKey(name: string)

  datatype Reader = Reader(values: map<string, string>, seen: set<string>, inSection: bool, report: seq<Complaint>)

  /** What one line does to the reader. */
  function Read(r: Reader, line: string, number: nat): Reader
  {
    if line == "" || line[0] == ';' then r
    else if line[0] == '[' then r.(inSection := true)
    else
      var m := MatchLine(line);
      var report := if m.Some? && r.inSection then r.report else r.report + [Malformed(number)];
      if m.None? then r.(report := report)
      else
        var name, value := Unescape(m.value.0), Unescape(m.value.1);
        Reader(r.values[name := value], r.seen + {Lower(name)}, r.inSection,
               if Lower(name) in r.seen then report + [Duplicate(name)] else report)
  }

  function ReadAll(r: Reader, lines: seq<string>, number: nat): Reader
    decreases |lines|
  {
    if lines == [] then r else ReadAll(Read(r, lines[0], number), lines[1..], number + 1)
  }

  predicate Ascii(s: string)
  {
    forall i :: 0 <= i < |s| ==> s[i] < '\U{0080}'
  }

  function SectionLines(lines: seq<string>): seq<string>
  {
    if lines == [] then []
    else (if lines[0] != "" && lines[0][0] == '[' then [lines[0]] else []) + SectionLines(lines[1..])
  }

  /** The checks made before the lines are read one by one. */
  function Opening(lines: seq<string>, registryKey: string): seq<Complaint>
    requires lines != []
  {
    (if exists l :: l in lines && !NoBreak(l) then [LineEnds] else [])
    + (if lines[0] != HEADER then [FirstLine] else [])
    + (if SectionLines(lines) != [Section(registryKey)] then [Sections] else [])
  }

  /** What `check_reg` returns and complains about, apart from names that the snapshot does not know. */
  function Checked(text: string, registryKey: string): (map<string, string>, seq<Complaint>)
  {
    if !Ascii(text) then (map[], [NotAscii])
    else
      var lines := SplitLines(text);
      var r := ReadAll(Reader(map[], {}, false, Opening(lines, registryKey)), lines[1..], 2);
      (r.values, if r.values == map[] then r.report + [NoValues] else r.report)
  }

  /** `check_reg`.  The names that the snapshot does not know are reported as a set. */
  method CheckReg(text: string, registryKey: string, keys: set<string>)
    returns (values: map<string, string>, report: seq<Complaint>, unknown: set<string>)
    ensures (values, report) == Checked(text, registryKey)
    ensures unknown == values.Keys - keys
  {
    if exists i :: 0 <= i < |text| && text[i] >= '\U{0080}' {
      return map[], [NotAscii], {};
    }
    var lines := SplitLines(text);
    report := Opening(lines, registryKey);
    ghost var start := report;
    values := map[];
    var seen: set<string> := {};
    var inSection := false;
    var n := 1;
    while n < |lines|
      invariant 1 <= n <= |lines|
      invariant ReadAll(Reader(map[], {}, false, start), lines[1..], 2)
                == ReadAll(Reader(values, seen, inSection, report), lines[n..], n + 1)
    {
      var line := lines[n];
      assert lines[n..][1..] == lines[n + 1..];
      n := n + 1;
      if line == "" || line[0] == ';' {
        continue;
      }
      if line[0] == '[' {
        inSection := true;
        continue;
      }
      var m := MatchLine(line);
      if m.None? || !inSection {
        report := report + [Malformed(n)];
      }
      if m.Some? {
        var name, value := Unescape(m.value.0), Unescape(m.value.1);
        if Lower(name) in seen {
          report := report + [Duplicate(name)];
        }
        seen := seen + {Lower(name)};
        values := values[name := value];
      }
    }
    assert lines[n..] == [];
    if values == map[] {
      report := report + [NoValues];
    }
    unknown := values.Keys - keys;
  }

  // --- Escapes --------------------------------------------------------------------

  function EscapeChar(c: char): string
  {
    if c == '\\' then "\\\\" else if c == '"' then "\\\"" else [c]
  }

  lemma {:induction false} ReplaceSplits(s: string, t: string, c: char, with: string)
    ensures Replace(s + t, c, with) == Replace(s, c, with) + Replace(t, c, with)
  {
    if s == "" {
      assert s + t == t;
    } else {
      assert (s + t)[0] == s[0] && (s + t)[1..] == s[1..] + t;
      ReplaceSplits(s[1..], t, c, with);
    }
  }

  /** The two replacements never touch each other's work. */
  lemma EscapeStep(s: string)
    requires s != ""
    ensures Escape(s) == EscapeChar(s[0]) + Escape(s[1..])
  {
    var first := if s[0] == '\\' then "\\\\" else [s[0]];
    assert Replace(s, '\\', "\\\\") == first + Replace(s[1..], '\\', "\\\\");
    ReplaceSplits(first, Replace(s[1..], '\\', "\\\\"), '"', "\\\"");
    ReplaceFirst(s[0]);
  }

  lemma ReplaceFirst(c: char)
    ensures Replace(if c == '\\' then "\\\\" else [c], '"', "\\\"") == EscapeChar(c)
  {
    assert "\\\\"[1..] == "\\" && "\\"[1..] == "";
    assert Replace("\\", '"', "\\\"") == "\\";
    assert [c][1..] == "";
  }

  lemma {:induction false} UnescapeEscape(s: string)
    ensures Unescape(Escape(s)) == s
  {
    if s == "" {
    } else {
      EscapeStep(s);
      UnescapeEscape(s[1..]);
      var e := Escape(s[1..]);
      assert (EscapeChar(s[0]) + e)[|EscapeChar(s[0])|..] == e;
      assert s == [s[0]] + s[1..];
    }
  }

  /** The closing quote of an escaped text is the one that was written. */
  lemma {:induction false} QuotedEscape(s: string, rest: string)
    ensures Quoted(Escape(s) + "\"" + rest) == Some((Escape(s), rest))
  {
    var x := Escape(s) + "\"" + rest;
    if s == "" {
      assert x[0] == '"' && x[1..] == rest;
    } else {
      EscapeStep(s);
      QuotedEscape(s[1..], rest);
      var c := EscapeChar(s[0]);
      var tail := Escape(s[1..]) + "\"" + rest;
      assert x == c + tail;
      assert x[|c|..] == tail && x[..|c|] == c;
    }
  }

  lemma MatchPairLine(p: (string, string))
    ensures MatchLine(PairLine(p)) == Some((Escape(p.0), Escape(p.1)))
  {
    hide Escape;
    var s := PairLine(p);
    var t := "=\"" + Escape(p.1) + "\"";
    assert s[1..] == Escape(p.0) + "\"" + t;
    QuotedEscape(p.0, t);
    assert t[2..] == Escape(p.1) + "\"" + "";
    QuotedEscape(p.1, "");
  }

  // --- Lines ----------------------------------------------------------------------

  lemma {:induction false} SplitFirst(line: string, rest: string)
    requires OneLine(line)
    ensures SplitLines(line + "\r\n" + rest) == [line] + SplitLines(rest)
    ensures SplitLines(line) == [line]
  {
    var t := line + "\r\n" + rest;
    if line == "" {
      assert t[2..] == rest;
    } else {
      assert t[0] == line[0] && t[1..] == line[1..] + "\r\n" + rest;
      SplitFirst(line[1..], rest);
      assert [line[0]] + line[1..] == line;
      assert ([line[1..]] + SplitLines(rest))[1..] == SplitLines(rest);
    }
  }

  lemma {:induction false} SplitJoin(lines: seq<string>)
    requires lines != [] && forall l :: l in lines ==> OneLine(l)
    ensures SplitLines(Join(lines)) == lines
  {
    assert lines[0] in lines;
    if |lines| == 1 {
      SplitFirst(lines[0], "");
    } else {
      SplitFirst(lines[0], Join(lines[1..]));
      SplitJoin(lines[1..]);
    }
  }

  lemma AsciiConcat(s: string, t: string)
    requires Ascii(s) && Ascii(t)
    ensures Ascii(s + t)
  {
  }

  lemma {:induction false} JoinAscii(lines: seq<string>)
    requires lines != [] && forall l :: l in lines ==> OneLine(l)
    ensures Ascii(Join(lines))
  {
    assert OneLine(lines[0]) && Ascii(lines[0]);
    if |lines| <= 1 {
    } else {
      JoinAscii(lines[1..]);
      AsciiConcat(lines[0], "\r\n");
      AsciiConcat(lines[0] + "\r\n", Join(lines[1..]));
    }
  }

  lemma {:induction false} JoinEnd(lines: seq<string>)
    requires lines != []
    ensures Join(lines) + "\r\n" == Join(lines + [""])
  {
    if |lines| > 1 {
      JoinEnd(lines[1..]);
      assert (lines + [""])[1..] == lines[1..] + [""];
    } else {
      assert (lines + [""])[1..] == [""];
    }
  }

  lemma {:induction false} ReplacePlain(s: string, c: char, with: string)
    requires Plain(s) && Plain(with)
    ensures Plain(Replace(s, c, with))
  {
    if s == "" {
    } else {
      ReplacePlain(s[1..], c, with);
    }
  }

  lemma PairLinePlain(p: (string, string))
    requires Plain(p.0) && Plain(p.1)
    ensures Plain(PairLine(p)) && PairLine(p) != "" && PairLine(p)[0] == '"'
  {
    forall s | Plain(s)
      ensures Plain(Escape(s))
    {
      ReplacePlain(s, '\\', "\\\\");
      ReplacePlain(Replace(s, '\\', "\\\\"), '"', "\\\"");
    }
  }

  lemma {:induction false} PairLinesPlain(ps: Pairs)
    requires forall p :: p in ps ==> Plain(p.0) && Plain(p.1)
    ensures forall l :: l in PairLines(ps) ==> Plain(l) && l != "" && l[0] == '"'
  {
    if ps == [] {
    } else {
      assert ps[0] in ps;
      PairLinePlain(ps[0]);
      PairLinesPlain(ps[1..]);
    }
  }

  // --- Round trip -----------------------------------------------------------------

  /** The pairs as a dictionary, later ones first asked. */
  function Dictionary(values: map<string, string>, ps: Pairs): map<string, string>
    decreases |ps|
  {
    if ps == [] then values else Dictionary(values[ps[0].0 := ps[0].1], ps[1..])
  }

  /** The names that come a second time, ignoring case. */
  function Repeats(seen: set<string>, ps: Pairs): seq<Complaint>
    decreases |ps|
  {
    if ps == [] then []
    else
      (if Lower(ps[0].0) in seen then [Duplicate(ps[0].0)] else []) + Repeats(seen + {Lower(ps[0].0)}, ps[1..])
  }

  predicate DistinctNames(ps: Pairs)
  {
    forall i, j :: 0 <= i < j < |ps| ==> Lower(ps[i].0) != Lower(ps[j].0)
  }

  lemma {:induction false} RepeatsExactly(seen: set<string>, ps: Pairs)
    ensures Repeats(seen, ps) == [] <==> DistinctNames(ps) && forall i :: 0 <= i < |ps| ==> Lower(ps[i].0) !in seen
    decreases |ps|
  {
    if ps == [] {
    } else {
      var first := Lower(ps[0].0);
      RepeatsExactly(seen + {first}, ps[1..]);
      assert forall i :: 1 <= i < |ps| ==> ps[i] == ps[1..][i - 1];
      if DistinctNames(ps[1..]) && first !in seen
        && forall i :: 0 <= i < |ps[1..]| ==> Lower(ps[1..][i].0) !in seen + {first}
      {
        forall i, j | 0 <= i < j < |ps|
          ensures Lower(ps[i].0) != Lower(ps[j].0)
        {
          assert ps[j] == ps[1..][j - 1];
        }
      }
    }
  }

  lemma ReadPair(r: Reader, p: (string, string), number: nat)
    requires r.inSection
    ensures Read(r, PairLine(p), number) ==
      Reader(r.values[p.0 := p.1], r.seen + {Lower(p.0)}, true,
             r.report + if Lower(p.0) in r.seen then [Duplicate(p.0)] else [])
  {
    hide MatchLine, Escape, Unescape, Lower;
    MatchPairLine(p);
    UnescapeEscape(p.0);
    UnescapeEscape(p.1);
  }

  lemma {:induction false} ReadPairs(r: Reader, ps: Pairs, number: nat)
    requires r.inSection && forall p :: p in ps ==> Plain(p.0) && Plain(p.1)
    ensures
      var s := ReadAll(r, PairLines(ps) + ["", ""], number);
      s.values == Dictionary(r.values, ps) && s.report == r.report + Repeats(r.seen, ps)
    decreases |ps|
  {
    hide PairLine, Lower, Read, Plain;
    var lines := PairLines(ps) + ["", ""];
    if ps == [] {
      assert lines == ["", ""];
      SkipLines(r, lines, [], number);
      assert lines + [] == lines;
    } else {
      assert ps[0] in ps;
      ReadPair(r, ps[0], number);
      assert lines[0] == PairLine(ps[0]) && lines[1..] == PairLines(ps[1..]) + ["", ""];
      ReadPairs(Read(r, lines[0], number), ps[1..], number + 1);
    }
  }

  lemma {:induction false} SectionsOfOthers(lines: seq<string>)
    requires forall l :: l in lines ==> l == "" || l[0] != '['
    ensures SectionLines(lines) == []
  {
    if lines == [] {
    } else {
      assert lines[0] in lines;
      SectionsOfOthers(lines[1..]);
    }
  }

  lemma {:induction false} SectionsSplit(one: seq<string>, two: seq<string>)
    ensures SectionLines(one + two) == SectionLines(one) + SectionLines(two)
  {
    if one == [] {
      assert one + two == two;
    } else {
      assert (one + two)[0] == one[0] && (one + two)[1..] == one[1..] + two;
      SectionsSplit(one[1..], two);
    }
  }

  lemma {:induction false} SkipLines(r: Reader, lines: seq<string>, rest: seq<string>, number: nat)
    requires forall l :: l in lines ==> l == "" || l[0] == ';'
    ensures ReadAll(r, lines + rest, number) == ReadAll(r, rest, number + |lines|)
    decreases |lines|
  {
    if lines == [] {
      assert lines + rest == rest;
    } else {
      assert lines[0] in lines && (lines + rest)[0] == lines[0] && (lines + rest)[1..] == lines[1..] + rest;
      SkipLines(r, lines[1..], rest, number + 1);
    }
  }

  lemma NotesAreNotes(gateway: string)
    requires Plain(gateway)
    ensures |Notes(gateway)| == 5
    ensures forall l :: l in Notes(gateway) ==> OneLine(l) && (l == "" || l[0] == ';')
  {
    hide Plain, NOTE, TYPES, OneLine, Sentence;
    NoteIsALine();
    TypesIsALine();
    GatewayLine(gateway);
    EmptyIsALine();
  }

  lemma EmptyIsALine()
    ensures OneLine("")
  {
  }

  lemma {:induction false} SentenceIsALine(words: seq<string>)
    requires forall w :: w in words ==> OneLine(w)
    ensures OneLine(Sentence(words))
  {
    if words == [] {
    } else {
      assert words[0] in words;
      SentenceIsALine(words[1..]);
    }
  }

  lemma NoteIsALine()
    ensures OneLine(Sentence(NOTE)) && Sentence(NOTE) != "" && Sentence(NOTE)[0] == ';'
  {
    assert OneLine(NOTE[0]) && OneLine(NOTE[1]) && OneLine(NOTE[2]);
    SentenceIsALine(NOTE);
  }

  lemma TypesIsALine()
    ensures OneLine(Sentence(TYPES)) && Sentence(TYPES) != "" && Sentence(TYPES)[0] == ';'
  {
    assert OneLine(TYPES[0]) && OneLine(TYPES[1]) && OneLine(TYPES[2]);
    SentenceIsALine(TYPES);
  }

  lemma GatewayLine(gateway: string)
    requires Plain(gateway)
    ensures OneLine("; Gateway: " + gateway)
  {
  }

  lemma HeaderIsALine()
    ensures OneLine(HEADER) && HEADER != "" && HEADER[0] != '['
  {
  }

  /** The lines that the reader gets back are the lines that were written. */
  lemma LinesComeBack(registryKey: string, gateway: string, ps: Pairs)
    requires Writable(gateway, ps) && OneLine(registryKey)
    ensures SplitLines(Render(registryKey, gateway, ps).value) == [HEADER] + Body(registryKey, gateway, ps) + [""]
    ensures forall l :: l in [HEADER] + Body(registryKey, gateway, ps) + [""] ==> OneLine(l)
    ensures Ascii(Render(registryKey, gateway, ps).value)
  {
    hide HEADER, Notes, PairLines, OneLine, Plain;
    var lines := [HEADER] + Body(registryKey, gateway, ps);
    HeaderIsALine();
    NotesAreNotes(gateway);
    SectionIsALine(registryKey);
    PairsAreLines(ps);
    JoinEnd(lines);
    JoinAscii(lines + [""]);
    SplitJoin(lines + [""]);
  }

  lemma SectionIsALine(registryKey: string)
    requires OneLine(registryKey)
    ensures OneLine(Section(registryKey)) && OneLine("")
  {
  }

  lemma PairsAreLines(ps: Pairs)
    requires forall p :: p in ps ==> Plain(p.0) && Plain(p.1)
    ensures forall l :: l in PairLines(ps) ==> OneLine(l) && l != "" && l[0] == '"'
  {
    PairLinesPlain(ps);
  }

  lemma NoBreaks(lines: seq<string>)
    requires forall l :: l in lines ==> OneLine(l)
    ensures forall l :: l in lines ==> NoBreak(l)
  {
  }

  lemma OneSection(registryKey: string, gateway: string, ps: Pairs)
    requires Writable(gateway, ps)
    ensures SectionLines([HEADER] + Body(registryKey, gateway, ps) + [""]) == [Section(registryKey)]
  {
    hide HEADER, Notes, PairLines, OneLine, Plain, SectionLines, Section;
    HeaderIsALine();
    NotesAreNotes(gateway);
    PairsAreLines(ps);
    var front := [HEADER] + Notes(gateway);
    var back := PairLines(ps) + ["", ""];
    SectionsOfOthers(front);
    SectionsOfOthers(back);
    SectionsSplit(front, [Section(registryKey)] + back);
    SectionsSplit([Section(registryKey)], back);
    SectionsOfOne(registryKey);
    assert [HEADER] + Body(registryKey, gateway, ps) + [""] == front + ([Section(registryKey)] + back);
  }

  lemma SectionsOfOne(registryKey: string)
    ensures SectionLines([Section(registryKey)]) == [Section(registryKey)]
  {
  }

  /** What was written passes every check that looks at the file as a whole. */
  lemma OpeningIsClean(registryKey: string, gateway: string, ps: Pairs)
    requires Writable(gateway, ps) && OneLine(registryKey)
    ensures Opening([HEADER] + Body(registryKey, gateway, ps) + [""], registryKey) == []
  {
    hide HEADER, Body, OneLine, NoBreak, Plain, Render, Section, SectionLines;
    LinesComeBack(registryKey, gateway, ps);
    NoBreaks([HEADER] + Body(registryKey, gateway, ps) + [""]);
    OneSection(registryKey, gateway, ps);
  }

  /** With distinct names the dictionary is the pairs themselves. */
  lemma {:induction false} DictionaryIsThePairs(values: map<string, string>, ps: Pairs, name: string)
    requires DistinctNames(ps)
    ensures name in Dictionary(values, ps) <==> name in values || exists i :: 0 <= i < |ps| && ps[i].0 == name
    ensures forall i :: 0 <= i < |ps| && ps[i].0 == name ==> Dictionary(values, ps)[name] == ps[i].1
    ensures name in values && (forall i :: 0 <= i < |ps| ==> ps[i].0 != name) ==>
      Dictionary(values, ps)[name] == values[name]
    decreases |ps|
  {
    if ps == [] {
    } else {
      assert forall i :: 1 <= i < |ps| ==> ps[i] == ps[1..][i - 1];
      DictionaryIsThePairs(values[ps[0].0 := ps[0].1], ps[1..], name);
      if ps[0].0 == name {
        assert forall i :: 0 <= i < |ps[1..]| ==> ps[1..][i] == ps[i + 1] && Lower(ps[i + 1].0) != Lower(name);
      }
    }
  }

  lemma {:induction false} DictionaryGrows(values: map<string, string>, ps: Pairs)
    ensures values.Keys <= Dictionary(values, ps).Keys
    ensures ps != [] ==> Dictionary(values, ps) != map[]
    decreases |ps|
  {
    if ps == [] {
    } else {
      var next := values[ps[0].0 := ps[0].1];
      DictionaryGrows(next, ps[1..]);
      assert ps[0].0 in next.Keys;
    }
  }

  /** Exactly the names of the pairs, each with its own value. */
  predicate HoldsPairs(values: map<string, string>, ps: Pairs)
  {
    && (forall i :: 0 <= i < |ps| ==> ps[i].0 in values && values[ps[i].0] == ps[i].1)
    && (forall name :: name in values ==> exists i :: 0 <= i < |ps| && ps[i].0 == name)
  }

  lemma DictionaryHoldsThePairs(ps: Pairs)
    requires DistinctNames(ps)
    ensures HoldsPairs(Dictionary(map[], ps), ps)
  {
    forall i | 0 <= i < |ps|
      ensures ps[i].0 in Dictionary(map[], ps) && Dictionary(map[], ps)[ps[i].0] == ps[i].1
    {
      DictionaryIsThePairs(map[], ps, ps[i].0);
    }
    forall name | name in Dictionary(map[], ps)
      ensures exists i :: 0 <= i < |ps| && ps[i].0 == name
    {
      DictionaryIsThePairs(map[], ps, name);
    }
  }

  /**
   Reading back what was written: a complaint exactly when two names differ at
   most in case, and no complaint of any other kind; without one, exactly the
   names and values that were written.
   */
  lemma RegRoundTrip(registryKey: string, gateway: string, ps: Pairs)
    requires Writable(gateway, ps) && OneLine(registryKey)
    ensures
      var (values, report) := Checked(Render(registryKey, gateway, ps).value, registryKey);
      && values == Dictionary(map[], ps) && report == Repeats({}, ps)
      && (report == [] <==> DistinctNames(ps))
      && (DistinctNames(ps) ==> HoldsPairs(values, ps))
  {
    hide Render, Opening, HEADER, Notes, PairLines, OneLine, Plain, DistinctNames, Ascii, HoldsPairs;
    LinesComeBack(registryKey, gateway, ps);
    OpeningIsClean(registryKey, gateway, ps);
    NotesAreNotes(gateway);
    var rest := [Section(registryKey)] + (PairLines(ps) + ["", ""]);
    var lines := [HEADER] + Body(registryKey, gateway, ps) + [""];
    assert lines[1..] == Notes(gateway) + rest;
    var start := Reader(map[], {}, false, []);
    SkipLines(start, Notes(gateway), rest, 2);
    assert rest[1..] == PairLines(ps) + ["", ""];
    assert Read(start, rest[0], 7) == start.(inSection := true);
    ReadPairs(start.(inSection := true), ps, 8);
    RepeatsExactly({}, ps);
    DictionaryGrows(map[], ps);
    if DistinctNames(ps) {
      DictionaryHoldsThePairs(ps);
    }
  }

  // --- Registry keys ----------------------------------------------------------------

  lemma {:induction false} ReadAllGrows(r: Reader, lines: seq<string>, number: nat)
    ensures r.report <= ReadAll(r, lines, number).report
    decreases |lines|
  {
    if lines == [] {
    } else {
      hide MatchLine, Unescape, Lower;
      ReadAllGrows(Read(r, lines[0], number), lines[1..], number + 1);
    }
  }

  lemma {:induction false} SplitAscii(t: string)
    requires Ascii(t)
    ensures forall l :: l in SplitLines(t) ==> Ascii(l)
  {
    if t == "" {
    } else if |t| >= 2 && t[0] == '\r' && t[1] == '\n' {
      SplitAscii(t[2..]);
    } else {
      SplitAscii(t[1..]);
      var r := SplitLines(t[1..]);
      assert r[0] in r;
    }
  }

  lemma {:induction false} SectionLinesIn(lines: seq<string>)
    ensures forall l :: l in SectionLines(lines) ==> l in lines
  {
    if lines == [] {
    } else {
      SectionLinesIn(lines[1..]);
    }
  }

  /** A file without complaint names its key in one ASCII line. */
  lemma CleanFileCleanKey(text: string, registryKey: string)
    requires Checked(text, registryKey).1 == []
    ensures OneLine(registryKey)
  {
    hide ReadAll, NoBreak, Ascii, SplitLines, HEADER, Section;
    var lines := SplitLines(text);
    ReadAllGrows(Reader(map[], {}, false, Opening(lines, registryKey)), lines[1..], 2);
    SplitAscii(text);
    SectionLinesIn(lines);
    var section := Section(registryKey);
    assert section in [section];
    assert NoBreak(section) && Ascii(section);
    KeyOfSection(registryKey);
  }

  lemma KeyOfSection(registryKey: string)
    requires NoBreak(Section(registryKey)) && Ascii(Section(registryKey))
    ensures OneLine(registryKey)
  {
    assert forall i :: 0 <= i < |registryKey| ==> Section(registryKey)[i + 1] == registryKey[i];
  }

  /**
   For every key, also one that the writer should not have been given: the
   reader finds nothing to complain of exactly when the key is one ASCII line
   and no two names differ at most in case.
   */
  lemma AcceptedExactly(registryKey: string, gateway: string, ps: Pairs)
    requires Writable(gateway, ps)
    ensures
      Checked(Render(registryKey, gateway, ps).value, registryKey).1 == []
      <==> OneLine(registryKey) && DistinctNames(ps)
  {
    hide Checked, OneLine, DistinctNames;
    if Checked(Render(registryKey, gateway, ps).value, registryKey).1 == [] {
      CleanFileCleanKey(Render(registryKey, gateway, ps).value, registryKey);
    }
    if OneLine(registryKey) {
      RegRoundTrip(registryKey, gateway, ps);
    }
  }
}
