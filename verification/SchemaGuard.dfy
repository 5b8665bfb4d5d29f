/**
 The two walks of the tool-schema guard over a parsed declaration tree, the
 duplicate-name pass before them, and the verdict of each operator mode.

 The matchers are parameters: every statement holds for any IBAN, email and
 digit-run matcher and any canonicalisation.
 */
module SchemaGuard {
  import opened Wrappers
  import opened JsonTree
  import SchemaTypes
  import NumberExpansion

  // -------------------------------------------------------------- matching

  datatype Class = Clean | IbanShape | EmailShape | DigitRun

  datatype Context = Identifier | Prose | Value

  datatype Matchers = Matchers(iban: string -> bool, email: string -> bool, digits: string -> bool,
                               fold: string -> string)

  /** A scan policy: the matchers, and whether the digit-run matcher counts. */
  datatype Guard = Guard(mt: Matchers, allowRun: bool)

  predicate HasAt(s: string)
  {
    exists k :: 0 <= k < |s| && s[k] == '@'
  }

  predicate IsAscii(s: string)
  {
    forall k :: 0 <= k < |s| ==> s[k] < 128 as char
  }

  function MatcherClass(mt: Matchers, s: string, ctx: Context): Class
  {
    if s == "" then Clean
    else if |s| >= 15 && mt.iban(s) then IbanShape
    else if HasAt(s) && mt.email(s) then EmailShape
    else if ctx == Prose then Clean
    else if |s| >= 10 && mt.digits(s) then DigitRun
    else Clean
  }

  function ClassifyOne(g: Guard, s: string, ctx: Context): Class
  {
    var c := MatcherClass(g.mt, s, ctx);
    if c == DigitRun && !g.allowRun then Clean else c
  }

  /** The canonical form, when it differs from the text. */
  function Canonical(mt: Matchers, s: string): Option<string>
  {
    if IsAscii(s) || mt.fold(s) == s then None else Some(mt.fold(s))
  }

  function ScanString(g: Guard, s: string, ctx: Context): Class
  {
    var c := ClassifyOne(g, s, ctx);
    if c != Clean then c
    else
      match Canonical(g.mt, s)
      case None => Clean
      case Some(t) => ClassifyOne(g, t, ctx)
  }

  datatype NumberScan = Overlong | Scanned(c: Class)

  /** A digit-run hit on the literal comes before the expansion, so the policy decides whether it happens. */
  function ScanNumber(g: Guard, lit: string): NumberScan
  {
    var c := ClassifyOne(g, lit, Value);
    if c != Clean then Scanned(c)
    else
      match NumberExpansion.Expand(lit)
      case TooLong => Overlong
      case Expanded(t) => if t != lit then Scanned(ClassifyOne(g, t, Value)) else Scanned(Clean)
      case NotANumber => Scanned(Clean)
  }

  // -------------------------------------------------------------- findings

  const MAX_DEPTH := 32
  const MAX_NODES := 200000

  /** A step of a pointer; `Print` stands for the fingerprint of a key that itself matched. */
  datatype Segment = Key(name: string) | Index(i: nat) | Print(of: string)

  datatype Kind = PiiShape | MalformedTools | BoundsExceeded

  datatype Detail = ObjectKey | StringValue | NumericValue | TooManyNodes | TooDeep | OverlongNumber
                  | DuplicateKey | NotAnArray

  datatype Finding = Finding(kind: Kind, matcher: Class, detail: Detail, path: seq<Segment>)

  /** What a walk has so far; `stopped` is the exception that ends it. */
  datatype Walked = Walked(nodes: nat, findings: seq<Finding>, piiKeys: set<string>, stopped: bool)

  const START := Walked(0, [], {}, false)

  function Stop(w: Walked, d: Detail, path: seq<Segment>): Walked
  {
    w.(findings := w.findings + [Finding(BoundsExceeded, Clean, d, path)], stopped := true)
  }

  function Note(w: Walked, c: Class, d: Detail, path: seq<Segment>): Walked
  {
    if c == Clean then w else w.(findings := w.findings + [Finding(PiiShape, c, d, path)])
  }

  function NoteKey(w: Walked, c: Class, key: string, path: seq<Segment>): Walked
  {
    if c == Clean then w
    else
      w.(findings := w.findings + [Finding(PiiShape, c, ObjectKey, path + [Print(key)])],
         piiKeys := w.piiKeys + {key})
  }

  // ---------------------------------------------------------------- the walk

  const PROSE_KEYS := {"description", "title", "summary", "$comment"}
  const VALUE_KEYS := {"default", "const", "enum", "example", "examples"}
  const NAME_KEYED_MAPS := {"properties", "patternProperties", "$defs", "definitions", "dependentSchemas",
                            "dependentRequired", "dependencies", "$vocabulary"}

  function CtxForKey(k: string, parent: Context): Context
  {
    if parent == Value then Value
    else if k in PROSE_KEYS then Prose
    else if k in VALUE_KEYS then Value
    else Identifier
  }

  /** Where a value stands: its depth, scan context, whether its keys are names and its numbers data. */
  datatype At = At(depth: nat, scan: Context, names: bool, numbers: bool, path: seq<Segment>)

  /** Where the member `k` of an object stands. */
  function Child(at: At, ms: seq<Member>, k: string): At
  {
    var path := at.path + [Key(k)];
    if at.names then At(at.depth + 1, at.scan, false, true, path)
    else
      var inSchema := at.scan != Value;
      var exempt := inSchema && SchemaTypes.IsStructural(k)
        && SchemaTypes.KeywordApplies(k, SchemaTypes.DeclaredTypes(ms, Some(SchemaTypes.MAX_DEPTH)));
      At(at.depth + 1, CtxForKey(k, at.scan), inSchema && k in NAME_KEYED_MAPS, !exempt, path)
  }

  function Element(at: At, i: nat): At
  {
    At(at.depth + 1, at.scan, false, at.numbers, at.path + [Index(i)])
  }

  function Walk(g: Guard, j: Json, at: At, w: Walked): Walked
    decreases Size(j), 0
  {
    if w.stopped then w
    else
      var w1 := w.(nodes := w.nodes + 1);
      if w1.nodes > MAX_NODES then Stop(w1, TooManyNodes, at.path)
      else if at.depth > MAX_DEPTH then Stop(w1, TooDeep, at.path)
      else
        match j
        case Obj(ms) =>
          EntriesSize(ms);
          WalkEntries(g, ms, Entries(ms), at, w1)
        case Arr(items) => WalkItems(g, items, 0, at, w1)
        case Str(s) => Note(w1, ScanString(g, s, at.scan), StringValue, at.path)
        case Num(lit) => WalkNumber(g, lit, at, w1)
        case _ => w1
  }

  function WalkNumber(g: Guard, lit: string, at: At, w: Walked): Walked
  {
    if !at.numbers then w
    else
      match ScanNumber(g, lit)
      case Overlong => Stop(w, OverlongNumber, at.path)
      case Scanned(c) => Note(w, c, NumericValue, at.path)
  }

  function WalkEntries(g: Guard, ms: seq<Member>, es: seq<Member>, at: At, w: Walked): Walked
    decreases SizeMembers(es), 1
  {
    if es == [] || w.stopped then w
    else
      var w1 := NoteKey(w, ScanString(g, es[0].key, Identifier), es[0].key, at.path);
      WalkEntries(g, ms, es[1..], at, Walk(g, es[0].value, Child(at, ms, es[0].key), w1))
  }

  function WalkItems(g: Guard, items: seq<Json>, i: nat, at: At, w: Walked): Walked
    decreases SizeItems(items), 1
  {
    if items == [] || w.stopped then w
    else WalkItems(g, items[1..], i + 1, at, Walk(g, items[0], Element(at, i), w))
  }

  // ------------------------------------------------- a walk only adds findings

  predicate Extends(w: Walked, w': Walked)
  {
    w.findings <= w'.findings && w.nodes <= w'.nodes && (w.stopped ==> w' == w)
    && (w'.stopped && !w.stopped ==> |w'.findings| > |w.findings|)
  }

  lemma {:induction false} WalkExtends(g: Guard, j: Json, at: At, w: Walked)
    ensures Extends(w, Walk(g, j, at, w))
    decreases Size(j), 0
  {
    hide ScanString, ScanNumber, Child;
    if w.stopped {
    } else {
      var w1 := w.(nodes := w.nodes + 1);
      match j
      case Obj(ms) =>
        EntriesSize(ms);
        EntriesExtend(g, ms, Entries(ms), at, w1);
      case Arr(items) => ItemsExtend(g, items, 0, at, w1);
      case _ =>
    }
  }

  lemma {:induction false} EntriesExtend(g: Guard, ms: seq<Member>, es: seq<Member>, at: At, w: Walked)
    ensures Extends(w, WalkEntries(g, ms, es, at, w))
    decreases SizeMembers(es), 1
  {
    hide ScanString, Child, Walk;
    if es == [] || w.stopped {
    } else {
      var w1 := NoteKey(w, ScanString(g, es[0].key, Identifier), es[0].key, at.path);
      WalkExtends(g, es[0].value, Child(at, ms, es[0].key), w1);
      var w2 := Walk(g, es[0].value, Child(at, ms, es[0].key), w1);
      EntriesExtend(g, ms, es[1..], at, w2);
    }
  }

  lemma {:induction false} ItemsExtend(g: Guard, items: seq<Json>, i: nat, at: At, w: Walked)
    ensures Extends(w, WalkItems(g, items, i, at, w))
    decreases SizeItems(items), 1
  {
    hide Walk;
    if items == [] || w.stopped {
    } else {
      WalkExtends(g, items[0], Element(at, i), w);
      ItemsExtend(g, items[1..], i + 1, at, Walk(g, items[0], Element(at, i), w));
    }
  }

  // ------------------------------------------------------------ two walks

  predicate HasRun(fs: seq<Finding>)
  {
    exists k :: 0 <= k < |fs| && fs[k].matcher == DigitRun
  }

  predicate Covers(p: seq<Finding>, path: seq<Segment>)
  {
    exists k :: 0 <= k < |p| && p[k].path == path
  }

  predicate AllCovered(p: seq<Finding>, s: seq<Finding>)
  {
    forall k :: 0 <= k < |s| ==> Covers(p, s[k].path)
  }

  /**
   The permissive and the strict walk at the same point of the tree.  They may
   part ways: the strict one can stop where the permissive one, having seen a
   digit run, goes on.
   */
  predicate Joint(p: Walked, s: Walked)
  {
    && AllCovered(p.findings, s.findings)
    && !HasRun(s.findings)
    && (!HasRun(p.findings) ==> p.findings == s.findings)
    && (p.stopped ==> s.stopped)
    && (!s.stopped ==> p.nodes == s.nodes)
    && (s.stopped && !p.stopped ==> HasRun(p.findings))
  }

  lemma RunStays(fs: seq<Finding>, gs: seq<Finding>)
    requires fs <= gs && HasRun(fs)
    ensures HasRun(gs)
  {
    var k :| 0 <= k < |fs| && fs[k].matcher == DigitRun;
    assert gs[k] == fs[k];
  }

  lemma CoveredStays(p: seq<Finding>, p': seq<Finding>, s: seq<Finding>)
    requires p <= p' && AllCovered(p, s)
    ensures AllCovered(p', s)
  {
    forall k | 0 <= k < |s| ensures Covers(p', s[k].path) {
      assert Covers(p, s[k].path);
      var i :| 0 <= i < |p| && p[i].path == s[k].path;
      assert p'[i] == p[i];
    }
  }

  /** Once the strict walk has stopped, whatever the permissive one adds is harmless. */
  lemma StoppedJoint(p: Walked, p': Walked, s: Walked)
    requires Joint(p, s) && s.stopped && Extends(p, p')
    ensures Joint(p', s)
  {
    CoveredStays(p.findings, p'.findings, s.findings);
    if HasRun(p.findings) {
      RunStays(p.findings, p'.findings);
    }
  }

  /** What the two policies may make of the same text. */
  predicate Pair(p: Class, s: Class)
  {
    s != DigitRun && (p != DigitRun ==> s == p)
  }

  lemma ScanStringPair(mt: Matchers, s: string, ctx: Context)
    ensures Pair(ScanString(Guard(mt, true), s, ctx), ScanString(Guard(mt, false), s, ctx))
  {
  }

  lemma AddBoth(p: Walked, s: Walked, pf: Finding, sf: Finding)
    requires Joint(p, s) && pf.path == sf.path && sf.matcher != DigitRun && (pf == sf || pf.matcher == DigitRun)
    ensures var p', s' := p.findings + [pf], s.findings + [sf];
            AllCovered(p', s') && !HasRun(s') && (!HasRun(p') ==> p' == s') && (HasRun(p.findings) ==> HasRun(p'))
    ensures pf.matcher == DigitRun ==> HasRun(p.findings + [pf])
  {
    var p', s' := p.findings + [pf], s.findings + [sf];
    CoveredStays(p.findings, p', s.findings);
    assert p'[|p.findings|] == pf;
    forall k | 0 <= k < |s'| ensures Covers(p', s'[k].path) {
      if k < |s.findings| {
        assert s'[k] == s.findings[k];
      }
    }
    if HasRun(p.findings) {
      RunStays(p.findings, p');
    }
    assert HasRun(s') ==> HasRun(s.findings);
  }

  lemma AddPermissive(p: Walked, s: Walked, pf: Finding)
    requires Joint(p, s) && pf.matcher == DigitRun
    ensures var p' := p.findings + [pf];
            AllCovered(p', s.findings) && HasRun(p')
  {
    CoveredStays(p.findings, p.findings + [pf], s.findings);
    assert (p.findings + [pf])[|p.findings|] == pf;
  }

  lemma NoteJoint(p: Walked, s: Walked, pc: Class, sc: Class, d: Detail, path: seq<Segment>)
    requires Joint(p, s) && Pair(pc, sc)
    ensures Joint(Note(p, pc, d, path), Note(s, sc, d, path))
  {
    var pf, sf := Finding(PiiShape, pc, d, path), Finding(PiiShape, sc, d, path);
    if sc != Clean {
      AddBoth(p, s, pf, sf);
    } else if pc != Clean {
      AddPermissive(p, s, pf);
    }
  }

  lemma NoteKeyJoint(p: Walked, s: Walked, pc: Class, sc: Class, key: string, path: seq<Segment>)
    requires Joint(p, s) && Pair(pc, sc)
    ensures Joint(NoteKey(p, pc, key, path), NoteKey(s, sc, key, path))
  {
    NoteJoint(p, s, pc, sc, ObjectKey, path + [Print(key)]);
  }

  lemma StopJoint(p: Walked, s: Walked, d: Detail, path: seq<Segment>)
    requires Joint(p, s) && !s.stopped
    ensures Joint(Stop(p, d, path), Stop(s, d, path))
  {
    var f := Finding(BoundsExceeded, Clean, d, path);
    AddBoth(p, s, f, f);
  }

  lemma StrictStops(p: Walked, s: Walked, pc: Class, d: Detail, d': Detail, path: seq<Segment>)
    requires Joint(p, s) && !s.stopped && pc == DigitRun
    ensures Joint(Note(p, pc, d, path), Stop(s, d', path))
  {
    AddBoth(p, s, Finding(PiiShape, pc, d, path), Finding(BoundsExceeded, Clean, d', path));
  }

  /** A number is where the walks part: the strict one may be the only one to see the expansion. */
  lemma NumberJoint(mt: Matchers, lit: string, at: At, p: Walked, s: Walked)
    requires Joint(p, s) && !s.stopped
    ensures Joint(WalkNumber(Guard(mt, true), lit, at, p), WalkNumber(Guard(mt, false), lit, at, s))
  {
    hide Joint, Note, Stop, MatcherClass;
    if at.numbers {
      var ps, ss := ScanNumber(Guard(mt, true), lit), ScanNumber(Guard(mt, false), lit);
      if ps.Overlong? {
        assert ss.Overlong?;
        StopJoint(p, s, OverlongNumber, at.path);
      } else if ss.Overlong? {
        StrictStops(p, s, ps.c, NumericValue, OverlongNumber, at.path);
      } else {
        NoteJoint(p, s, ps.c, ss.c, NumericValue, at.path);
      }
    }
  }

  lemma {:induction false} WalkJoint(mt: Matchers, j: Json, at: At, p: Walked, s: Walked)
    requires Joint(p, s)
    ensures Joint(Walk(Guard(mt, true), j, at, p), Walk(Guard(mt, false), j, at, s))
    decreases Size(j), 0
  {
    hide ScanString, WalkNumber, WalkEntries, WalkItems, Note, Stop, AllCovered, HasRun, Entries;
    if s.stopped {
      WalkExtends(Guard(mt, true), j, at, p);
      StoppedJoint(p, Walk(Guard(mt, true), j, at, p), s);
    } else {
      var p1, s1 := p.(nodes := p.nodes + 1), s.(nodes := s.nodes + 1);
      if p1.nodes > MAX_NODES {
        StopJoint(p1, s1, TooManyNodes, at.path);
      } else if at.depth > MAX_DEPTH {
        StopJoint(p1, s1, TooDeep, at.path);
      } else {
        match j
        case Obj(ms) =>
          EntriesSize(ms);
          EntriesJoint(mt, ms, Entries(ms), at, p1, s1);
        case Arr(items) => ItemsJoint(mt, items, 0, at, p1, s1);
        case Str(t) =>
          ScanStringPair(mt, t, at.scan);
          NoteJoint(p1, s1, ScanString(Guard(mt, true), t, at.scan), ScanString(Guard(mt, false), t, at.scan),
                    StringValue, at.path);
        case Num(lit) => NumberJoint(mt, lit, at, p1, s1);
        case _ =>
      }
    }
  }

  lemma {:induction false} EntriesJoint(mt: Matchers, ms: seq<Member>, es: seq<Member>, at: At, p: Walked, s: Walked)
    requires Joint(p, s)
    ensures Joint(WalkEntries(Guard(mt, true), ms, es, at, p), WalkEntries(Guard(mt, false), ms, es, at, s))
    decreases SizeMembers(es), 1
  {
    hide ScanString, Child, Walk, NoteKey, AllCovered, HasRun;
    if s.stopped {
      EntriesExtend(Guard(mt, true), ms, es, at, p);
      StoppedJoint(p, WalkEntries(Guard(mt, true), ms, es, at, p), s);
    } else if es != [] {
      var k, child := es[0].key, Child(at, ms, es[0].key);
      var pc, sc := ScanString(Guard(mt, true), k, Identifier), ScanString(Guard(mt, false), k, Identifier);
      ScanStringPair(mt, k, Identifier);
      NoteKeyJoint(p, s, pc, sc, k, at.path);
      var p1, s1 := NoteKey(p, pc, k, at.path), NoteKey(s, sc, k, at.path);
      WalkJoint(mt, es[0].value, child, p1, s1);
      EntriesJoint(mt, ms, es[1..], at, Walk(Guard(mt, true), es[0].value, child, p1),
                   Walk(Guard(mt, false), es[0].value, child, s1));
    }
  }

  lemma {:induction false} ItemsJoint(mt: Matchers, items: seq<Json>, i: nat, at: At, p: Walked, s: Walked)
    requires Joint(p, s)
    ensures Joint(WalkItems(Guard(mt, true), items, i, at, p), WalkItems(Guard(mt, false), items, i, at, s))
    decreases SizeItems(items), 1
  {
    hide Walk, AllCovered, HasRun, Element;
    if s.stopped {
      ItemsExtend(Guard(mt, true), items, i, at, p);
      StoppedJoint(p, WalkItems(Guard(mt, true), items, i, at, p), s);
    } else if items != [] {
      WalkJoint(mt, items[0], Element(at, i), p, s);
      ItemsJoint(mt, items[1..], i + 1, at, Walk(Guard(mt, true), items[0], Element(at, i), p),
                 Walk(Guard(mt, false), items[0], Element(at, i), s));
    }
  }

  // -------------------------------------------------------- repeated names

  /** Some object anywhere in the tree has two members of the same name. */
  predicate RepeatsKey(j: Json)
    decreases Size(j), 0
  {
    match j
    case Obj(ms) => !DistinctKeys(ms) || SomeRepeats(ms)
    case Arr(items) => SomeItemRepeats(items)
    case _ => false
  }

  predicate SomeRepeats(ms: seq<Member>)
    decreases SizeMembers(ms), 1
  {
    ms != [] && (RepeatsKey(ms[0].value) || SomeRepeats(ms[1..]))
  }

  predicate SomeItemRepeats(items: seq<Json>)
    decreases SizeItems(items), 1
  {
    items != [] && (RepeatsKey(items[0]) || SomeItemRepeats(items[1..]))
  }

  /** `detect_duplicate_keys`: the path of the first repeated name it meets. */
  function Duplicate(j: Json, path: seq<Segment>): Option<seq<Segment>>
    decreases Size(j), 0
  {
    match j
    case Obj(ms) => DuplicateMember(ms, {}, path)
    case Arr(items) => DuplicateItem(items, 0, path)
    case _ => None
  }

  function DuplicateMember(ms: seq<Member>, seen: set<string>, path: seq<Segment>): Option<seq<Segment>>
    decreases SizeMembers(ms), 1
  {
    if ms == [] then None
    else
      var child := path + [Key(ms[0].key)];
      if ms[0].key in seen then Some(child)
      else
        var d := Duplicate(ms[0].value, child);
        if d.Some? then d else DuplicateMember(ms[1..], seen + {ms[0].key}, path)
  }

  function DuplicateItem(items: seq<Json>, i: nat, path: seq<Segment>): Option<seq<Segment>>
    decreases SizeItems(items), 1
  {
    if items == [] then None
    else
      var d := Duplicate(items[0], path + [Index(i)]);
      if d.Some? then d else DuplicateItem(items[1..], i + 1, path)
  }

  /** The pass before the walks reports a repeated name exactly when there is one. */
  lemma {:induction false} DuplicateExact(j: Json, path: seq<Segment>)
    ensures Duplicate(j, path).Some? <==> RepeatsKey(j)
    decreases Size(j), 0
  {
    match j
    case Obj(ms) => DuplicateMemberExact(ms, {}, path);
    case Arr(items) => DuplicateItemExact(items, 0, path);
    case _ =>
  }

  lemma {:induction false} DuplicateMemberExact(ms: seq<Member>, seen: set<string>, path: seq<Segment>)
    ensures DuplicateMember(ms, seen, path).Some?
       <==> !DistinctKeys(ms) || SomeRepeats(ms) || exists k :: 0 <= k < |ms| && ms[k].key in seen
    decreases SizeMembers(ms), 1
  {
    if ms == [] {
    } else {
      DuplicateExact(ms[0].value, path + [Key(ms[0].key)]);
      DuplicateMemberExact(ms[1..], seen + {ms[0].key}, path);
      DistinctHead(ms, seen);
    }
  }

  lemma DistinctHead(ms: seq<Member>, seen: set<string>)
    requires ms != []
    ensures (!DistinctKeys(ms) || exists k :: 0 <= k < |ms| && ms[k].key in seen)
       <==> (ms[0].key in seen || !DistinctKeys(ms[1..])
             || exists k :: 0 <= k < |ms[1..]| && ms[1..][k].key in seen + {ms[0].key})
  {
    var rest := ms[1..];
    assert ms == [ms[0]] + rest;
    if exists k :: 0 <= k < |rest| && rest[k].key in seen + {ms[0].key} {
      var k :| 0 <= k < |rest| && rest[k].key in seen + {ms[0].key};
      assert ms[k + 1] == rest[k];
    }
    if !DistinctKeys(rest) {
      var a, b :| 0 <= a < b < |rest| && rest[a].key == rest[b].key;
      assert ms[a + 1] == rest[a] && ms[b + 1] == rest[b];
    }
    if !DistinctKeys(ms) {
      var a, b :| 0 <= a < b < |ms| && ms[a].key == ms[b].key;
      assert ms[b] == rest[b - 1];
      if a > 0 {
        assert ms[a] == rest[a - 1];
      }
    }
    if k :| 0 <= k < |ms| && ms[k].key in seen {
      if k > 0 {
        assert ms[k] == rest[k - 1];
      }
    }
  }

  lemma {:induction false} DuplicateItemExact(items: seq<Json>, i: nat, path: seq<Segment>)
    ensures DuplicateItem(items, i, path).Some? <==> SomeItemRepeats(items)
    decreases SizeItems(items), 1
  {
    if items == [] {
    } else {
      DuplicateExact(items[0], path + [Index(i)]);
      DuplicateItemExact(items[1..], i + 1, path);
    }
  }

  // ------------------------------------------------------ nothing is hidden

  lemma {:induction false} SubRepeats(ms: seq<Member>, k: nat)
    requires !SomeRepeats(ms) && k < |ms|
    ensures !RepeatsKey(ms[k].value)
  {
    if k == 0 {
    } else {
      SubRepeats(ms[1..], k - 1);
    }
  }

  /** A list of members taken from another one repeats no name inside its values either. */
  lemma {:induction false} SubsetRepeats(es: seq<Member>, ms: seq<Member>)
    requires !SomeRepeats(ms) && forall x :: x in es ==> x in ms
    ensures !SomeRepeats(es)
  {
    if es == [] {
    } else {
      assert es[0] in ms;
      var k :| 0 <= k < |ms| && ms[k] == es[0];
      SubRepeats(ms, k);
      SubsetRepeats(es[1..], ms);
    }
  }

  /** A walk that is not cut short visits every value of a tree without repeated names. */
  lemma {:induction false} WalkCounts(g: Guard, j: Json, at: At, w: Walked)
    requires !w.stopped && !Walk(g, j, at, w).stopped && !RepeatsKey(j)
    ensures Walk(g, j, at, w).nodes == w.nodes + Size(j)
    decreases Size(j), 0
  {
    hide ScanString, ScanNumber, Entries, WalkEntries, WalkItems;
    var w1 := w.(nodes := w.nodes + 1);
    match j
    case Obj(ms) =>
      EntriesSize(ms);
      SubsetRepeats(Entries(ms), ms);
      EntriesCount(g, ms, Entries(ms), at, w1);
    case Arr(items) => ItemsCount(g, items, 0, at, w1);
    case _ =>
  }

  lemma {:induction false} EntriesCount(g: Guard, ms: seq<Member>, es: seq<Member>, at: At, w: Walked)
    requires !w.stopped && !WalkEntries(g, ms, es, at, w).stopped && !SomeRepeats(es)
    ensures WalkEntries(g, ms, es, at, w).nodes == w.nodes + SizeMembers(es)
    decreases SizeMembers(es), 1
  {
    hide ScanString, Child, Walk;
    if es == [] {
    } else {
      var w1 := NoteKey(w, ScanString(g, es[0].key, Identifier), es[0].key, at.path);
      var w2 := Walk(g, es[0].value, Child(at, ms, es[0].key), w1);
      EntriesExtend(g, ms, es[1..], at, w2);
      WalkCounts(g, es[0].value, Child(at, ms, es[0].key), w1);
      EntriesCount(g, ms, es[1..], at, w2);
    }
  }

  lemma {:induction false} ItemsCount(g: Guard, items: seq<Json>, i: nat, at: At, w: Walked)
    requires !w.stopped && !WalkItems(g, items, i, at, w).stopped && !SomeItemRepeats(items)
    ensures WalkItems(g, items, i, at, w).nodes == w.nodes + SizeItems(items)
    decreases SizeItems(items), 1
  {
    hide Walk;
    if items == [] {
    } else {
      var w1 := Walk(g, items[0], Element(at, i), w);
      ItemsExtend(g, items[1..], i + 1, at, w1);
      WalkCounts(g, items[0], Element(at, i), w);
      ItemsCount(g, items[1..], i + 1, at, w1);
    }
  }

  /** A text has the shape of an IBAN or an email address. */
  predicate ShapeIn(mt: Matchers, s: string)
  {
    (|s| >= 15 && mt.iban(s)) || ('@' in s && mt.email(s))
  }

  /** The same as written or folded; folding leaves ASCII alone. */
  predicate Sensitive(mt: Matchers, s: string)
  {
    ShapeIn(mt, s) || (!IsAscii(s) && ShapeIn(mt, mt.fold(s)))
  }

  lemma SensitiveIsHit(g: Guard, s: string, ctx: Context)
    requires Sensitive(g.mt, s)
    ensures ScanString(g, s, ctx) != Clean
  {
  }

  /** No string and no name anywhere in the tree, repeated or not, has such a shape. */
  ghost predicate Spotless(mt: Matchers, j: Json)
  {
    match j
    case Str(s) => !Sensitive(mt, s)
    case Obj(ms) => forall m :: m in ms ==> !Sensitive(mt, m.key) && Spotless(mt, m.value)
    case Arr(items) => forall i :: 0 <= i < |items| ==> Spotless(mt, items[i])
    case _ => true
  }

  /**
   No scan hits anything in the tree: every name as an identifier, every string
   in the context where it stands, and every number that is not exempt there,
   as written and expanded.
   */
  ghost predicate Quiet(g: Guard, j: Json, at: At)
    decreases j
  {
    match j
    case Str(s) => ScanString(g, s, at.scan) == Clean
    case Num(lit) => at.numbers ==> ScanNumber(g, lit) == Scanned(Clean)
    case Obj(ms) =>
      forall m :: m in ms ==> ScanString(g, m.key, Identifier) == Clean && Quiet(g, m.value, Child(at, ms, m.key))
    case Arr(items) => forall i :: 0 <= i < |items| ==> Quiet(g, items[i], Element(at, i))
    case _ => true
  }

  /** Nothing in the tree is nested too deeply. */
  ghost predicate Shallow(j: Json, depth: nat)
    decreases j
  {
    && depth <= MAX_DEPTH
    && match j
       case Obj(ms) => forall m :: m in ms ==> Shallow(m.value, depth + 1)
       case Arr(items) => forall i :: 0 <= i < |items| ==> Shallow(items[i], depth + 1)
       case _ => true
  }

  /** `f` reports something that a scan hits somewhere in the tree, at the place where it stands. */
  ghost predicate Hit(g: Guard, j: Json, at: At, f: Finding)
    decreases j
  {
    match j
    case Str(s) =>
      ScanString(g, s, at.scan) != Clean && f == Finding(PiiShape, ScanString(g, s, at.scan), StringValue, at.path)
    case Num(lit) =>
      && at.numbers && ScanNumber(g, lit).Scanned? && ScanNumber(g, lit).c != Clean
      && f == Finding(PiiShape, ScanNumber(g, lit).c, NumericValue, at.path)
    case Obj(ms) => exists m :: m in ms && (KeyHit(g, m.key, at, f) || Hit(g, m.value, Child(at, ms, m.key), f))
    case Arr(items) => exists i :: 0 <= i < |items| && Hit(g, items[i], Element(at, i), f)
    case _ => false
  }

  predicate KeyHit(g: Guard, key: string, at: At, f: Finding)
  {
    var c := ScanString(g, key, Identifier);
    c != Clean && f == Finding(PiiShape, c, ObjectKey, at.path + [Print(key)])
  }

  /** Quiet trees are clean wherever the texts stand. */
  lemma {:induction false} QuietIsSpotless(g: Guard, j: Json, at: At)
    requires Quiet(g, j, at)
    ensures Spotless(g.mt, j)
    decreases j
  {
    hide ScanString, ScanNumber, Sensitive, Child;
    match j
    case Str(s) =>
      if Sensitive(g.mt, s) {
        SensitiveIsHit(g, s, at.scan);
      }
    case Obj(ms) =>
      forall m | m in ms
        ensures !Sensitive(g.mt, m.key) && Spotless(g.mt, m.value)
      {
        if Sensitive(g.mt, m.key) {
          SensitiveIsHit(g, m.key, Identifier);
        }
        QuietIsSpotless(g, m.value, Child(at, ms, m.key));
      }
    case Arr(items) =>
      forall i | 0 <= i < |items|
        ensures Spotless(g.mt, items[i])
      {
        QuietIsSpotless(g, items[i], Element(at, i));
      }
    case _ =>
  }

  /** A walk that adds no finding has seen a quiet tree, and all of it. */
  lemma {:induction false} SilentWalk(g: Guard, j: Json, at: At, w: Walked)
    requires !w.stopped && !RepeatsKey(j) && Walk(g, j, at, w).findings == w.findings
    ensures Quiet(g, j, at) && Shallow(j, at.depth) && !Walk(g, j, at, w).stopped
    decreases Size(j), 0
  {
    hide ScanString, ScanNumber, Entries, WalkEntries, WalkItems, Child;
    WalkExtends(g, j, at, w);
    var w1 := w.(nodes := w.nodes + 1);
    match j
    case Obj(ms) =>
      EntriesSize(ms);
      SubsetRepeats(Entries(ms), ms);
      ChildDepth(at, ms);
      SilentEntries(g, ms, Entries(ms), at, w1);
    case Arr(items) =>
      SilentItems(g, items, 0, at, w1);
    case _ =>
  }

  lemma ChildDepth(at: At, ms: seq<Member>)
    ensures forall k :: Child(at, ms, k).depth == at.depth + 1
  {
  }

  lemma {:induction false} SilentEntries(g: Guard, ms: seq<Member>, es: seq<Member>, at: At, w: Walked)
    requires !w.stopped && !SomeRepeats(es) && WalkEntries(g, ms, es, at, w).findings == w.findings
    ensures forall m :: m in es ==>
      && ScanString(g, m.key, Identifier) == Clean && Quiet(g, m.value, Child(at, ms, m.key))
      && Shallow(m.value, at.depth + 1)
    decreases SizeMembers(es), 1
  {
    hide ScanString, Child, Walk, Quiet, Shallow;
    if es == [] {
    } else {
      var child := Child(at, ms, es[0].key);
      var w1 := NoteKey(w, ScanString(g, es[0].key, Identifier), es[0].key, at.path);
      var w2 := Walk(g, es[0].value, child, w1);
      WalkExtends(g, es[0].value, child, w1);
      EntriesExtend(g, ms, es[1..], at, w2);
      assert w1.findings == w2.findings == w.findings;
      ChildDepth(at, ms);
      SilentWalk(g, es[0].value, child, w1);
      SilentEntries(g, ms, es[1..], at, w2);
    }
  }

  lemma {:induction false} SilentItems(g: Guard, items: seq<Json>, i: nat, at: At, w: Walked)
    requires !w.stopped && !SomeItemRepeats(items) && WalkItems(g, items, i, at, w).findings == w.findings
    ensures forall k :: 0 <= k < |items| ==> Quiet(g, items[k], Element(at, i + k)) && Shallow(items[k], at.depth + 1)
    decreases SizeItems(items), 1
  {
    hide Walk, Quiet, Shallow;
    if items == [] {
    } else {
      var w1 := Walk(g, items[0], Element(at, i), w);
      WalkExtends(g, items[0], Element(at, i), w);
      ItemsExtend(g, items[1..], i + 1, at, w1);
      assert w1.findings == w.findings;
      SilentWalk(g, items[0], Element(at, i), w);
      SilentItems(g, items[1..], i + 1, at, w1);
      forall k | 0 <= k < |items|
        ensures Quiet(g, items[k], Element(at, i + k)) && Shallow(items[k], at.depth + 1)
      {
        assert k > 0 ==> items[k] == items[1..][k - 1] && i + k == i + 1 + (k - 1);
      }
    }
  }

  /** The other way round: a quiet tree within the budgets adds no finding, and no walk is cut short on it. */
  lemma {:induction false} QuietWalk(g: Guard, j: Json, at: At, w: Walked)
    requires !w.stopped && Quiet(g, j, at) && Shallow(j, at.depth) && w.nodes + Size(j) <= MAX_NODES
    ensures Walk(g, j, at, w).findings == w.findings && !Walk(g, j, at, w).stopped
    ensures Walk(g, j, at, w).nodes <= w.nodes + Size(j)
    decreases Size(j), 0
  {
    hide ScanString, ScanNumber, Entries, WalkEntries, WalkItems, Child;
    var w1 := w.(nodes := w.nodes + 1);
    match j
    case Obj(ms) =>
      EntriesSize(ms);
      ChildDepth(at, ms);
      QuietEntries(g, ms, Entries(ms), at, w1);
    case Arr(items) => QuietItems(g, items, 0, at, w1);
    case _ =>
  }

  lemma {:induction false} QuietEntries(g: Guard, ms: seq<Member>, es: seq<Member>, at: At, w: Walked)
    requires !w.stopped && w.nodes + SizeMembers(es) <= MAX_NODES
    requires forall m :: m in es ==>
      && ScanString(g, m.key, Identifier) == Clean && Quiet(g, m.value, Child(at, ms, m.key))
      && Shallow(m.value, at.depth + 1)
    ensures var r := WalkEntries(g, ms, es, at, w);
            r.findings == w.findings && !r.stopped && r.nodes <= w.nodes + SizeMembers(es)
    decreases SizeMembers(es), 1
  {
    hide ScanString, Child, Walk, Quiet, Shallow;
    if es == [] {
    } else {
      assert es[0] in es;
      ChildDepth(at, ms);
      QuietWalk(g, es[0].value, Child(at, ms, es[0].key), w);
      QuietEntries(g, ms, es[1..], at, Walk(g, es[0].value, Child(at, ms, es[0].key), w));
    }
  }

  lemma {:induction false} QuietItems(g: Guard, items: seq<Json>, i: nat, at: At, w: Walked)
    requires !w.stopped && w.nodes + SizeItems(items) <= MAX_NODES
    requires forall k :: 0 <= k < |items| ==> Quiet(g, items[k], Element(at, i + k)) && Shallow(items[k], at.depth + 1)
    ensures var r := WalkItems(g, items, i, at, w);
            r.findings == w.findings && !r.stopped && r.nodes <= w.nodes + SizeItems(items)
    decreases SizeItems(items), 1
  {
    hide Walk, Quiet, Shallow;
    if items == [] {
    } else {
      assert Quiet(g, items[0], Element(at, i + 0)) && Shallow(items[0], at.depth + 1);
      QuietWalk(g, items[0], Element(at, i), w);
      forall k | 0 <= k < |items[1..]|
        ensures Quiet(g, items[1..][k], Element(at, i + 1 + k)) && Shallow(items[1..][k], at.depth + 1)
      {
        assert items[1..][k] == items[k + 1] && i + 1 + k == i + (k + 1);
      }
      QuietItems(g, items[1..], i + 1, at, Walk(g, items[0], Element(at, i), w));
    }
  }

  /**
   A walk that is not cut short reports exactly the hits: what a scan hits
   anywhere in the tree has its finding, and every new finding is such a hit.
   */
  lemma {:induction false} WalkFindsExactly(g: Guard, j: Json, at: At, w: Walked, f: Finding)
    requires !w.stopped && !Walk(g, j, at, w).stopped && !RepeatsKey(j)
    ensures f in Walk(g, j, at, w).findings <==> f in w.findings || Hit(g, j, at, f)
    decreases Size(j), 0
  {
    hide ScanString, ScanNumber, Entries, WalkEntries, WalkItems, Child;
    var w1 := w.(nodes := w.nodes + 1);
    match j
    case Obj(ms) =>
      EntriesSize(ms);
      SubsetRepeats(Entries(ms), ms);
      EntriesFindExactly(g, ms, Entries(ms), at, w1, f);
    case Arr(items) =>
      ItemsFindExactly(g, items, 0, at, w1, f);
      assert forall k :: 0 <= k < |items| ==> Element(at, 0 + k) == Element(at, k);
    case _ =>
  }

  ghost predicate HitAmong(g: Guard, ms: seq<Member>, es: seq<Member>, at: At, f: Finding)
  {
    exists m :: m in es && (KeyHit(g, m.key, at, f) || Hit(g, m.value, Child(at, ms, m.key), f))
  }

  lemma HitAmongSplit(g: Guard, ms: seq<Member>, es: seq<Member>, at: At, f: Finding)
    requires es != []
    ensures HitAmong(g, ms, es, at, f)
       <==> KeyHit(g, es[0].key, at, f) || Hit(g, es[0].value, Child(at, ms, es[0].key), f)
            || HitAmong(g, ms, es[1..], at, f)
  {
    hide KeyHit, Hit, Child;
    assert es == [es[0]] + es[1..];
  }

  lemma {:induction false} EntriesFindExactly(g: Guard, ms: seq<Member>, es: seq<Member>, at: At, w: Walked, f: Finding)
    requires !w.stopped && !WalkEntries(g, ms, es, at, w).stopped && !SomeRepeats(es)
    ensures f in WalkEntries(g, ms, es, at, w).findings <==> f in w.findings || HitAmong(g, ms, es, at, f)
    decreases SizeMembers(es), 1
  {
    hide ScanString, Child, Walk, Hit, HitAmong;
    if es == [] {
      NoHitAmong(g, ms, at, f);
    } else {
      var child := Child(at, ms, es[0].key);
      var w1 := NoteKey(w, ScanString(g, es[0].key, Identifier), es[0].key, at.path);
      var w2 := Walk(g, es[0].value, child, w1);
      EntriesExtend(g, ms, es[1..], at, w2);
      WalkFindsExactly(g, es[0].value, child, w1, f);
      EntriesFindExactly(g, ms, es[1..], at, w2, f);
      HitAmongSplit(g, ms, es, at, f);
    }
  }

  lemma NoHitAmong(g: Guard, ms: seq<Member>, at: At, f: Finding)
    ensures !HitAmong(g, ms, [], at, f)
  {
  }

  lemma {:induction false} ItemsFindExactly(g: Guard, items: seq<Json>, i: nat, at: At, w: Walked, f: Finding)
    requires !w.stopped && !WalkItems(g, items, i, at, w).stopped && !SomeItemRepeats(items)
    ensures f in WalkItems(g, items, i, at, w).findings
       <==> f in w.findings || exists k :: 0 <= k < |items| && Hit(g, items[k], Element(at, i + k), f)
    decreases SizeItems(items), 1
  {
    hide Walk, Hit;
    if items == [] {
    } else {
      var w1 := Walk(g, items[0], Element(at, i), w);
      ItemsExtend(g, items[1..], i + 1, at, w1);
      WalkFindsExactly(g, items[0], Element(at, i), w, f);
      ItemsFindExactly(g, items[1..], i + 1, at, w1, f);
      HitItemsSplit(g, items, i, at, f);
    }
  }

  lemma HitItemsSplit(g: Guard, items: seq<Json>, i: nat, at: At, f: Finding)
    requires items != []
    ensures (exists k :: 0 <= k < |items| && Hit(g, items[k], Element(at, i + k), f))
       <==> Hit(g, items[0], Element(at, i), f)
            || exists k :: 0 <= k < |items[1..]| && Hit(g, items[1..][k], Element(at, i + 1 + k), f)
  {
    hide Hit, Element;
    var rest := items[1..];
    if k :| 0 <= k < |items| && Hit(g, items[k], Element(at, i + k), f) {
      if k > 0 {
        assert Hit(g, rest[k - 1], Element(at, i + 1 + (k - 1)), f);
      }
    }
    if Hit(g, items[0], Element(at, i), f) {
      assert Hit(g, items[0], Element(at, i + 0), f);
    }
    if k :| 0 <= k < |rest| && Hit(g, rest[k], Element(at, i + 1 + k), f) {
      assert items[k + 1] == rest[k] && i + 1 + k == i + (k + 1);
      assert Hit(g, items[k + 1], Element(at, i + (k + 1)), f);
    }
  }

  // -------------------------------------------------------------- verdicts

  datatype Mode = Log | Refuse | RefuseHighConfidence

  /** The findings under both policies, and the names that pointers show as fingerprints. */
  datatype Report = Report(permissive: seq<Finding>, strict: seq<Finding>, redactions: set<string>)

  const ROOT := At(0, Identifier, false, true, [])

  /** The pre-pass fingerprints the repeated name, if that is what matched; it scans no other. */
  function RepeatedKeys(mt: Matchers, path: seq<Segment>): set<string>
  {
    if path != [] && path[|path| - 1].Key? && MatchesItself(mt, path[|path| - 1].name)
    then {path[|path| - 1].name}
    else {}
  }

  /** A name that matches by itself. */
  predicate MatchesItself(mt: Matchers, name: string)
  {
    ScanString(Guard(mt, true), name, Identifier) != Clean
  }

  /** Everything the guard finds in a `tools` value, under both policies. */
  function Inspect(mt: Matchers, tools: Json): Report
  {
    if !tools.Arr? then
      var f := Finding(MalformedTools, Clean, NotAnArray, []);
      Report([f], [f], {})
    else
      match Duplicate(tools, [])
      case Some(path) =>
        var f := Finding(MalformedTools, Clean, DuplicateKey, path);
        Report([f], [f], RepeatedKeys(mt, path))
      case None =>
        var p := Walk(Guard(mt, true), tools, ROOT, START);
        var s := Walk(Guard(mt, false), tools, ROOT, START);
        Report(p.findings, s.findings, p.piiKeys + s.piiKeys)
  }

  predicate Refuses(mode: Mode, r: Report)
  {
    match mode
    case Log => false
    case Refuse => r.permissive != []
    case RefuseHighConfidence => r.strict != []
  }

  /**
   How the two walks are related on every tree: each strict finding lies where
   some permissive one does, none is a digit run, and without a digit run among
   the permissive findings the two lists are the same.
   */
  lemma TwoWalks(mt: Matchers, tools: Json)
    ensures var r := Inspect(mt, tools);
            && AllCovered(r.permissive, r.strict) && !HasRun(r.strict)
            && (!HasRun(r.permissive) ==> r.permissive == r.strict)
  {
    hide Walk;
    if tools.Arr? && Duplicate(tools, []).None? {
      WalkJoint(mt, tools, ROOT, START, START);
    } else {
      var r := Inspect(mt, tools);
      assert r.permissive == r.strict && |r.strict| == 1;
      assert forall k :: 0 <= k < |r.strict| ==> r.permissive[k].path == r.strict[k].path;
    }
  }

  lemma HighConfidenceImpliesRefuse(mt: Matchers, tools: Json)
    ensures Refuses(RefuseHighConfidence, Inspect(mt, tools)) ==> Refuses(Refuse, Inspect(mt, tools))
  {
    hide Inspect;
    TwoWalks(mt, tools);
    var r := Inspect(mt, tools);
    if r.strict != [] {
      assert Covers(r.permissive, r.strict[0].path);
    }
  }

  function WithoutRuns(fs: seq<Finding>): (r: seq<Finding>)
    ensures !HasRun(r)
  {
    if fs == [] then []
    else
      var front := WithoutRuns(fs[..|fs| - 1]);
      if fs[|fs| - 1].matcher == DigitRun then front else front + [fs[|fs| - 1]]
  }

  lemma NumberParts(mt: Matchers, lit: string)
    requires |lit| >= 10 && mt.digits(lit) && NumberExpansion.Expand(lit).TooLong? && !ShapeIn(mt, lit)
    ensures ScanNumber(Guard(mt, true), lit) == Scanned(DigitRun)
    ensures ScanNumber(Guard(mt, false), lit) == Overlong
  {
    hide NumberExpansion.Expand;
  }

  lemma SingleItem(g: Guard, x: Json, at: At, w: Walked)
    requires !w.stopped && w.nodes < MAX_NODES && at.depth <= MAX_DEPTH
    ensures Walk(g, Arr([x]), at, w) == Walk(g, x, Element(at, 0), w.(nodes := w.nodes + 1))
  {
    hide ScanString, ScanNumber, Entries, Element;
    var w1 := w.(nodes := w.nodes + 1);
    var w2 := Walk(g, x, Element(at, 0), w1);
    assert [x][1..] == [];
    assert WalkItems(g, [], 1, at, w2) == w2;
    assert WalkItems(g, [x], 0, at, w1) == w2;
  }

  lemma SingleNumber(g: Guard, lit: string)
    ensures Walk(g, Arr([Num(lit)]), ROOT, START)
         == WalkNumber(g, lit, Element(ROOT, 0), START.(nodes := 2))
  {
    hide WalkNumber;
    SingleItem(g, Num(lit), ROOT, START);
  }

  /**
   The strict list is not the permissive list without its digit runs: a literal
   that hits the digit-run matcher and expands beyond bounds is dropped by the
   filter and refused by the walk.
   */
  lemma FilteringIsNotEnough(mt: Matchers, lit: string)
    requires |lit| >= 10 && mt.digits(lit) && NumberExpansion.Expand(lit).TooLong? && !ShapeIn(mt, lit)
    ensures var r := Inspect(mt, Arr([Num(lit)]));
            WithoutRuns(r.permissive) == [] && Refuses(RefuseHighConfidence, r)
  {
    hide NumberExpansion.Expand, ScanNumber, Walk, ShapeIn, Duplicate;
    NumberParts(mt, lit);
    SingleNumber(Guard(mt, true), lit);
    SingleNumber(Guard(mt, false), lit);
    NoDuplicate(Num(lit));
    var run := Finding(PiiShape, DigitRun, NumericValue, Element(ROOT, 0).path);
    assert Inspect(mt, Arr([Num(lit)])).permissive == [] + [run] == [run];
    assert [run][..0] == [];
  }

  lemma NoDuplicate(x: Json)
    requires x.Num?
    ensures Duplicate(Arr([x]), []).None?
  {
    DuplicateExact(Arr([x]), []);
    assert [x][1..] == [];
    assert !SomeItemRepeats([x][1..]);
    assert !SomeItemRepeats([x]);
  }

  /** Such a literal: eleven digits and an exponent of 20000. */
  lemma SuchALiteral()
    ensures NumberExpansion.Expand("12345678901e20000").TooLong?
  {
    hide NumberExpansion.Expand;
    var l := NumberExpansion.Literal(false, "12345678901", "", "e", "", "20000");
    assert NumberExpansion.Print(l) == "12345678901e20000";
    NumberExpansion.BigExponentTooLong(l);
  }

  /** The scan policy behind the verdict of a refusing mode. */
  function PolicyOf(mt: Matchers, mode: Mode): Guard
  {
    Guard(mt, mode == Refuse)
  }

  /**
   What a refusing mode lets through: exactly the arrays without repeated names,
   within the node and depth budgets, in which its own scans hit nothing.
   */
  lemma ForwardedExactly(mt: Matchers, tools: Json, mode: Mode)
    requires mode != Log
    ensures !Refuses(mode, Inspect(mt, tools))
       <==> && tools.Arr? && !RepeatsKey(tools) && Size(tools) <= MAX_NODES && Shallow(tools, 0)
            && Quiet(PolicyOf(mt, mode), tools, ROOT)
  {
    hide Walk, Quiet, Shallow, RepeatsKey, Duplicate;
    DuplicateExact(tools, []);
    var g := PolicyOf(mt, mode);
    if !Refuses(mode, Inspect(mt, tools)) {
      SilentWalk(g, tools, ROOT, START);
      WalkCounts(g, tools, ROOT, START);
      NodesBounded(g, tools, ROOT, START);
    }
    if tools.Arr? && !RepeatsKey(tools) && Size(tools) <= MAX_NODES && Shallow(tools, 0) && Quiet(g, tools, ROOT) {
      QuietWalk(g, tools, ROOT, START);
    }
  }

  /** In particular it holds no text with the shape of an IBAN or an email address, whatever the mode. */
  lemma ForwardedIsClean(mt: Matchers, tools: Json, mode: Mode)
    requires mode != Log && !Refuses(mode, Inspect(mt, tools))
    ensures tools.Arr? && !RepeatsKey(tools) && Spotless(mt, tools) && Size(tools) <= MAX_NODES
    ensures Quiet(PolicyOf(mt, mode), tools, ROOT) && Shallow(tools, 0)
  {
    hide Inspect, Spotless, Quiet, Shallow, RepeatsKey;
    ForwardedExactly(mt, tools, mode);
    QuietIsSpotless(PolicyOf(mt, mode), tools, ROOT);
  }

  /** A walk that is not cut short has stayed within its node budget. */
  lemma {:induction false} NodesBounded(g: Guard, j: Json, at: At, w: Walked)
    requires !w.stopped && !Walk(g, j, at, w).stopped
    ensures Walk(g, j, at, w).nodes <= MAX_NODES
    decreases Size(j), 0
  {
    hide ScanString, ScanNumber, Entries, WalkEntries, WalkItems;
    var w1 := w.(nodes := w.nodes + 1);
    match j
    case Obj(ms) =>
      EntriesSize(ms);
      EntriesBounded(g, ms, Entries(ms), at, w1);
    case Arr(items) => ItemsBounded(g, items, 0, at, w1);
    case _ =>
  }

  lemma {:induction false} EntriesBounded(g: Guard, ms: seq<Member>, es: seq<Member>, at: At, w: Walked)
    requires !w.stopped && !WalkEntries(g, ms, es, at, w).stopped && w.nodes <= MAX_NODES
    ensures WalkEntries(g, ms, es, at, w).nodes <= MAX_NODES
    decreases SizeMembers(es), 1
  {
    hide ScanString, Child, Walk;
    if es == [] {
    } else {
      var w1 := NoteKey(w, ScanString(g, es[0].key, Identifier), es[0].key, at.path);
      var w2 := Walk(g, es[0].value, Child(at, ms, es[0].key), w1);
      EntriesExtend(g, ms, es[1..], at, w2);
      NodesBounded(g, es[0].value, Child(at, ms, es[0].key), w1);
      EntriesBounded(g, ms, es[1..], at, w2);
    }
  }

  lemma {:induction false} ItemsBounded(g: Guard, items: seq<Json>, i: nat, at: At, w: Walked)
    requires !w.stopped && !WalkItems(g, items, i, at, w).stopped && w.nodes <= MAX_NODES
    ensures WalkItems(g, items, i, at, w).nodes <= MAX_NODES
    decreases SizeItems(items), 1
  {
    hide Walk;
    if items == [] {
    } else {
      var w1 := Walk(g, items[0], Element(at, i), w);
      ItemsExtend(g, items[1..], i + 1, at, w1);
      NodesBounded(g, items[0], Element(at, i), w);
      ItemsBounded(g, items[1..], i + 1, at, w1);
    }
  }

  // ------------------------------------------------------- names in pointers

  /** Every name on the path that matches by itself is among the keys. */
  ghost predicate Fingerprinted(g: Guard, path: seq<Segment>, keys: set<string>)
  {
    forall k :: Key(k) in path && ScanString(g, k, Identifier) != Clean ==> k in keys
  }

  ghost predicate AllFingerprinted(g: Guard, fs: seq<Finding>, keys: set<string>)
  {
    forall f :: f in fs ==> Fingerprinted(g, f.path, keys)
  }

  /** The walk knows every matching name above it, and none of its findings has another. */
  ghost predicate Discreet(g: Guard, path: seq<Segment>, w: Walked)
  {
    Fingerprinted(g, path, w.piiKeys) && AllFingerprinted(g, w.findings, w.piiKeys)
  }

  lemma StopDiscreet(g: Guard, path: seq<Segment>, w: Walked, d: Detail)
    requires Discreet(g, path, w)
    ensures Discreet(g, path, Stop(w, d, path))
  {
  }

  lemma NoteDiscreet(g: Guard, path: seq<Segment>, w: Walked, c: Class, d: Detail)
    requires Discreet(g, path, w)
    ensures Discreet(g, path, Note(w, c, d, path))
  {
  }

  lemma NoteKeyDiscreet(g: Guard, path: seq<Segment>, w: Walked, key: string)
    requires Discreet(g, path, w)
    ensures
      var w1 := NoteKey(w, ScanString(g, key, Identifier), key, path);
      Discreet(g, path, w1) && Discreet(g, path + [Key(key)], w1) && w.piiKeys <= w1.piiKeys
  {
    hide ScanString;
  }

  lemma DiscreetBelow(g: Guard, path: seq<Segment>, w: Walked, w': Walked)
    requires Discreet(g, path, w) && AllFingerprinted(g, w'.findings, w'.piiKeys) && w.piiKeys <= w'.piiKeys
    ensures Discreet(g, path, w')
  {
    hide ScanString;
  }

  lemma DiscreetElement(g: Guard, path: seq<Segment>, i: nat, w: Walked)
    requires Discreet(g, path, w)
    ensures Discreet(g, path + [Index(i)], w)
  {
    hide ScanString;
  }

  /** No pointer through a name that matched spells that name out. */
  lemma {:induction false} WalkDiscreet(g: Guard, j: Json, at: At, w: Walked)
    requires Discreet(g, at.path, w)
    ensures Discreet(g, at.path, Walk(g, j, at, w)) && w.piiKeys <= Walk(g, j, at, w).piiKeys
    decreases Size(j), 0
  {
    hide ScanString, ScanNumber, Entries, WalkEntries, WalkItems, Discreet, Child;
    if w.stopped {
    } else {
      var w1 := w.(nodes := w.nodes + 1);
      assert Discreet(g, at.path, w1) by { SameKeys(g, at.path, w, w1); }
      StopDiscreet(g, at.path, w1, TooManyNodes);
      StopDiscreet(g, at.path, w1, TooDeep);
      StopDiscreet(g, at.path, w1, OverlongNumber);
      match j
      case Obj(ms) =>
        EntriesSize(ms);
        EntriesDiscreet(g, ms, Entries(ms), at, w1);
      case Arr(items) => ItemsDiscreet(g, items, 0, at, w1);
      case Str(s) => NoteDiscreet(g, at.path, w1, ScanString(g, s, at.scan), StringValue);
      case Num(lit) =>
        if ScanNumber(g, lit).Scanned? {
          NoteDiscreet(g, at.path, w1, ScanNumber(g, lit).c, NumericValue);
        }
      case _ =>
    }
  }

  lemma SameKeys(g: Guard, path: seq<Segment>, w: Walked, w': Walked)
    requires Discreet(g, path, w) && w.findings == w'.findings && w.piiKeys == w'.piiKeys
    ensures Discreet(g, path, w')
  {
  }

  lemma {:induction false} EntriesDiscreet(g: Guard, ms: seq<Member>, es: seq<Member>, at: At, w: Walked)
    requires Discreet(g, at.path, w)
    ensures Discreet(g, at.path, WalkEntries(g, ms, es, at, w))
    ensures w.piiKeys <= WalkEntries(g, ms, es, at, w).piiKeys
    decreases SizeMembers(es), 1
  {
    hide ScanString, Child, Walk, Discreet, NoteKey;
    if es == [] || w.stopped {
    } else {
      var k, child := es[0].key, Child(at, ms, es[0].key);
      var w1 := NoteKey(w, ScanString(g, k, Identifier), k, at.path);
      NoteKeyDiscreet(g, at.path, w, k);
      ChildPath(at, ms, k);
      WalkDiscreet(g, es[0].value, child, w1);
      var w2 := Walk(g, es[0].value, child, w1);
      assert AllFingerprinted(g, w2.findings, w2.piiKeys) by { DiscreetParts(g, child.path, w2); }
      DiscreetBelow(g, at.path, w1, w2);
      EntriesDiscreet(g, ms, es[1..], at, w2);
    }
  }

  lemma DiscreetParts(g: Guard, path: seq<Segment>, w: Walked)
    requires Discreet(g, path, w)
    ensures AllFingerprinted(g, w.findings, w.piiKeys)
  {
  }

  lemma {:induction false} ItemsDiscreet(g: Guard, items: seq<Json>, i: nat, at: At, w: Walked)
    requires Discreet(g, at.path, w)
    ensures Discreet(g, at.path, WalkItems(g, items, i, at, w)) && w.piiKeys <= WalkItems(g, items, i, at, w).piiKeys
    decreases SizeItems(items), 1
  {
    hide Walk, Discreet;
    if items == [] || w.stopped {
    } else {
      DiscreetElement(g, at.path, i, w);
      WalkDiscreet(g, items[0], Element(at, i), w);
      var w1 := Walk(g, items[0], Element(at, i), w);
      assert AllFingerprinted(g, w1.findings, w1.piiKeys) by { DiscreetParts(g, Element(at, i).path, w1); }
      DiscreetBelow(g, at.path, w, w1);
      ItemsDiscreet(g, items[1..], i + 1, at, w1);
    }
  }

  /** The repeated name is the only name on its path that matches. */
  ghost predicate OnlyTheRepeatedName(mt: Matchers, path: seq<Segment>)
  {
    forall k :: Key(k) in path && MatchesItself(mt, k) ==> path[|path| - 1] == Key(k)
  }

  /**
   When the pointers of a report spell out no name that matches by itself:
   always, except for a repeated name below another name that matches.
   */
  lemma PointersDiscreetExactly(mt: Matchers, tools: Json)
    ensures
      var r := Inspect(mt, tools);
      AllFingerprinted(Guard(mt, true), r.permissive + r.strict, r.redactions) <==>
        (tools.Arr? && Duplicate(tools, []).Some? ==> OnlyTheRepeatedName(mt, Duplicate(tools, []).value))
  {
    var g, r := Guard(mt, true), Inspect(mt, tools);
    if !tools.Arr? {
      assert forall f :: f in r.permissive + r.strict ==> f.path == [];
    } else if Duplicate(tools, []).Some? {
      hide Duplicate, Walk, ScanString;
      RepeatedDiscreet(mt, Duplicate(tools, []).value);
      assert r.permissive + r.strict == [r.permissive[0], r.permissive[0]];
      assert r.permissive[0] in r.permissive + r.strict;
    } else {
      hide Walk, ScanString, Fingerprinted;
      PermissiveDiscreet(mt, tools);
      TwoWalks(mt, tools);
      hide Inspect;
      forall f | f in r.permissive + r.strict
        ensures Fingerprinted(g, f.path, r.redactions)
      {
        if f in r.strict {
          var k :| 0 <= k < |r.strict| && r.strict[k] == f;
          assert Covers(r.permissive, r.strict[k].path);
          var i :| 0 <= i < |r.permissive| && r.permissive[i].path == f.path;
          assert r.permissive[i] in r.permissive;
        }
      }
    }
  }

  lemma PermissiveDiscreet(mt: Matchers, tools: Json)
    requires tools.Arr? && Duplicate(tools, []).None?
    ensures AllFingerprinted(Guard(mt, true), Inspect(mt, tools).permissive, Inspect(mt, tools).redactions)
  {
    hide Walk, ScanString;
    WalkDiscreet(Guard(mt, true), tools, ROOT, START);
  }

  lemma RepeatedDiscreet(mt: Matchers, path: seq<Segment>)
    ensures Fingerprinted(Guard(mt, true), path, RepeatedKeys(mt, path)) <==> OnlyTheRepeatedName(mt, path)
  {
    hide ScanString;
  }

  // --------------------------------------------------------- the code's class

  /** The walker of the code: fields updated as it goes, and a path it pushes to and pops from. */
  class Walker {
    const guard: Guard
    var nodes: nat
    var path: seq<Segment>
    var findings: seq<Finding>
    var piiKeys: set<string>

    constructor (g: Guard)
      ensures guard == g && path == [] && Now(false) == START
    {
      guard := g;
      nodes, path, findings, piiKeys := 0, [], [], {};
    }

    /** The fields, and whether the exception that ends a walk has been raised. */
    ghost function Now(stopped: bool): Walked
      reads this
    {
      Walked(nodes, findings, piiKeys, stopped)
    }

    method Terminal(d: Detail)
      modifies this`findings
      ensures Now(true) == Stop(old(Now(false)), d, path)
    {
      findings := findings + [Finding(BoundsExceeded, Clean, d, path)];
    }

    method WalkNode(j: Json, depth: nat, scan: Context, keysAreNames: bool, scanNumbers: bool)
      returns (stopped: bool)
      modifies this
      ensures path == old(path)
      ensures Now(stopped) == Walk(guard, j, At(depth, scan, keysAreNames, scanNumbers, old(path)), old(Now(false)))
      decreases Size(j), 0
    {
      hide ScanString, ScanNumber, Entries, Child;
      ghost var at := At(depth, scan, keysAreNames, scanNumbers, path);
      nodes := nodes + 1;
      if nodes > MAX_NODES {
        Terminal(TooManyNodes);
        return true;
      }
      if depth > MAX_DEPTH {
        Terminal(TooDeep);
        return true;
      }
      match j
      case Obj(ms) =>
        stopped := WalkObject(ms, depth, scan, keysAreNames, scanNumbers);
      case Arr(items) =>
        stopped := WalkArray(items, depth, scan, keysAreNames, scanNumbers);
      case Str(s) =>
        var c := ScanString(guard, s, scan);
        if c != Clean {
          findings := findings + [Finding(PiiShape, c, StringValue, path)];
        }
        stopped := false;
      case Num(lit) =>
        if scanNumbers {
          match ScanNumber(guard, lit)
          case Overlong =>
            Terminal(OverlongNumber);
            return true;
          case Scanned(c) =>
            if c != Clean {
              findings := findings + [Finding(PiiShape, c, NumericValue, path)];
            }
        }
        stopped := false;
      case _ =>
        stopped := false;
    }

    method WalkObject(ms: seq<Member>, depth: nat, scan: Context, keysAreNames: bool, scanNumbers: bool)
      returns (stopped: bool)
      modifies this
      ensures path == old(path)
      ensures Now(stopped) == WalkEntries(guard, ms, Entries(ms),
                                          At(depth, scan, keysAreNames, scanNumbers, old(path)), old(Now(false)))
      decreases SizeMembers(ms), 1
    {
      hide ScanString, Entries, Child, Walk;
      ghost var at := At(depth, scan, keysAreNames, scanNumbers, path);
      var es := Entries(ms);
      EntriesSize(ms);
      ghost var want := WalkEntries(guard, ms, es, at, Now(false));
      for i := 0 to |es|
        invariant path == at.path
        invariant WalkEntries(guard, ms, es[i..], at, Now(false)) == want
        invariant SizeMembers(es[i..]) <= SizeMembers(ms)
      {
        var k := es[i].key;
        assert es[i..][0] == es[i] && es[i..][1..] == es[i + 1..];
        var c := ScanString(guard, k, Identifier);
        if c != Clean {
          piiKeys := piiKeys + {k};
          findings := findings + [Finding(PiiShape, c, ObjectKey, path + [Print(k)])];
        }
        var child := Child(At(depth, scan, keysAreNames, scanNumbers, path), ms, k);
        ghost var here := Now(false);
        path := path + [Key(k)];
        ChildPath(at, ms, k);
        stopped := WalkNode(es[i].value, child.depth, child.scan, child.names, child.numbers);
        path := path[..|path| - 1];
        if stopped {
          return;
        }
      }
      stopped := false;
    }

    method WalkArray(items: seq<Json>, depth: nat, scan: Context, keysAreNames: bool, scanNumbers: bool)
      returns (stopped: bool)
      modifies this
      ensures path == old(path)
      ensures Now(stopped) == WalkItems(guard, items, 0,
                                        At(depth, scan, keysAreNames, scanNumbers, old(path)), old(Now(false)))
      decreases SizeItems(items), 1
    {
      hide Walk;
      ghost var at := At(depth, scan, keysAreNames, scanNumbers, path);
      ghost var want := WalkItems(guard, items, 0, at, Now(false));
      for i := 0 to |items|
        invariant path == at.path
        invariant WalkItems(guard, items[i..], i, at, Now(false)) == want
        invariant SizeItems(items[i..]) <= SizeItems(items)
      {
        assert items[i..][0] == items[i] && items[i..][1..] == items[i + 1..];
        path := path + [Index(i)];
        stopped := WalkNode(items[i], depth + 1, scan, false, scanNumbers);
        path := path[..|path| - 1];
        if stopped {
          return;
        }
      }
      stopped := false;
    }
  }

  lemma ChildPath(at: At, ms: seq<Member>, k: string)
    ensures Child(at, ms, k).path == at.path + [Key(k)]
  {
  }
}
