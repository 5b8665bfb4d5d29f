/**
 What the guard reads at a place, told from the path of the place alone: which
 names on it are keywords, what lies in instance data, what is prose.  The walk
 hands a context down as it goes; here there is none to hand down.
 */
module GuardPlaces {
  import opened Wrappers
  import opened JsonTree
  import opened SchemaGuard
  import SchemaTypes
  import NumberExpansion

  // ------------------------------------------------------------------ places

  /** A value, with the members of the innermost object around it. */
  datatype Spot = Spot(value: Json, owner: seq<Member>)

  /** One step down: to a member of an object, or to an element of an array. */
  predicate Step(from: Spot, s: Segment, to: Spot)
  {
    || (s.Key? && from.value.Obj? && Member(s.name, to.value) in from.value.members && to.owner == from.value.members)
    || (s.Index? && from.value.Arr? && s.i < |from.value.items| && to.value == from.value.items[s.i]
        && to.owner == from.owner)
  }

  /** From one spot the path leads to the other. */
  ghost predicate Leads(from: Spot, path: seq<Segment>, to: Spot)
    decreases |path|
  {
    if path == [] then to == from else exists next :: Step(from, path[0], next) && Leads(next, path[1..], to)
  }

  /** The last name on the path is a keyword of a schema: no name in a map of names, and not in instance data. */
  ghost predicate Keyword(path: seq<Segment>)
    decreases |path|, 0
  {
    && path != [] && path[|path| - 1].Key?
    && !MapOfNames(path[..|path| - 1]) && !InData(path[..|path| - 1])
  }

  /** The members here have names and no keywords. */
  ghost predicate MapOfNames(path: seq<Segment>)
    decreases |path|, 1
  {
    Keyword(path)
    && path[|path| - 1].name in {"properties", "patternProperties", "$defs", "definitions", "dependentSchemas",
                                 "dependentRequired", "dependencies", "$vocabulary"}
  }

  /** Some keyword above holds instance data. */
  ghost predicate InData(path: seq<Segment>)
    decreases |path|, 1
  {
    exists n :: 0 < n <= |path| && Keyword(path[..n])
                && path[n - 1].name in {"default", "const", "enum", "example", "examples"}
  }

  /** The innermost keyword holds prose, and no instance data is around it. */
  ghost predicate InProse(path: seq<Segment>)
  {
    && !InData(path)
    && exists n :: 0 < n <= |path| && Keyword(path[..n])
                   && path[n - 1].name in {"description", "title", "summary", "$comment"}
                   && forall m :: n < m <= |path| ==> !Keyword(path[..m])
  }

  ghost function ContextOf(path: seq<Segment>): Context
  {
    if InData(path) then Value else if InProse(path) then Prose else Identifier
  }

  /** A number here, or in arrays here, is the bound that a keyword sets, and its object has a type it can bound. */
  ghost predicate IsBound(path: seq<Segment>, owner: seq<Member>)
  {
    exists n :: 0 < n <= |path| && InArrays(path, n) && SetsBound(path[..n], owner)
  }

  /** Behind `n` names and indices there are only indices. */
  predicate InArrays(path: seq<Segment>, n: nat)
  {
    forall m :: n <= m < |path| ==> path[m].Index?
  }

  /** The last name on the path is such a keyword. */
  ghost predicate SetsBound(path: seq<Segment>, owner: seq<Member>)
  {
    && Keyword(path) && SchemaTypes.IsStructural(path[|path| - 1].name)
    && SchemaTypes.KeywordApplies(path[|path| - 1].name,
                                  SchemaTypes.DeclaredTypes(owner, Some(4)))
  }

  // -------------------------------------------------------------- what a scan hits

  predicate RunIn(mt: Matchers, s: string)
  {
    |s| >= 10 && mt.digits(s)
  }

  /** The text has a digit run, as written or folded. */
  predicate HasRunIn(mt: Matchers, s: string)
  {
    RunIn(mt, s) || (!IsAscii(s) && RunIn(mt, mt.fold(s)))
  }

  /** When a scan hits nothing; `runs` says whether digit runs matter. */
  lemma ScanExactly(g: Guard, s: string, ctx: Context)
    ensures ScanString(g, s, ctx) == Clean
       <==> !Sensitive(g.mt, s) && (g.allowRun && ctx != Prose ==> !HasRunIn(g.mt, s))
  {
  }

  predicate PlainNumber(mt: Matchers, runs: bool, text: string)
  {
    !ShapeIn(mt, text) && (runs ==> !RunIn(mt, text))
  }

  /** As written and expanded, a number matches nothing, and it does not expand beyond bounds. */
  predicate HarmlessNumber(mt: Matchers, runs: bool, lit: string)
  {
    && PlainNumber(mt, runs, lit)
    && match NumberExpansion.Expand(lit)
       case TooLong => false
       case Expanded(t) => PlainNumber(mt, runs, t)
       case NotANumber => true
  }

  lemma NumberExactly(g: Guard, lit: string)
    ensures ScanNumber(g, lit) == Scanned(Clean) <==> HarmlessNumber(g.mt, g.allowRun, lit)
  {
    hide NumberExpansion.Expand;
  }

  predicate HarmlessNames(mt: Matchers, runs: bool, ms: seq<Member>)
  {
    forall m :: m in ms ==> !Sensitive(mt, m.key) && (runs ==> !HasRunIn(mt, m.key))
  }

  /** Nothing at the place is matched; what counts there is read from the path. */
  ghost predicate Harmless(mt: Matchers, runs: bool, path: seq<Segment>, at: Spot)
  {
    match at.value
    case Str(s) => !Sensitive(mt, s) && (runs && !InProse(path) ==> !HasRunIn(mt, s))
    case Num(lit) => IsBound(path, at.owner) || HarmlessNumber(mt, runs, lit)
    case Obj(ms) => HarmlessNames(mt, runs, ms)
    case _ => true
  }

  // ------------------------------------------- the context handed down is the path's

  /** The walk's own account of a place says what the path says. */
  ghost predicate Agrees(at: At, owner: seq<Member>)
  {
    && at.depth == |at.path|
    && at.scan == ContextOf(at.path)
    && at.names == MapOfNames(at.path)
    && at.numbers == !IsBound(at.path, owner)
  }

  lemma RootAgrees()
    ensures Agrees(ROOT, [])
  {
  }

  lemma DataStep(path: seq<Segment>, s: Segment)
    ensures InData(path + [s]) <==> InData(path) || (Keyword(path + [s]) && s.name in VALUE_KEYS)
  {
    var p := path + [s];
    assert p[..|p|] == p;
    assert forall n :: 0 <= n <= |path| ==> p[..n] == path[..n];
  }

  lemma ProseStep(path: seq<Segment>, s: Segment)
    ensures InProse(path + [s])
       <==> !InData(path + [s]) && if Keyword(path + [s]) then s.name in PROSE_KEYS else InProse(path)
  {
    var p := path + [s];
    hide Keyword, InData;
    DataStep(path, s);
    assert p[..|p|] == p;
    assert forall n :: 0 <= n <= |path| ==> p[..n] == path[..n];
  }

  lemma BoundStep(path: seq<Segment>, s: Segment, owner: seq<Member>)
    ensures s.Index? ==> (IsBound(path + [s], owner) <==> IsBound(path, owner))
    ensures s.Key? ==> (IsBound(path + [s], owner) <==> SetsBound(path + [s], owner))
  {
    var p := path + [s];
    assert s.Index? ==> !SetsBound(p, owner);
    hide SetsBound;
    assert p[..|p|] == p && p[|path|] == s;
    assert forall m :: 0 <= m < |path| ==> p[m] == path[m];
    if n: nat :| 0 < n <= |p| && InArrays(p, n) && SetsBound(p[..n], owner) {
      if n < |p| {
        assert p[..n] == path[..n];
        assert InArrays(path, n);
      }
    }
    if n: nat :| 0 < n <= |path| && InArrays(path, n) && SetsBound(path[..n], owner) {
      assert p[..n] == path[..n];
      assert s.Index? ==> InArrays(p, n);
    }
    assert SetsBound(p, owner) ==> InArrays(p, |p|);
  }

  lemma ElementAgrees(at: At, owner: seq<Member>, i: nat)
    requires Agrees(at, owner)
    ensures Agrees(Element(at, i), owner)
  {
    var s := Index(i);
    assert !Keyword(at.path + [s]);
    DataStep(at.path, s);
    ProseStep(at.path, s);
    BoundStep(at.path, s, owner);
  }

  lemma ChildAgrees(at: At, owner: seq<Member>, ms: seq<Member>, k: string)
    requires Agrees(at, owner)
    ensures Agrees(Child(at, ms, k), ms)
  {
    hide SchemaTypes.IsStructural, SchemaTypes.KeywordApplies, SchemaTypes.DeclaredTypes;
    var s := Key(k);
    var p := at.path + [s];
    assert p[..|p| - 1] == at.path;
    assert Keyword(p) <==> !at.names && at.scan != Value;
    DataStep(at.path, s);
    ProseStep(at.path, s);
    BoundStep(at.path, s, ms);
    hide InData, InProse, IsBound;
  }

  // ----------------------------------------------------------- a whole tree, place by place

  /** Nothing is matched anywhere below. */
  ghost predicate AllHarmless(mt: Matchers, runs: bool, above: seq<Segment>, from: Spot)
  {
    forall path, to :: Leads(from, path, to) ==> Harmless(mt, runs, above + path, to)
  }

  lemma AllHarmlessSplit(mt: Matchers, runs: bool, above: seq<Segment>, from: Spot)
    ensures AllHarmless(mt, runs, above, from)
       <==> && Harmless(mt, runs, above, from)
            && forall s, next :: Step(from, s, next) ==> AllHarmless(mt, runs, above + [s], next)
  {
    hide Harmless, Step;
    if AllHarmless(mt, runs, above, from) {
      assert Leads(from, [], from) && above + [] == above;
      forall s, next, path, to | Step(from, s, next) && Leads(next, path, to)
        ensures Harmless(mt, runs, above + [s] + path, to)
      {
        assert ([s] + path)[1..] == path && above + ([s] + path) == above + [s] + path;
        assert Leads(from, [s] + path, to);
      }
    } else {
      var path, to :| Leads(from, path, to) && !Harmless(mt, runs, above + path, to);
      if path == [] {
        assert above + path == above;
      } else {
        var next :| Step(from, path[0], next) && Leads(next, path[1..], to);
        assert above + [path[0]] + path[1..] == above + path;
        assert !AllHarmless(mt, runs, above + [path[0]], next);
      }
    }
  }

  /** A tree is quiet for the walk exactly when nothing in it is matched, told place by place. */
  lemma {:induction false} QuietPlaces(g: Guard, at: At, from: Spot)
    requires Agrees(at, from.owner)
    ensures Quiet(g, from.value, at) <==> AllHarmless(g.mt, g.allowRun, at.path, from)
    decreases from.value
  {
    hide Agrees, Leads, AllHarmless, Child, ScanString, ScanNumber, Sensitive, HasRunIn;
    AllHarmlessSplit(g.mt, g.allowRun, at.path, from);
    QuietHere(g, at, from);
    match from.value
    case Obj(ms) =>
      forall m | m in ms
        ensures Quiet(g, m.value, Child(at, ms, m.key))
           <==> AllHarmless(g.mt, g.allowRun, at.path + [Key(m.key)], Spot(m.value, ms))
      {
        ChildAgrees(at, from.owner, ms, m.key);
        ChildPath(at, ms, m.key);
        QuietPlaces(g, Child(at, ms, m.key), Spot(m.value, ms));
      }
      assert forall m :: m in ms <==> Step(from, Key(m.key), Spot(m.value, ms));
    case Arr(items) =>
      forall i: nat | i < |items|
        ensures Quiet(g, items[i], Element(at, i))
           <==> AllHarmless(g.mt, g.allowRun, at.path + [Index(i)], Spot(items[i], from.owner))
      {
        ElementAgrees(at, from.owner, i);
        assert Element(at, i).path == at.path + [Index(i)];
        QuietPlaces(g, Element(at, i), Spot(items[i], from.owner));
      }
    case _ =>
  }

  /** What the walk asks of the spot itself. */
  lemma QuietHere(g: Guard, at: At, from: Spot)
    requires Agrees(at, from.owner)
    ensures Harmless(g.mt, g.allowRun, at.path, from) ==
      match from.value
      case Str(s) => ScanString(g, s, at.scan) == Clean
      case Num(lit) => at.numbers ==> ScanNumber(g, lit) == Scanned(Clean)
      case Obj(ms) => forall m :: m in ms ==> ScanString(g, m.key, Identifier) == Clean
      case _ => true
  {
    hide ScanString, ScanNumber, Sensitive, HasRunIn, HarmlessNumber, InData, Keyword, IsBound;
    match from.value
    case Str(s) => ScanExactly(g, s, at.scan);
    case Num(lit) => NumberExactly(g, lit);
    case Obj(ms) =>
      forall m | m in ms
        ensures ScanString(g, m.key, Identifier) == Clean
           <==> !Sensitive(g.mt, m.key) && (g.allowRun ==> !HasRunIn(g.mt, m.key))
      {
        ScanExactly(g, m.key, Identifier);
      }
    case _ =>
  }

  // ------------------------------------------------------------- what is reported

  /** The finding reports what a scan matches at this place. */
  ghost predicate ReportedAt(g: Guard, path: seq<Segment>, at: Spot, f: Finding)
  {
    match at.value
    case Str(s) =>
      var c := ScanString(g, s, ContextOf(path));
      c != Clean && f == Finding(PiiShape, c, StringValue, path)
    case Num(lit) =>
      && !IsBound(path, at.owner) && ScanNumber(g, lit).Scanned? && ScanNumber(g, lit).c != Clean
      && f == Finding(PiiShape, ScanNumber(g, lit).c, NumericValue, path)
    case Obj(ms) => exists m :: m in ms && NameReported(g, m.key, path, f)
    case _ => false
  }

  predicate NameReported(g: Guard, name: string, path: seq<Segment>, f: Finding)
  {
    var c := ScanString(g, name, Identifier);
    c != Clean && f == Finding(PiiShape, c, ObjectKey, path + [Print(name)])
  }

  ghost predicate ReportedBelow(g: Guard, above: seq<Segment>, from: Spot, f: Finding)
  {
    exists path, to :: Leads(from, path, to) && ReportedAt(g, above + path, to, f)
  }

  lemma ReportedSplit(g: Guard, above: seq<Segment>, from: Spot, f: Finding)
    ensures ReportedBelow(g, above, from, f)
       <==> || ReportedAt(g, above, from, f)
            || exists s, next :: Step(from, s, next) && ReportedBelow(g, above + [s], next, f)
  {
    hide ReportedAt, Step;
    if ReportedAt(g, above, from, f) {
      assert Leads(from, [], from) && above + [] == above;
    }
    if s, next :| Step(from, s, next) && ReportedBelow(g, above + [s], next, f) {
      var path, to :| Leads(next, path, to) && ReportedAt(g, above + [s] + path, to, f);
      assert ([s] + path)[1..] == path && above + ([s] + path) == above + [s] + path;
      assert Leads(from, [s] + path, to);
    }
    if ReportedBelow(g, above, from, f) && !ReportedAt(g, above, from, f) {
      var path, to :| Leads(from, path, to) && ReportedAt(g, above + path, to, f);
      assert path == [] ==> above + path == above;
      var next :| Step(from, path[0], next) && Leads(next, path[1..], to);
      assert above + [path[0]] + path[1..] == above + path;
      assert ReportedBelow(g, above + [path[0]], next, f);
    }
  }

  /** The hits of the walk are the matches, told place by place. */
  lemma {:induction false} HitPlaces(g: Guard, at: At, from: Spot, f: Finding)
    requires Agrees(at, from.owner)
    ensures Hit(g, from.value, at, f) <==> ReportedBelow(g, at.path, from, f)
    decreases from.value
  {
    hide Agrees, Leads, ReportedBelow, Child, ScanString, ScanNumber;
    ReportedSplit(g, at.path, from, f);
    ContextAgrees(at, from.owner);
    hide IsBound, ContextOf;
    match from.value
    case Obj(ms) =>
      forall m | m in ms
        ensures Hit(g, m.value, Child(at, ms, m.key), f)
           <==> ReportedBelow(g, at.path + [Key(m.key)], Spot(m.value, ms), f)
      {
        ChildAgrees(at, from.owner, ms, m.key);
        ChildPath(at, ms, m.key);
        HitPlaces(g, Child(at, ms, m.key), Spot(m.value, ms), f);
      }
      assert forall m :: m in ms <==> Step(from, Key(m.key), Spot(m.value, ms));
    case Arr(items) =>
      forall i: nat | i < |items|
        ensures Hit(g, items[i], Element(at, i), f)
           <==> ReportedBelow(g, at.path + [Index(i)], Spot(items[i], from.owner), f)
      {
        ElementAgrees(at, from.owner, i);
        assert Element(at, i).path == at.path + [Index(i)];
        HitPlaces(g, Element(at, i), Spot(items[i], from.owner), f);
      }
    case _ =>
  }

  lemma ContextAgrees(at: At, owner: seq<Member>)
    requires Agrees(at, owner)
    ensures at.scan == ContextOf(at.path) && at.numbers == !IsBound(at.path, owner)
  {
  }

  /** The text itself is of the class that a finding names. */
  predicate Shows(mt: Matchers, c: Class, text: string)
  {
    match c
    case IbanShape => |text| >= 15 && mt.iban(text)
    case EmailShape => '@' in text && mt.email(text)
    case DigitRun => RunIn(mt, text)
    case Clean => false
  }

  /** A class is reported of a text that shows it, and an IBAN before an address before a digit run. */
  lemma ClassExactly(g: Guard, s: string, ctx: Context)
    ensures
      var c := ScanString(g, s, ctx);
      && (c != Clean ==> Shows(g.mt, c, s) || (!IsAscii(s) && Shows(g.mt, c, g.mt.fold(s))))
      && (Shows(g.mt, IbanShape, s) ==> c == IbanShape)
      && (Shows(g.mt, EmailShape, s) && !Shows(g.mt, IbanShape, s) ==> c == EmailShape)
      && (c == DigitRun ==> g.allowRun && ctx != Prose)
  {
  }

  // ------------------------------------------------------ why a walk is cut short

  /** The finding says which budget ran out, and where. */
  ghost predicate CutAt(f: Finding, nodes: nat, at: Spot)
  {
    && f.kind == BoundsExceeded && f.matcher == Clean
    && match f.detail
       case TooManyNodes => nodes > 200000
       case TooDeep => |f.path| > 32
       case OverlongNumber => at.value.Num? && !IsBound(f.path, at.owner) && NumberExpansion.Expand(at.value.lit).TooLong?
       case _ => false
  }

  ghost predicate CutBelow(above: seq<Segment>, from: Spot, f: Finding, nodes: nat)
  {
    exists path, to :: Leads(from, path, to) && f.path == above + path && CutAt(f, nodes, to)
  }

  lemma CutHere(above: seq<Segment>, from: Spot, f: Finding, nodes: nat)
    requires f.path == above && CutAt(f, nodes, from)
    ensures CutBelow(above, from, f, nodes)
  {
    assert Leads(from, [], from) && above + [] == above;
  }

  lemma CutDeeper(above: seq<Segment>, from: Spot, s: Segment, next: Spot, f: Finding, nodes: nat)
    requires Step(from, s, next) && CutBelow(above + [s], next, f, nodes)
    ensures CutBelow(above, from, f, nodes)
  {
    hide CutAt, Step;
    var path, to :| Leads(next, path, to) && f.path == above + [s] + path && CutAt(f, nodes, to);
    assert ([s] + path)[1..] == path && above + ([s] + path) == above + [s] + path;
    assert Leads(from, [s] + path, to);
  }

  /** The last finding of a walk. */
  function LastOf(w: Walked): Finding
    requires w.findings != []
  {
    w.findings[|w.findings| - 1]
  }

  /** A walk that is cut short ends with a finding that says why, and of which place. */
  lemma {:induction false} CutWalk(g: Guard, at: At, from: Spot, w: Walked)
    requires Agrees(at, from.owner) && !w.stopped && Walk(g, from.value, at, w).stopped
    ensures
      var r := Walk(g, from.value, at, w);
      r.findings != [] && CutBelow(at.path, from, LastOf(r), r.nodes)
    decreases Size(from.value), 0
  {
    hide ScanString, Child, CutBelow, WalkEntries, WalkItems, Entries, IsBound, Leads, NumberExpansion.Expand,
      MatcherClass, MapOfNames, ContextOf;
    var w1 := w.(nodes := w.nodes + 1);
    if w1.nodes > MAX_NODES {
      CutHere(at.path, from, Finding(BoundsExceeded, Clean, TooManyNodes, at.path), w1.nodes);
    } else if at.depth > MAX_DEPTH {
      CutHere(at.path, from, Finding(BoundsExceeded, Clean, TooDeep, at.path), w1.nodes);
    } else {
      match from.value
      case Obj(ms) =>
        EntriesSize(ms);
        CutEntries(g, ms, Entries(ms), at, from, w1);
      case Arr(items) =>
        CutItems(g, items, 0, at, from, w1);
      case Num(lit) =>
        CutHere(at.path, from, Finding(BoundsExceeded, Clean, OverlongNumber, at.path), w1.nodes);
      case _ =>
    }
  }

  lemma {:induction false} CutEntries(g: Guard, ms: seq<Member>, es: seq<Member>, at: At, from: Spot, w: Walked)
    requires Agrees(at, from.owner) && !w.stopped && WalkEntries(g, ms, es, at, w).stopped
    requires from.value == Obj(ms) && forall m :: m in es ==> m in ms
    ensures
      var r := WalkEntries(g, ms, es, at, w);
      r.findings != [] && CutBelow(at.path, from, LastOf(r), r.nodes)
    decreases SizeMembers(es), 1
  {
    hide ScanString, Child, CutBelow, Walk, Agrees;
    var k, child := es[0].key, Child(at, ms, es[0].key);
    var w1 := NoteKey(w, ScanString(g, k, Identifier), k, at.path);
    var next := Spot(es[0].value, ms);
    var w2 := Walk(g, es[0].value, child, w1);
    ChildAgrees(at, from.owner, ms, k);
    ChildPath(at, ms, k);
    if w2.stopped {
      CutWalk(g, child, next, w1);
      assert es[0] in ms && Step(from, Key(k), next);
      CutDeeper(at.path, from, Key(k), next, LastOf(w2), w2.nodes);
    } else {
      CutEntries(g, ms, es[1..], at, from, w2);
    }
  }

  lemma {:induction false} CutItems(g: Guard, items: seq<Json>, i: nat, at: At, from: Spot, w: Walked)
    requires Agrees(at, from.owner) && !w.stopped && WalkItems(g, items, i, at, w).stopped
    requires from.value.Arr? && i <= |from.value.items| && items == from.value.items[i..]
    ensures
      var r := WalkItems(g, items, i, at, w);
      r.findings != [] && CutBelow(at.path, from, LastOf(r), r.nodes)
    decreases SizeItems(items), 1
  {
    hide CutBelow, Walk, Agrees;
    var next := Spot(items[0], from.owner);
    var w1 := Walk(g, items[0], Element(at, i), w);
    ElementAgrees(at, from.owner, i);
    if w1.stopped {
      CutWalk(g, Element(at, i), next, w);
      assert Step(from, Index(i), next) && Element(at, i).path == at.path + [Index(i)];
      CutDeeper(at.path, from, Index(i), next, LastOf(w1), w1.nodes);
    } else {
      CutItems(g, items[1..], i + 1, at, from, w1);
    }
  }

  // ------------------------------------------------------------- payloads

  ghost predicate NoDeeper(from: Spot, limit: int)
  {
    forall path, to :: Leads(from, path, to) ==> |path| <= limit
  }

  lemma {:induction false} ShallowPlaces(from: Spot, depth: nat)
    ensures Shallow(from.value, depth) <==> NoDeeper(from, MAX_DEPTH - depth)
    decreases from.value
  {
    hide Leads, NoDeeper;
    NoDeeperSplit(from, MAX_DEPTH - depth);
    match from.value
    case Obj(ms) =>
      forall m | m in ms
        ensures Shallow(m.value, depth + 1) <==> NoDeeper(Spot(m.value, ms), MAX_DEPTH - depth - 1)
      {
        ShallowPlaces(Spot(m.value, ms), depth + 1);
      }
      assert forall m :: m in ms <==> Step(from, Key(m.key), Spot(m.value, ms));
    case Arr(items) =>
      forall i: nat | i < |items|
        ensures Step(from, Index(i), Spot(items[i], from.owner))
        ensures Shallow(items[i], depth + 1) <==> NoDeeper(Spot(items[i], from.owner), MAX_DEPTH - depth - 1)
      {
        ShallowPlaces(Spot(items[i], from.owner), depth + 1);
      }
    case _ =>
  }

  lemma NoDeeperSplit(from: Spot, limit: int)
    ensures NoDeeper(from, limit)
       <==> 0 <= limit && forall s, next :: Step(from, s, next) ==> NoDeeper(next, limit - 1)
  {
    hide Step;
    if NoDeeper(from, limit) {
      assert Leads(from, [], from);
      forall s, next, path, to | Step(from, s, next) && Leads(next, path, to)
        ensures |path| <= limit - 1
      {
        assert ([s] + path)[1..] == path;
        assert Leads(from, [s] + path, to);
      }
    } else {
      var path, to :| Leads(from, path, to) && |path| > limit;
      if path != [] {
        var next :| Step(from, path[0], next) && Leads(next, path[1..], to);
        assert !NoDeeper(next, limit - 1);
      }
    }
  }

  function Root(tools: Json): Spot
  {
    Spot(tools, [])
  }

  /**
   What a refusing mode lets through, place by place: the arrays of bounded size
   and depth without repeated names in which nothing is matched that counts
   where it stands.
   */
  lemma ForwardedPlaces(mt: Matchers, tools: Json, mode: Mode)
    requires mode != Log
    ensures !Refuses(mode, Inspect(mt, tools))
       <==> && tools.Arr? && !RepeatsKey(tools) && Size(tools) <= 200000 && NoDeeper(Root(tools), 32)
            && AllHarmless(mt, mode == Refuse, [], Root(tools))
  {
    hide Inspect, Quiet, Shallow, RepeatsKey, Leads, Harmless;
    ForwardedExactly(mt, tools, mode);
    RootAgrees();
    QuietPlaces(PolicyOf(mt, mode), ROOT, Root(tools));
    ShallowPlaces(Root(tools), 0);
  }

  lemma ForwardedAt(mt: Matchers, tools: Json, mode: Mode, path: seq<Segment>, at: Spot)
    requires mode != Log && !Refuses(mode, Inspect(mt, tools)) && Leads(Root(tools), path, at)
    ensures Harmless(mt, mode == Refuse, path, at)
  {
    hide Inspect, RepeatsKey, Leads, Harmless;
    ForwardedPlaces(mt, tools, mode);
    assert [] + path == path;
  }

  /** The findings of a completed walk over a payload are its matches, place by place. */
  lemma ReportedPlaces(g: Guard, tools: Json, f: Finding)
    requires !Walk(g, tools, ROOT, START).stopped && !RepeatsKey(tools)
    ensures f in Walk(g, tools, ROOT, START).findings
       <==> exists path, at :: Leads(Root(tools), path, at) && ReportedAt(g, path, at, f)
  {
    var root := Root(tools);
    WalkFindsExactly(g, tools, ROOT, START, f);
    RootAgrees();
    HitPlaces(g, ROOT, root, f);
    assert forall path: seq<Segment> :: [] + path == path;
    hide Walk, Hit, RepeatsKey, Leads, ReportedAt, Agrees;
  }

  /** A walk over a payload that is cut short ends with the reason: which budget, and where in the payload. */
  lemma CutShortSaysWhy(g: Guard, tools: Json)
    requires Walk(g, tools, ROOT, START).stopped
    ensures
      var r := Walk(g, tools, ROOT, START);
      r.findings != [] && exists at :: Leads(Root(tools), LastOf(r).path, at) && CutAt(LastOf(r), r.nodes, at)
  {
    hide Walk, Leads, CutAt, Agrees;
    RootAgrees();
    CutWalk(g, ROOT, Root(tools), START);
    var r := Walk(g, tools, ROOT, START);
    var path, at :| Leads(Root(tools), path, at) && LastOf(r).path == [] + path && CutAt(LastOf(r), r.nodes, at);
    assert [] + path == path;
  }

  /** Instance data keeps no digit run, also not under a name that would hold prose in a schema. */
  lemma NoRunInData(mt: Matchers, tools: Json, path: seq<Segment>, n: nat, s: string, owner: seq<Member>)
    requires !Refuses(Refuse, Inspect(mt, tools)) && Leads(Root(tools), path, Spot(Str(s), owner))
    requires 0 < n <= |path| && Keyword(path[..n])
    requires path[n - 1].name in {"default", "const", "enum", "example", "examples"}
    ensures !HasRunIn(mt, s)
  {
    hide Inspect, HasRunIn, Keyword, Leads, Sensitive;
    ForwardedAt(mt, tools, Refuse, path, Spot(Str(s), owner));
    assert InData(path);
  }

  /** A digit run that `refuse` forwards is prose: one of four keywords is the innermost around it. */
  lemma OnlyProseEscapes(mt: Matchers, tools: Json, path: seq<Segment>, s: string, owner: seq<Member>)
    requires !Refuses(Refuse, Inspect(mt, tools)) && Leads(Root(tools), path, Spot(Str(s), owner)) && HasRunIn(mt, s)
    ensures exists n ::
      && 0 < n <= |path| && Keyword(path[..n]) && !InData(path)
      && path[n - 1].name in {"description", "title", "summary", "$comment"}
      && forall m :: n < m <= |path| ==> !Keyword(path[..m])
  {
    hide Inspect, HasRunIn, Keyword, InData, Leads, Sensitive;
    ForwardedAt(mt, tools, Refuse, path, Spot(Str(s), owner));
  }

  /** A name below `properties` and its like is no keyword: what it holds is scanned in full. */
  lemma NamesHoldNoProse(path: seq<Segment>, name: string)
    requires MapOfNames(path)
    ensures !Keyword(path + [Key(name)]) && !InProse(path + [Key(name)]) && !InData(path + [Key(name)])
    ensures forall owner :: !IsBound(path + [Key(name)], owner)
  {
    var p := path + [Key(name)];
    assert p[..|p| - 1] == path && path[..|path|] == path;
    DataStep(path, Key(name));
    ProseStep(path, Key(name));
    assert !InData(path) by { MapIsNoData(path); }
    forall owner
      ensures !IsBound(p, owner)
    {
      BoundStep(path, Key(name), owner);
    }
  }

  lemma MapIsNoData(path: seq<Segment>)
    requires MapOfNames(path)
    ensures !InData(path) && !InProse(path)
  {
    var front, s := path[..|path| - 1], path[|path| - 1];
    assert path == front + [s];
    DataStep(front, s);
    ProseStep(front, s);
  }
}
