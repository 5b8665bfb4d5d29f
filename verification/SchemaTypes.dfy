/**
 Which types a JSON Schema node declares, as the tool-schema guard infers them,
 and which structural number keywords that exempts from scanning.

 `Collect` follows the guard's collector, with its depth limit as a parameter.
 `Unreadable`, `Names`, `Typed` and `TooDeep` say what it should find without
 threading any state; `CollectExact` connects the two.
 */
module SchemaTypes {
  import opened Wrappers
  import opened JsonTree

  /** A declaration: is there one, is it malformed, and the type names in it. */
  datatype Decl = Decl(present: bool, malformed: bool, names: set<string>)

  const ABSENT := Decl(false, false, {})
  const MALFORMED := Decl(true, true, {})
  const MAX_DEPTH := 4
  const KEYWORDS := ["allOf", "anyOf", "oneOf"]

  function ParseType(j: Json): Decl
  {
    match j
    case Str(s) => Decl(true, false, {s})
    case Arr(items) =>
      if items == [] || exists k :: 0 <= k < |items| && !items[k].Str? then MALFORMED
      else Decl(true, false, set k | 0 <= k < |items| && items[k].Str? :: items[k].s)
    case _ => MALFORMED
  }

  /** A composition keyword whose content the collector would have to read. */
  predicate UnreadAt(ms: seq<Member>, kw: string)
  {
    match Lookup(ms, kw)
    case None => false
    case Some(Arr(items)) => items == [] || exists k :: 0 <= k < |items| && !items[k].Bool?
    case Some(_) => true
  }

  predicate HasUnread(ms: seq<Member>)
  {
    UnreadAt(ms, "allOf") || UnreadAt(ms, "anyOf") || UnreadAt(ms, "oneOf")
  }

  // ----------------------------------------------------------- the collector

  predicate Beyond(depth: nat, limit: Option<nat>)
  {
    limit.Some? && depth > limit.value
  }

  function Collect(ms: seq<Member>, depth: nat, limit: Option<nat>, out: Decl): Decl
    decreases SizeMembers(ms), 5
  {
    if out.malformed then out
    else if Beyond(depth, limit) then if HasUnread(ms) then MALFORMED else out
    else
      var out1 := CollectKeyword(ms, "allOf", depth, limit, out);
      var out2 := CollectKeyword(ms, "anyOf", depth, limit, out1);
      CollectKeyword(ms, "oneOf", depth, limit, out2)
  }

  function CollectKeyword(ms: seq<Member>, kw: string, depth: nat, limit: Option<nat>, out: Decl): Decl
    decreases SizeMembers(ms), 4
  {
    if out.malformed then out
    else
      match Lookup(ms, kw)
      case None => out
      case Some(Arr(items)) =>
        LookupSize(ms, kw);
        if items == [] then MALFORMED else CollectBranches(items, depth, limit, out)
      case Some(_) => MALFORMED
  }

  function CollectBranches(items: seq<Json>, depth: nat, limit: Option<nat>, out: Decl): Decl
    decreases SizeItems(items), 3, |items|
  {
    if items == [] || out.malformed then out
    else CollectBranches(items[1..], depth, limit, CollectBranch(items[0], depth, limit, out))
  }

  function CollectBranch(b: Json, depth: nat, limit: Option<nat>, out: Decl): Decl
    decreases Size(b), 2
  {
    match b
    case Bool(_) => out
    case Obj(ms) =>
      match Lookup(ms, "type") {
        case None => Collect(ms, depth + 1, limit, out)
        case Some(t) =>
          var d := ParseType(t);
          if d.malformed then MALFORMED
          else Collect(ms, depth + 1, limit, Decl(true, out.malformed, out.names + d.names))
      }
    case _ => MALFORMED
  }

  /** `declared_schema_types`, with the limit of the collector as a parameter. */
  function DeclaredTypes(ms: seq<Member>, limit: Option<nat>): Decl
  {
    match Lookup(ms, "type")
    case Some(t) => ParseType(t)
    case None => Collect(ms, 0, limit, ABSENT)
  }

  // ------------------------------------------------------- what it should find

  /** Somewhere in the composition there is something that is not a schema or a type. */
  predicate Unreadable(ms: seq<Member>)
    decreases SizeMembers(ms), 5
  {
    UnreadableAt(ms, "allOf") || UnreadableAt(ms, "anyOf") || UnreadableAt(ms, "oneOf")
  }

  predicate UnreadableAt(ms: seq<Member>, kw: string)
    decreases SizeMembers(ms), 4
  {
    match Lookup(ms, kw)
    case None => false
    case Some(Arr(items)) =>
      LookupSize(ms, kw);
      items == [] || UnreadableBranches(items)
    case Some(_) => true
  }

  predicate UnreadableBranches(items: seq<Json>)
    decreases SizeItems(items), 3, |items|
  {
    items != [] && (UnreadableBranch(items[0]) || UnreadableBranches(items[1..]))
  }

  predicate UnreadableBranch(b: Json)
    decreases Size(b), 2
  {
    match b
    case Bool(_) => false
    case Obj(ms) => (Lookup(ms, "type").Some? && ParseType(Lookup(ms, "type").value).malformed) || Unreadable(ms)
    case _ => true
  }

  /** Some branch more than `limit` levels down has a composition of its own. */
  predicate TooDeep(ms: seq<Member>, depth: nat, limit: Option<nat>)
    decreases SizeMembers(ms), 5
  {
    if Beyond(depth, limit) then
      HasUnread(ms)
    else
      || TooDeepAt(ms, "allOf", depth, limit)
      || TooDeepAt(ms, "anyOf", depth, limit)
      || TooDeepAt(ms, "oneOf", depth, limit)
  }

  predicate TooDeepAt(ms: seq<Member>, kw: string, depth: nat, limit: Option<nat>)
    decreases SizeMembers(ms), 4
  {
    match Lookup(ms, kw)
    case Some(Arr(items)) =>
      LookupSize(ms, kw);
      TooDeepBranches(items, depth, limit)
    case _ => false
  }

  predicate TooDeepBranches(items: seq<Json>, depth: nat, limit: Option<nat>)
    decreases SizeItems(items), 3, |items|
  {
    items != [] && (TooDeepBranch(items[0], depth, limit) || TooDeepBranches(items[1..], depth, limit))
  }

  predicate TooDeepBranch(b: Json, depth: nat, limit: Option<nat>)
    decreases Size(b), 2
  {
    b.Obj? && TooDeep(b.members, depth + 1, limit)
  }

  /** All type names declared by branches, at any depth. */
  function Names(ms: seq<Member>): set<string>
    decreases SizeMembers(ms), 5
  {
    NamesAt(ms, "allOf") + NamesAt(ms, "anyOf") + NamesAt(ms, "oneOf")
  }

  function NamesAt(ms: seq<Member>, kw: string): set<string>
    decreases SizeMembers(ms), 4
  {
    match Lookup(ms, kw)
    case Some(Arr(items)) =>
      LookupSize(ms, kw);
      NamesOfBranches(items)
    case _ => {}
  }

  function NamesOfBranches(items: seq<Json>): set<string>
    decreases SizeItems(items), 3, |items|
  {
    if items == [] then {} else NamesOfBranch(items[0]) + NamesOfBranches(items[1..])
  }

  function NamesOfBranch(b: Json): set<string>
    decreases Size(b), 2
  {
    if !b.Obj? then {}
    else
      var t := Lookup(b.members, "type");
      (if t.Some? then ParseType(t.value).names else {}) + Names(b.members)
  }

  /** Some branch, at any depth, carries a `type`. */
  predicate Typed(ms: seq<Member>)
    decreases SizeMembers(ms), 5
  {
    TypedAt(ms, "allOf") || TypedAt(ms, "anyOf") || TypedAt(ms, "oneOf")
  }

  predicate TypedAt(ms: seq<Member>, kw: string)
    decreases SizeMembers(ms), 4
  {
    match Lookup(ms, kw)
    case Some(Arr(items)) =>
      LookupSize(ms, kw);
      TypedBranches(items)
    case _ => false
  }

  predicate TypedBranches(items: seq<Json>)
    decreases SizeItems(items), 3, |items|
  {
    items != [] && (TypedBranch(items[0]) || TypedBranches(items[1..]))
  }

  predicate TypedBranch(b: Json)
    decreases Size(b), 2
  {
    b.Obj? && (Lookup(b.members, "type").Some? || Typed(b.members))
  }

  // ------------------------------------------------------------------- proofs

  /** The outcome of a readable, or unreadable, piece of composition on what was collected before. */
  function Outcome(out: Decl, bad: bool, typed: bool, names: set<string>): Decl
  {
    if out.malformed then out
    else if bad then MALFORMED
    else Decl(out.present || typed, false, out.names + names)
  }

  lemma {:induction false} CollectExact(ms: seq<Member>, depth: nat, limit: Option<nat>, out: Decl)
    ensures Collect(ms, depth, limit, out)
         == Outcome(out, Unreadable(ms) || TooDeep(ms, depth, limit), Typed(ms), Names(ms))
    decreases SizeMembers(ms), 5
  {
    if out.malformed {
    } else if Beyond(depth, limit) {
      NothingUnread(ms);
    } else {
      hide CollectKeyword, UnreadableAt, TooDeepAt, TypedAt, NamesAt, HasUnread, Outcome;
      CollectKeywordExact(ms, "allOf", depth, limit, out);
      var out1 := CollectKeyword(ms, "allOf", depth, limit, out);
      CollectKeywordExact(ms, "anyOf", depth, limit, out1);
      var out2 := CollectKeyword(ms, "anyOf", depth, limit, out1);
      CollectKeywordExact(ms, "oneOf", depth, limit, out2);
      var bad := (kw: string) => UnreadableAt(ms, kw) || TooDeepAt(ms, kw, depth, limit);
      var typed := (kw: string) => TypedAt(ms, kw);
      var names := (kw: string) => NamesAt(ms, kw);
      OutcomeThrice(out, bad("allOf"), typed("allOf"), names("allOf"), bad("anyOf"), typed("anyOf"), names("anyOf"),
                    bad("oneOf"), typed("oneOf"), names("oneOf"));
    }
  }

  lemma OutcomeThrice(out: Decl, b1: bool, t1: bool, n1: set<string>, b2: bool, t2: bool, n2: set<string>,
                      b3: bool, t3: bool, n3: set<string>)
    ensures Outcome(Outcome(Outcome(out, b1, t1, n1), b2, t2, n2), b3, t3, n3)
         == Outcome(out, b1 || b2 || b3, t1 || t2 || t3, n1 + n2 + n3)
  {
  }

  lemma {:induction false} CollectKeywordExact(ms: seq<Member>, kw: string, depth: nat, limit: Option<nat>, out: Decl)
    ensures CollectKeyword(ms, kw, depth, limit, out)
         == Outcome(out, UnreadableAt(ms, kw) || TooDeepAt(ms, kw, depth, limit), TypedAt(ms, kw), NamesAt(ms, kw))
    decreases SizeMembers(ms), 4
  {
    match Lookup(ms, kw)
    case Some(Arr(items)) =>
      LookupSize(ms, kw);
      CollectBranchesExact(items, depth, limit, out);
    case _ =>
  }

  lemma {:induction false} CollectBranchesExact(items: seq<Json>, depth: nat, limit: Option<nat>, out: Decl)
    ensures CollectBranches(items, depth, limit, out)
         == Outcome(out, UnreadableBranches(items) || TooDeepBranches(items, depth, limit),
                    TypedBranches(items), NamesOfBranches(items))
    decreases SizeItems(items), 3, |items|
  {
    if items == [] {
    } else {
      if !out.malformed {
        CollectBranchExact(items[0], depth, limit, out);
        CollectBranchesExact(items[1..], depth, limit, CollectBranch(items[0], depth, limit, out));
      }
    }
  }

  lemma {:induction false} CollectBranchExact(b: Json, depth: nat, limit: Option<nat>, out: Decl)
    requires !out.malformed
    ensures CollectBranch(b, depth, limit, out)
         == Outcome(out, UnreadableBranch(b) || TooDeepBranch(b, depth, limit), TypedBranch(b), NamesOfBranch(b))
    decreases Size(b), 2
  {
    if b.Obj? {
      match Lookup(b.members, "type")
      case None => CollectExact(b.members, depth + 1, limit, out);
      case Some(t) =>
        if !ParseType(t).malformed {
          CollectExact(b.members, depth + 1, limit, Decl(true, out.malformed, out.names + ParseType(t).names));
        }
    }
  }

  /** Where nothing is unread, there is nothing below to find. */
  lemma NothingUnread(ms: seq<Member>)
    ensures Unreadable(ms) ==> HasUnread(ms)
    ensures !HasUnread(ms) ==> !Typed(ms) && Names(ms) == {}
  {
    NothingUnreadAt(ms, "allOf");
    NothingUnreadAt(ms, "anyOf");
    NothingUnreadAt(ms, "oneOf");
  }

  lemma NothingUnreadAt(ms: seq<Member>, kw: string)
    ensures !UnreadAt(ms, kw) ==> !UnreadableAt(ms, kw) && !TypedAt(ms, kw) && NamesAt(ms, kw) == {}
  {
    match Lookup(ms, kw)
    case Some(Arr(items)) =>
      if !UnreadAt(ms, kw) {
        OnlyBooleans(items);
      }
    case _ =>
  }

  lemma {:induction false} OnlyBooleans(items: seq<Json>)
    requires forall k :: 0 <= k < |items| ==> items[k].Bool?
    ensures !UnreadableBranches(items) && !TypedBranches(items) && NamesOfBranches(items) == {}
  {
    if items == [] {
    } else {
      OnlyBooleans(items[1..]);
    }
  }

  lemma {:induction false} NoLimit(ms: seq<Member>, depth: nat)
    ensures !TooDeep(ms, depth, None)
    decreases SizeMembers(ms), 5
  {
    NoLimitAt(ms, "allOf", depth);
    NoLimitAt(ms, "anyOf", depth);
    NoLimitAt(ms, "oneOf", depth);
  }

  lemma {:induction false} NoLimitAt(ms: seq<Member>, kw: string, depth: nat)
    ensures !TooDeepAt(ms, kw, depth, None)
    decreases SizeMembers(ms), 4
  {
    match Lookup(ms, kw)
    case Some(Arr(items)) =>
      LookupSize(ms, kw);
      NoLimitBranches(items, depth);
    case _ =>
  }

  lemma {:induction false} NoLimitBranches(items: seq<Json>, depth: nat)
    ensures !TooDeepBranches(items, depth, None)
    decreases SizeItems(items), 3, |items|
  {
    if items == [] {
    } else {
      if items[0].Obj? {
        assert Size(items[0]) == 1 + SizeMembers(items[0].members);
        NoLimit(items[0].members, depth + 1);
      }
      NoLimitBranches(items[1..], depth);
    }
  }

  /**
   The depth limit fails closed: it turns the unlimited answer into "malformed"
   exactly when some branch below the limit has composition of its own, and
   changes nothing otherwise.
   */
  lemma LimitFailsClosed(ms: seq<Member>, limit: nat)
    ensures var limited, full := DeclaredTypes(ms, Some(limit)), DeclaredTypes(ms, None);
            limited == if Lookup(ms, "type").None? && TooDeep(ms, 0, Some(limit)) then MALFORMED else full
  {
    CollectExact(ms, 0, Some(limit), ABSENT);
    CollectExact(ms, 0, None, ABSENT);
    NoLimit(ms, 0);
  }

  // ------------------------------------------------------------- exemptions

  /** The type names under which a structural keyword is a bound; empty when any will do. */
  function TypesFor(kw: string): set<string>
  {
    if kw == "minimum" || kw == "maximum" || kw == "exclusiveMinimum" || kw == "exclusiveMaximum"
       || kw == "multipleOf" then {"number", "integer"}
    else if kw == "minLength" || kw == "maxLength" then {"string"}
    else if kw == "minItems" || kw == "maxItems" || kw == "minContains" || kw == "maxContains" then {"array"}
    else if kw == "minProperties" || kw == "maxProperties" then {"object"}
    else {}
  }

  predicate IsStructural(kw: string)
  {
    TypesFor(kw) != {}
  }

  predicate KeywordApplies(kw: string, d: Decl)
  {
    if d.malformed then false
    else if !d.present || d.names == {} then true
    else TypesFor(kw) == {} || TypesFor(kw) * d.names != {}
  }

  /** The limit can only take an exemption away, for every keyword. */
  lemma LimitGrantsNothing(ms: seq<Member>, limit: nat, kw: string)
    ensures KeywordApplies(kw, DeclaredTypes(ms, Some(limit))) ==> KeywordApplies(kw, DeclaredTypes(ms, None))
  {
    LimitFailsClosed(ms, limit);
  }

  /**
   When a node without a `type` of its own is exempt for `kw`: its composition
   is readable, the limit hides none of it, and it names no type or a fitting one.
   */
  lemma ExemptExactly(ms: seq<Member>, limit: nat, kw: string)
    requires Lookup(ms, "type").None? && IsStructural(kw)
    ensures KeywordApplies(kw, DeclaredTypes(ms, Some(limit)))
       <==> !Unreadable(ms) && !TooDeep(ms, 0, Some(limit))
            && (Names(ms) == {} || TypesFor(kw) * Names(ms) != {})
  {
    CollectExact(ms, 0, Some(limit), ABSENT);
    NamesTyped(ms);
  }

  /** The node has a `type`, and it is this name or a list of names with this one among them. */
  predicate TypeIs(ms: seq<Member>, name: string)
  {
    match Lookup(ms, "type")
    case Some(Str(s)) => s == name
    case Some(Arr(items)) => Str(name) in items && forall i :: 0 <= i < |items| ==> items[i].Str?
    case _ => false
  }

  /** When a node with a `type` of its own is exempt for `kw`: one of its names fits, and all of them are names. */
  lemma ExemptByType(ms: seq<Member>, limit: Option<nat>, kw: string)
    requires Lookup(ms, "type").Some? && IsStructural(kw)
    ensures KeywordApplies(kw, DeclaredTypes(ms, limit)) <==> exists name :: name in TypesFor(kw) && TypeIs(ms, name)
  {
    hide TypesFor;
    var d := DeclaredTypes(ms, limit);
    forall name
      ensures TypeIs(ms, name) <==> !d.malformed && name in d.names
    {
      TypeNames(Lookup(ms, "type").value, name);
    }
    OwnNames(Lookup(ms, "type").value);
    hide TypeIs, ParseType;
    if KeywordApplies(kw, d) {
      assert TypesFor(kw) * d.names != {};
      var name :| name in TypesFor(kw) * d.names;
      assert TypeIs(ms, name);
    }
    forall name | name in TypesFor(kw) && TypeIs(ms, name)
      ensures KeywordApplies(kw, d)
    {
      assert name in TypesFor(kw) * d.names;
    }
  }

  lemma TypeNames(t: Json, name: string)
    ensures
      var d := ParseType(t);
      !d.malformed && name in d.names <==>
        t == Str(name) || (t.Arr? && Str(name) in t.items && forall i :: 0 <= i < |t.items| ==> t.items[i].Str?)
  {
  }

  lemma OwnNames(t: Json)
    ensures var d := ParseType(t); d.present && (d.malformed <==> d.names == {})
  {
    if t.Arr? && t.items != [] && t.items[0].Str? && !ParseType(t).malformed {
      assert t.items[0].s in ParseType(t).names;
    }
  }

  predicate EndsWith(s: string, end: string)
  {
    |end| <= |s| && s[|s| - |end|..] == end
  }

  /** What a keyword can bound is in its name; a number where the name says nothing. */
  lemma BoundsByName(kw: string)
    requires IsStructural(kw)
    ensures TypesFor(kw) ==
      if EndsWith(kw, "Length") then {"string"}
      else if EndsWith(kw, "Items") || EndsWith(kw, "Contains") then {"array"}
      else if EndsWith(kw, "Properties") then {"object"}
      else {"number", "integer"}
  {
    hide EndsWith;
    if kw == "minLength" || kw == "maxLength" {
      LengthNames(kw);
    } else if kw == "minItems" || kw == "maxItems" || kw == "minContains" || kw == "maxContains" {
      ArrayNames(kw);
    } else if kw == "minProperties" || kw == "maxProperties" {
      PropertyNames(kw);
    } else {
      NumberNames(kw);
    }
  }

  lemma LengthNames(kw: string)
    requires kw == "minLength" || kw == "maxLength"
    ensures EndsWith(kw, "Length")
  {
    assert kw[3..] == "Length";
  }

  lemma ArrayNames(kw: string)
    requires kw == "minItems" || kw == "maxItems" || kw == "minContains" || kw == "maxContains"
    ensures !EndsWith(kw, "Length") && (EndsWith(kw, "Items") || EndsWith(kw, "Contains"))
  {
    assert kw[|kw| - 1] == 's' && "Length"[5] == 'h';
    LastIs(kw, "Length");
    assert kw[3..] == "Items" || kw[3..] == "Contains";
  }

  lemma PropertyNames(kw: string)
    requires kw == "minProperties" || kw == "maxProperties"
    ensures !EndsWith(kw, "Length") && !EndsWith(kw, "Items") && !EndsWith(kw, "Contains") && EndsWith(kw, "Properties")
  {
    LastIs(kw, "Length");
    assert kw[3..] == "Properties";
    assert kw[8..][0] == 'r' && kw[5..][7] == 's' && kw[5..][6] == 'e';
  }

  lemma NumberNames(kw: string)
    requires kw in ["minimum", "maximum", "exclusiveMinimum", "exclusiveMaximum", "multipleOf"]
    ensures !EndsWith(kw, "Length") && !EndsWith(kw, "Items") && !EndsWith(kw, "Contains") && !EndsWith(kw, "Properties")
  {
    assert kw[|kw| - 1] == 'm' || kw[|kw| - 1] == 'f';
    LastIs(kw, "Length");
    LastIs(kw, "Items");
    LastIs(kw, "Contains");
    LastIs(kw, "Properties");
  }

  lemma LastIs(s: string, end: string)
    requires end != "" && s != ""
    ensures EndsWith(s, end) ==> s[|s| - 1] == end[|end| - 1]
  {
    if EndsWith(s, end) {
      assert s[|s| - |end|..][|end| - 1] == s[|s| - 1];
    }
  }

  lemma {:induction false} NamesTyped(ms: seq<Member>)
    ensures Names(ms) != {} ==> Typed(ms)
    decreases SizeMembers(ms), 5
  {
    NamesTypedAt(ms, "allOf");
    NamesTypedAt(ms, "anyOf");
    NamesTypedAt(ms, "oneOf");
  }

  lemma {:induction false} NamesTypedAt(ms: seq<Member>, kw: string)
    ensures NamesAt(ms, kw) != {} ==> TypedAt(ms, kw)
    decreases SizeMembers(ms), 4
  {
    match Lookup(ms, kw)
    case Some(Arr(items)) =>
      LookupSize(ms, kw);
      NamesTypedBranches(items);
    case _ =>
  }

  lemma {:induction false} NamesTypedBranches(items: seq<Json>)
    ensures NamesOfBranches(items) != {} ==> TypedBranches(items)
    decreases SizeItems(items), 3, |items|
  {
    if items == [] {
    } else {
      if items[0].Obj? {
        assert Size(items[0]) == 1 + SizeMembers(items[0].members);
        NamesTyped(items[0].members);
        assert NamesOfBranch(items[0]) != {} ==> TypedBranch(items[0]);
      }
      NamesTypedBranches(items[1..]);
      if NamesOfBranch(items[0]) == {} {
        assert NamesOfBranches(items) == NamesOfBranches(items[1..]);
      }
    }
  }

  // ---------------------------------------------------------- the code's loop

  /** The one-element list the collector shares with its recursive calls. */
  class TypeCell {
    var decl: Decl

    constructor (d: Decl)
      ensures decl == d
    {
      decl := d;
    }
  }

  method CollectCompositionTypes(ms: seq<Member>, depth: nat, out: TypeCell)
    modifies out
    ensures out.decl == Collect(ms, depth, Some(MAX_DEPTH), old(out.decl))
    decreases SizeMembers(ms)
  {
    hide HasUnread, ParseType, Lookup;
    if out.decl.malformed {
      return;
    }
    if depth > MAX_DEPTH {
      if HasUnread(ms) {
        out.decl := MALFORMED;
      }
      return;
    }
    ghost var limit := Some(MAX_DEPTH);
    ghost var d0 := out.decl;
    ghost var d1 := CollectKeyword(ms, "allOf", depth, limit, d0);
    ghost var d2 := CollectKeyword(ms, "anyOf", depth, limit, d1);
    for k := 0 to |KEYWORDS|
      invariant !out.decl.malformed
      invariant out.decl == if k == 0 then d0 else if k == 1 then d1 else if k == 2 then d2
                            else Collect(ms, depth, limit, d0)
    {
      ghost var want := CollectKeyword(ms, KEYWORDS[k], depth, limit, out.decl);
      match Lookup(ms, KEYWORDS[k])
      case None =>
      case Some(Arr(items)) =>
        LookupSize(ms, KEYWORDS[k]);
        if items == [] {
          out.decl := MALFORMED;
          return;
        }
        for i := 0 to |items|
          invariant !out.decl.malformed
          invariant CollectBranches(items[i..], depth, limit, out.decl) == want
        {
          SizeItem(items, i);
          match items[i]
          case Bool(_) =>
          case Obj(bm) =>
            if Lookup(bm, "type").Some? {
              var d := ParseType(Lookup(bm, "type").value);
              if d.malformed {
                out.decl := MALFORMED;
                return;
              }
              out.decl := Decl(true, out.decl.malformed, out.decl.names + d.names);
            }
            CollectCompositionTypes(bm, depth + 1, out);
            if out.decl.malformed {
              return;
            }
          case _ =>
            out.decl := MALFORMED;
            return;
        }
      case Some(_) =>
        out.decl := MALFORMED;
        return;
    }
  }
}
