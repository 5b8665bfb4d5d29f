/**
 The parsed tree bin/lucairn-tool-schema-guard.py walks: objects keep their
 members in the order they were written, so a repeated key is visible, and
 numbers keep their literal text.  `Entries` is the decoded view of an object:
 the last member of each name, in the order of the names.
 */
module JsonTree {
  import opened Wrappers

  datatype Json =
    | Null
    | Bool(b: bool)
    | Num(lit: string)
    | Str(s: string)
    | Arr(items: seq<Json>)
    | Obj(members: seq<Member>)

  datatype Member = Member(key: string, value: Json)

  // ------------------------------------------------------------------ size

  /** Number of values in a tree, itself included. */
  function Size(j: Json): (n: nat)
    ensures n >= 1
    decreases j, 0
  {
    match j
    case Arr(items) => 1 + SizeItems(items)
    case Obj(members) => 1 + SizeMembers(members)
    case _ => 1
  }

  function SizeItems(items: seq<Json>): nat
  {
    if items == [] then 0 else Size(items[0]) + SizeItems(items[1..])
  }

  function SizeMembers(ms: seq<Member>): nat
  {
    if ms == [] then 0 else Size(ms[0].value) + SizeMembers(ms[1..])
  }

  lemma {:induction false} SizeItem(items: seq<Json>, k: nat)
    requires k < |items|
    ensures Size(items[k]) <= SizeItems(items)
  {
    if k == 0 {
    } else {
      SizeItem(items[1..], k - 1);
    }
  }

  lemma {:induction false} SizeMember(ms: seq<Member>, k: nat)
    requires k < |ms|
    ensures Size(ms[k].value) <= SizeMembers(ms)
  {
    if k == 0 {
    } else {
      SizeMember(ms[1..], k - 1);
    }
  }

  lemma {:induction false} SizeConcat(a: seq<Member>, b: seq<Member>)
    ensures SizeMembers(a + b) == SizeMembers(a) + SizeMembers(b)
  {
    if a == [] {
      assert a + b == b;
    } else {
      assert (a + b)[1..] == a[1..] + b;
      SizeConcat(a[1..], b);
    }
  }

  // ---------------------------------------------------- names and their order

  /** Code-point order of strings. */
  predicate Less(a: string, b: string)
  {
    if b == "" then false
    else if a == "" then true
    else if a[0] != b[0] then a[0] < b[0]
    else Less(a[1..], b[1..])
  }

  lemma {:induction false} LessTotal(a: string, b: string)
    ensures a == b || Less(a, b) || Less(b, a)
    ensures Less(a, b) ==> a != b
  {
    if a != "" && b != "" && a[0] == b[0] {
      LessTotal(a[1..], b[1..]);
      assert a == [a[0]] + a[1..] && b == [b[0]] + b[1..];
    }
  }

  /** The texts agree up to `k`, and there the one ends or has the smaller character. */
  predicate LessAt(a: string, b: string, k: nat)
  {
    k <= |a| && k < |b| && a[..k] == b[..k] && (k == |a| || a[k] < b[k])
  }

  lemma SameFirst(a: string, b: string, k: nat)
    requires 0 < k <= |a| && k <= |b| && a[..k] == b[..k]
    ensures a[0] == b[0]
  {
    assert a[..k][0] == a[0] && b[..k][0] == b[0];
  }

  lemma {:induction false} LessExactly(a: string, b: string)
    ensures Less(a, b) <==> exists k: nat :: LessAt(a, b, k)
  {
    if b == "" {
    } else if a == "" || a[0] != b[0] {
      assert LessAt(a, b, 0) <==> a == "" || a[0] < b[0];
      if k: nat :| LessAt(a, b, k) && k > 0 {
        SameFirst(a, b, k);
      }
    } else {
      LessExactly(a[1..], b[1..]);
      if k: nat :| LessAt(a[1..], b[1..], k) {
        assert a[..k + 1] == [a[0]] + a[1..][..k] && b[..k + 1] == [b[0]] + b[1..][..k];
        assert LessAt(a, b, k + 1);
      }
      if k: nat :| LessAt(a, b, k) {
        assert k > 0 && a[1..][..k - 1] == a[..k][1..] && b[1..][..k - 1] == b[..k][1..];
        assert LessAt(a[1..], b[1..], k - 1);
      }
    }
  }

  lemma {:induction false} LessTransitive(a: string, b: string, c: string)
    requires Less(a, b) && Less(b, c)
    ensures Less(a, c)
  {
    if a != "" && a[0] == b[0] && b[0] == c[0] {
      LessTransitive(a[1..], b[1..], c[1..]);
    }
  }

  /** The value of the last member named `k`, as a dictionary would keep it. */
  function Lookup(ms: seq<Member>, k: string): (v: Option<Json>)
    ensures v.Some? ==> exists i :: 0 <= i < |ms| && ms[i] == Member(k, v.value)
    ensures v.None? ==> forall i :: 0 <= i < |ms| ==> ms[i].key != k
  {
    if ms == [] then None
    else if ms[|ms| - 1].key == k then
      assert ms[|ms| - 1] == Member(k, ms[|ms| - 1].value);
      Some(ms[|ms| - 1].value)
    else Lookup(ms[..|ms| - 1], k)
  }

  lemma LookupSize(ms: seq<Member>, k: string)
    requires Lookup(ms, k).Some?
    ensures Size(Lookup(ms, k).value) <= SizeMembers(ms)
  {
    var i :| 0 <= i < |ms| && ms[i] == Member(k, Lookup(ms, k).value);
    SizeMember(ms, i);
  }

  predicate Sorted(es: seq<Member>)
  {
    forall i, j :: 0 <= i < j < |es| ==> Less(es[i].key, es[j].key)
  }

  /** Put a member into a sorted list; one of the same name is replaced. */
  function Put(es: seq<Member>, m: Member): (r: seq<Member>)
    ensures forall x :: x in r ==> x == m || x in es
  {
    if es == [] then [m]
    else if m.key == es[0].key then [m] + es[1..]
    else if Less(m.key, es[0].key) then [m] + es
    else [es[0]] + Put(es[1..], m)
  }

  /** The decoded view of an object: sorted by name, the last of each name. */
  function Entries(ms: seq<Member>): (es: seq<Member>)
    ensures forall x :: x in es ==> x in ms
  {
    if ms == [] then [] else Put(Entries(ms[..|ms| - 1]), ms[|ms| - 1])
  }

  predicate Has(ms: seq<Member>, k: string)
  {
    exists i :: 0 <= i < |ms| && ms[i].key == k
  }

  lemma {:induction false} PutSorted(es: seq<Member>, m: Member)
    requires Sorted(es)
    ensures Sorted(Put(es, m))
    ensures forall k :: Has(Put(es, m), k) <==> k == m.key || Has(es, k)
  {
    if es == [] {
      assert [m] + es == [m];
      HasCons(m, es);
    } else {
      assert es == [es[0]] + es[1..];
      LessTotal(m.key, es[0].key);
      if m.key == es[0].key {
        HasCons(m, es[1..]);
        HasCons(es[0], es[1..]);
      } else if Less(m.key, es[0].key) {
        forall j | 1 <= j < |es| ensures Less(m.key, es[j].key) {
          LessTransitive(m.key, es[0].key, es[j].key);
        }
        HasCons(m, es);
      } else {
        PutSorted(es[1..], m);
        PutAbove(es, m);
      }
    }
  }

  lemma HasCons(m: Member, es: seq<Member>)
    ensures forall k :: Has([m] + es, k) <==> k == m.key || Has(es, k)
  {
    var r := [m] + es;
    forall k ensures Has(r, k) <==> k == m.key || Has(es, k) {
      if Has(es, k) {
        var i :| 0 <= i < |es| && es[i].key == k;
        assert r[i + 1].key == k;
      }
      if k == m.key {
        assert r[0].key == k;
      }
    }
  }

  lemma PutAbove(es: seq<Member>, m: Member)
    requires es != [] && Sorted(es) && Less(es[0].key, m.key) && Sorted(Put(es[1..], m))
    requires forall k :: Has(Put(es[1..], m), k) <==> k == m.key || Has(es[1..], k)
    ensures Sorted([es[0]] + Put(es[1..], m))
    ensures forall k :: Has([es[0]] + Put(es[1..], m), k) <==> k == m.key || Has(es, k)
  {
    var rest := Put(es[1..], m);
    forall j | 0 <= j < |rest| ensures Less(es[0].key, rest[j].key) {
      assert rest[j] in rest;
    }
    HasCons(es[0], rest);
    HasCons(es[0], es[1..]);
    assert es == [es[0]] + es[1..];
  }

  lemma {:induction false} EntriesSorted(ms: seq<Member>)
    ensures Sorted(Entries(ms))
    ensures forall k :: Has(Entries(ms), k) <==> Has(ms, k)
  {
    if ms == [] {
    } else {
      var init, last := ms[..|ms| - 1], ms[|ms| - 1];
      EntriesSorted(init);
      PutSorted(Entries(init), last);
      assert ms == init + [last];
      forall k ensures Has(ms, k) <==> k == last.key || Has(init, k) {
        if Has(init, k) {
          var i :| 0 <= i < |init| && init[i].key == k;
          assert ms[i].key == k;
        }
      }
    }
  }

  /** The decoded view holds, for each name, what a dictionary lookup gives. */
  lemma {:induction false} EntriesAreLookups(ms: seq<Member>)
    ensures forall e :: e in Entries(ms) <==> Lookup(ms, e.key) == Some(e.value)
  {
    if ms == [] {
    } else {
      var init, last := ms[..|ms| - 1], ms[|ms| - 1];
      EntriesAreLookups(init);
      EntriesSorted(init);
      PutMembers(Entries(init), last);
      forall e: Member ensures e in Entries(ms) <==> Lookup(ms, e.key) == Some(e.value) {
        assert e in Entries(init) <==> Lookup(init, e.key) == Some(e.value);
      }
    }
  }

  lemma {:induction false} PutMembers(es: seq<Member>, m: Member)
    requires Sorted(es)
    ensures forall x :: x in Put(es, m) <==> x == m || (x in es && x.key != m.key)
  {
    if es == [] {
    } else {
      assert es == [es[0]] + es[1..];
      forall j | 1 <= j < |es| ensures es[j].key != es[0].key {
        LessTotal(es[0].key, es[j].key);
      }
      LessTotal(m.key, es[0].key);
      if Less(m.key, es[0].key) {
        forall j | 1 <= j < |es| ensures es[j].key != m.key {
          LessTransitive(m.key, es[0].key, es[j].key);
          LessTotal(m.key, es[j].key);
        }
      } else if m.key != es[0].key {
        PutMembers(es[1..], m);
      }
    }
  }

  // ------------------------------------------------------------ repeated names

  predicate DistinctKeys(ms: seq<Member>)
  {
    forall i, j :: 0 <= i < j < |ms| ==> ms[i].key != ms[j].key
  }

  lemma {:induction false} PutSize(es: seq<Member>, m: Member)
    ensures SizeMembers(Put(es, m)) <= SizeMembers(es) + Size(m.value)
    ensures !Has(es, m.key) ==> SizeMembers(Put(es, m)) == SizeMembers(es) + Size(m.value)
  {
    if es == [] {
    } else {
      assert es == [es[0]] + es[1..];
      if m.key == es[0].key {
        assert Has(es, m.key);
      } else if !Less(m.key, es[0].key) {
        PutSize(es[1..], m);
        HasCons(es[0], es[1..]);
      }
    }
  }

  /** Decoding never adds anything, and loses nothing when no name is repeated. */
  lemma {:induction false} EntriesSize(ms: seq<Member>)
    ensures SizeMembers(Entries(ms)) <= SizeMembers(ms)
    ensures DistinctKeys(ms) ==> SizeMembers(Entries(ms)) == SizeMembers(ms)
    ensures DistinctKeys(ms) ==> forall x :: x in ms ==> x in Entries(ms)
  {
    if ms == [] {
    } else {
      var init, last := ms[..|ms| - 1], ms[|ms| - 1];
      assert ms == init + [last];
      EntriesSize(init);
      PutSize(Entries(init), last);
      SizeConcat(init, [last]);
      EntriesSorted(init);
      PutMembers(Entries(init), last);
      if DistinctKeys(ms) {
        assert !Has(Entries(init), last.key);
      }
    }
  }
}
