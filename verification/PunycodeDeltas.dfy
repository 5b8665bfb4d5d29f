/**
 The list of deltas of RFC 3492, apart from its digits.

 `Deltas` never scans: it peels off the rightmost largest code point, which is
 the last one a decoder inserts.  `Apply` is the decoder's insertion.  The two
 are inverse to each other on all lists.
 */
module PunycodeDeltas {
  import opened PunycodeDigits

  /** The part of `s` below `n`, in order: `Below(s, 0x80)` is the basic part. */
  function Below(s: seq<int>, n: int): (r: seq<int>)
    ensures |r| <= |s|
    ensures forall k :: 0 <= k < |r| ==> r[k] < n
  {
    if s == [] then []
    else if s[|s| - 1] < n then Below(s[..|s| - 1], n) + [s[|s| - 1]]
    else Below(s[..|s| - 1], n)
  }

  /** Rightmost position of a largest element: the last one a decoder inserted. */
  function LastMax(s: seq<int>): (p: nat)
    requires s != []
    ensures p < |s|
    ensures forall k :: 0 <= k < |s| ==> s[k] <= s[p]
    ensures forall k :: p < k < |s| ==> s[k] < s[p]
  {
    if |s| == 1 then 0
    else
      var m := LastMax(s[..|s| - 1]);
      if s[|s| - 1] >= s[m] then |s| - 1 else m
  }

  predicate AllBasic(s: seq<int>)
  {
    forall k :: 0 <= k < |s| ==> s[k] < INITIAL_N
  }

  /** What the decoder's `n` is once `s` is the output: the largest code point, if not basic. */
  function NOf(s: seq<int>): (n: int)
    ensures n >= INITIAL_N
    ensures forall k :: 0 <= k < |s| ==> s[k] <= n
  {
    if AllBasic(s) then INITIAL_N else s[LastMax(s)]
  }

  /** What the decoder's `i` is once `s` is the output: just behind the last insertion. */
  function IOf(s: seq<int>): (i: nat)
    ensures i <= |s|
  {
    if AllBasic(s) then 0 else LastMax(s) + 1
  }

  function Without(s: seq<int>, p: nat): (r: seq<int>)
    requires p < |s|
    ensures |r| == |s| - 1
    ensures forall k :: 0 <= k < |r| ==> r[k] == if k < p then s[k] else s[k + 1]
  {
    s[..p] + s[p + 1..]
  }

  function With(s: seq<int>, p: nat, n: int): (r: seq<int>)
    requires p <= |s|
    ensures |r| == |s| + 1
    ensures forall k :: 0 <= k < |r| ==> r[k] == if k < p then s[k] else if k == p then n else s[k - 1]
  {
    s[..p] + [n] + s[p..]
  }

  lemma LastMaxUnique(s: seq<int>, p: nat)
    requires p < |s|
    requires forall k :: 0 <= k < |s| ==> s[k] <= s[p]
    requires forall k :: p < k < |s| ==> s[k] < s[p]
    ensures LastMax(s) == p
  {
    assert s[p] <= s[LastMax(s)];
  }

  /** The delta of inserting `n` at `p` into `s`: how often the decoder's state must advance. */
  function Gap(s: seq<int>, p: nat, n: int): int
  {
    (n - NOf(s)) * (|s| + 1) + p - IOf(s)
  }

  /** `n` at `p` comes after everything in `s` in (code point, position) order. */
  predicate Latest(s: seq<int>, p: nat, n: int)
  {
    && p <= |s| && n >= INITIAL_N
    && (forall k :: 0 <= k < |s| ==> s[k] <= n)
    && (forall k :: p <= k < |s| ==> s[k] < n)
  }

  lemma GapNonneg(s: seq<int>, p: nat, n: int)
    requires Latest(s, p, n)
    ensures Gap(s, p, n) >= 0
  {
    if n > NOf(s) {
      Scaled(n - NOf(s), |s| + 1);
    }
  }

  lemma WithWithout(s: seq<int>, p: nat)
    requires p < |s|
    ensures With(Without(s, p), p, s[p]) == s
  {
  }

  lemma PeeledIsLatest(s: seq<int>)
    requires !AllBasic(s)
    ensures Latest(Without(s, LastMax(s)), LastMax(s), s[LastMax(s)])
  {
    var p := LastMax(s);
    var r := Without(s, p);
    assert s[p] >= INITIAL_N by {
      var b :| 0 <= b < |s| && s[b] >= INITIAL_N;
      assert s[b] <= s[p];
    }
  }

  /** The deltas that spell the non-basic part of `s`. */
  function Deltas(s: seq<int>): (ds: seq<nat>)
    decreases |s|
  {
    if AllBasic(s) then []
    else
      var p := LastMax(s);
      PeeledIsLatest(s);
      GapNonneg(Without(s, p), p, s[p]);
      Deltas(Without(s, p)) + [Gap(Without(s, p), p, s[p])]
  }

  datatype State = State(output: seq<int>, n: int, i: nat)

  /** One insertion of the decoder. */
  function Insert(st: State, d: nat): (st': State)
    requires st.i <= |st.output|
    ensures |st'.output| == |st.output| + 1 && 0 < st'.i <= |st'.output|
    ensures st'.n >= st.n
  {
    var size := |st.output| + 1;
    var n := st.n + Quot(st.i + d, size);
    var p := Rem(st.i + d, size);
    State(With(st.output, p, n), n, p + 1)
  }

  /** The decoder's state after the deltas `ds`, starting from the basic code points. */
  function Apply(basic: seq<int>, ds: seq<nat>): (st: State)
    ensures |st.output| == |basic| + |ds| && st.i <= |st.output|
    ensures st.i == 0 <==> ds == []
    ensures st.n >= INITIAL_N
  {
    if ds == [] then State(basic, INITIAL_N, 0)
    else Insert(Apply(basic, ds[..|ds| - 1]), ds[|ds| - 1])
  }

  lemma {:induction false} BelowWith(s: seq<int>, p: nat, n: int, bound: int)
    requires p <= |s| && n >= bound
    ensures Below(With(s, p, n), bound) == Below(s, bound)
    decreases |s|
  {
    var r := With(s, p, n);
    if p == |s| {
      assert r[..|r| - 1] == s;
    } else {
      assert r[..|r| - 1] == With(s[..|s| - 1], p, n);
      BelowWith(s[..|s| - 1], p, n, bound);
    }
  }

  lemma {:induction false} BelowAll(s: seq<int>, n: int)
    requires forall k :: 0 <= k < |s| ==> s[k] < n
    ensures Below(s, n) == s
  {
    if s == [] {
    } else {
      BelowAll(s[..|s| - 1], n);
    }
  }

  lemma WithoutWith(s: seq<int>, p: nat, n: int)
    requires p <= |s|
    ensures Without(With(s, p, n), p) == s
  {
  }

  lemma LastMaxOfWith(s: seq<int>, p: nat, n: int)
    requires Latest(s, p, n)
    ensures LastMax(With(s, p, n)) == p && !AllBasic(With(s, p, n))
  {
    assert With(s, p, n)[p] == n;
    LastMaxUnique(With(s, p, n), p);
  }

  /** An insertion that comes after all others is the one `Deltas` peels off. */
  lemma DeltasOfWith(s: seq<int>, p: nat, n: int)
    requires Latest(s, p, n)
    ensures Gap(s, p, n) >= 0
    ensures Deltas(With(s, p, n)) == Deltas(s) + [Gap(s, p, n)]
    ensures NOf(With(s, p, n)) == n && IOf(With(s, p, n)) == p + 1
  {
    GapNonneg(s, p, n);
    LastMaxOfWith(s, p, n);
    WithoutWith(s, p, n);
  }

  /** `n` and `i` are what the output says they are. */
  predicate Consistent(st: State)
  {
    st.n == NOf(st.output) && st.i == IOf(st.output)
  }

  /** `st'` is `st` after an insertion behind all others, at distance `d`. */
  predicate Follows(st: State, d: nat, st': State)
  {
    && st'.i > 0 && Latest(st.output, st'.i - 1, st'.n)
    && Gap(st.output, st'.i - 1, st'.n) == d
    && st'.output == With(st.output, st'.i - 1, st'.n)
  }

  lemma StepIsLatest(s: seq<int>, d: nat, q: nat, r: nat)
    requires r <= |s| && IOf(s) + d == q * (|s| + 1) + r
    ensures Latest(s, r, NOf(s) + q) && Gap(s, r, NOf(s) + q) == d
  {
    if q == 0 {
      assert r >= IOf(s);
    }
  }

  /** Inserting by delta lands behind everything inserted before. */
  lemma InsertIsLatest(st: State, d: nat)
    requires Consistent(st)
    ensures Follows(st, d, Insert(st, d))
  {
    hide Quot, Rem, Latest, Gap, With, NOf, IOf;
    var size := |st.output| + 1;
    var x := st.i + d;
    QuotRem(x, size);
    StepIsLatest(st.output, d, Quot(x, size), Rem(x, size));
  }

  lemma FollowsGrows(st: State, d: nat, st': State)
    requires Consistent(st) && Follows(st, d, st')
    ensures Consistent(st') && Deltas(st'.output) == Deltas(st.output) + [d]
    ensures Below(st'.output, INITIAL_N) == Below(st.output, INITIAL_N)
  {
    DeltasOfWith(st.output, st'.i - 1, st'.n);
    BelowWith(st.output, st'.i - 1, st'.n, INITIAL_N);
  }

  lemma InsertGrows(st: State, d: nat, st': State)
    requires Consistent(st) && st' == Insert(st, d)
    ensures Consistent(st') && Deltas(st'.output) == Deltas(st.output) + [d]
    ensures Below(st'.output, INITIAL_N) == Below(st.output, INITIAL_N)
  {
    InsertIsLatest(st, d);
    FollowsGrows(st, d, st');
  }

  /** The gap of a latest insertion, applied, makes exactly that insertion. */
  lemma InsertGap(st: State, p: nat, n: int)
    requires Consistent(st) && Latest(st.output, p, n)
    ensures Gap(st.output, p, n) >= 0
    ensures Insert(st, Gap(st.output, p, n)) == State(With(st.output, p, n), n, p + 1)
  {
    hide Quot, Rem, With, NOf, IOf;
    GapNonneg(st.output, p, n);
    var size := |st.output| + 1;
    Division(st.i + Gap(st.output, p, n), size, n - st.n, p);
  }

  /** Decoding the deltas of `s` on top of its basic part gives `s`. */
  lemma {:induction false} ApplyDeltas(s: seq<int>)
    ensures Apply(Below(s, INITIAL_N), Deltas(s)) == State(s, NOf(s), IOf(s))
    decreases |s|
  {
    if AllBasic(s) {
      BelowAll(s, INITIAL_N);
    } else {
      var p := LastMax(s);
      var s' := Without(s, p);
      PeeledIsLatest(s);
      WithWithout(s, p);
      BelowWith(s', p, s[p], INITIAL_N);
      ApplyDeltas(s');
      InsertGap(State(s', NOf(s'), IOf(s')), p, s[p]);
      assert Deltas(s)[..|Deltas(s)| - 1] == Deltas(s');
    }
  }

  /** `st` is what `basic` and `ds` spell, and it spells nothing else. */
  predicate Spells(basic: seq<int>, ds: seq<nat>, st: State)
  {
    Deltas(st.output) == ds && Below(st.output, INITIAL_N) == basic && Consistent(st)
  }

  lemma SpellsStep(basic: seq<int>, ds: seq<nat>, st: State, d: nat, st': State)
    requires Spells(basic, ds, st) && st' == Insert(st, d)
    ensures Spells(basic, ds + [d], st')
  {
    InsertGrows(st, d, st');
  }

  /** Any list of deltas is the list of deltas of what it decodes to. */
  lemma {:induction false} DeltasApply(basic: seq<int>, ds: seq<nat>)
    requires AllBasic(basic)
    ensures Spells(basic, ds, Apply(basic, ds))
    decreases |ds|
  {
    if ds == [] {
      BelowAll(basic, INITIAL_N);
    } else {
      var ds', d := ds[..|ds| - 1], ds[|ds| - 1];
      assert ds == ds' + [d];
      DeltasApply(basic, ds');
      SpellsStep(basic, ds', Apply(basic, ds'), d, Apply(basic, ds));
    }
  }
}
