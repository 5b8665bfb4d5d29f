/**
 The expiring maps of the dashboard: what session.go and oidc_state.go have in
 common.  The collector computes its cutoff before it takes the lock, so the
 two are separate events here and anything may happen in between.
 */
module Expiring {
  import opened Wrappers

  datatype Entry<V> = Entry(value: V, stamp: int)

  /**
   One critical section, with the clock readings made for it.  `Insert` carries
   a reading made before the lock was taken; `Sweep` carries a cutoff made by an
   earlier `Cutoff`.
   */
  datatype Event<V> =
    | Insert(id: string, value: V, t: int)
    | Get(id: string, t: int)
    | Touch(id: string, t: int, later: int)
    | GetAndTouch(id: string, t: int, later: int)
    | Consume(id: string, t: int)
    | Delete(id: string)
    | Cutoff(t: int)
    | Sweep(cutoff: int)

  datatype Answer<V> = Silence | Refreshed(ok: bool) | Got(entry: Option<Entry<V>>)

  predicate Expired(life: int, stamp: int, t: int)
  {
    t - stamp > life
  }

  /** The entry for `id`, if there is one that has not expired. */
  function Live<V>(life: int, m: map<string, Entry<V>>, id: string, t: int): Option<Entry<V>>
  {
    if id in m && !Expired(life, m[id].stamp, t) then Some(m[id]) else None
  }

  /** What a refresh leaves behind: a later stamp, or no entry. */
  function Refresh<V>(life: int, m: map<string, Entry<V>>, id: string, t: int, later: int): map<string, Entry<V>>
  {
    if Live(life, m, id, t).Some? then m[id := m[id].(stamp := later)] else m - {id}
  }

  function Apply<V>(life: int, m: map<string, Entry<V>>, e: Event<V>): map<string, Entry<V>>
  {
    match e
    case Insert(id, value, t) => m[id := Entry(value, t)]
    case Get(_, _) => m
    case Touch(id, t, later) => Refresh(life, m, id, t, later)
    case GetAndTouch(id, t, later) => Refresh(life, m, id, t, later)
    case Consume(id, _) => m - {id}
    case Delete(id) => m - {id}
    case Cutoff(_) => m
    case Sweep(cutoff) => map id | id in m && m[id].stamp >= cutoff :: m[id]
  }

  function Reply<V>(life: int, m: map<string, Entry<V>>, e: Event<V>): Answer<V>
  {
    match e
    case Get(id, t) => Got(Live(life, m, id, t))
    case Touch(id, t, _) => Refreshed(Live(life, m, id, t).Some?)
    case GetAndTouch(id, t, later) =>
      var live := Live(life, m, id, t);
      Got(if live.Some? then Some(live.value.(stamp := later)) else None)
    case Consume(id, t) => Got(Live(life, m, id, t))
    case _ => Silence
  }

  /** The answers of a whole history, with the collector at work or without it. */
  function Answers<V>(life: int, m: map<string, Entry<V>>, es: seq<Event<V>>, collects: bool): (r: seq<Answer<V>>)
    ensures |r| == |es|
    decreases |es|
  {
    if es == [] then []
    else
      [Reply(life, m, es[0])]
      + Answers(life, if es[0].Sweep? && !collects then m else Apply(life, m, es[0]), es[1..], collects)
  }

  // --- Clocks --------------------------------------------------------------------

  /** The latest reading of the clock after this event. */
  function Clock<V>(now: int, e: Event<V>): int
  {
    match e
    case Insert(_, _, t) => if t > now then t else now
    case Get(_, t) => t
    case Touch(_, _, later) => later
    case GetAndTouch(_, _, later) => later
    case Consume(_, t) => t
    case Delete(_) => now
    case Cutoff(t) => t
    case Sweep(_) => now
  }

  /** The clock does not go back, and a sweep uses a cutoff that was computed before. */
  predicate Timely<V>(life: int, now: int, cutoffs: set<int>, e: Event<V>)
  {
    match e
    case Insert(_, _, _) => true
    case Get(_, t) => now <= t
    case Touch(_, t, later) => now <= t <= later
    case GetAndTouch(_, t, later) => now <= t <= later
    case Consume(_, t) => now <= t
    case Delete(_) => true
    case Cutoff(t) => now <= t
    case Sweep(cutoff) => cutoff in cutoffs
  }

  function Cutoffs<V>(life: int, cutoffs: set<int>, e: Event<V>): set<int>
  {
    if e.Cutoff? then cutoffs + {e.t - life} else cutoffs
  }

  predicate AllTimely<V>(life: int, now: int, cutoffs: set<int>, es: seq<Event<V>>)
    decreases |es|
  {
    es == [] || (Timely(life, now, cutoffs, es[0])
                 && AllTimely(life, Clock(now, es[0]), Cutoffs(life, cutoffs, es[0]), es[1..]))
  }

  predicate Past(life: int, now: int, cutoffs: set<int>)
  {
    forall c :: c in cutoffs ==> c <= now - life
  }

  // --- The collector is invisible ----------------------------------------------------

  /** `a` is `b` less some entries that have expired. */
  ghost predicate Tidied<V>(life: int, now: int, a: map<string, Entry<V>>, b: map<string, Entry<V>>)
  {
    && (forall id :: id in a ==> id in b && a[id] == b[id])
    && (forall id :: id in b && id !in a ==> Expired(life, b[id].stamp, now))
  }

  lemma TidiedAnswers<V>(life: int, now: int, cutoffs: set<int>, a: map<string, Entry<V>>, b: map<string, Entry<V>>,
                         e: Event<V>)
    requires Tidied(life, now, a, b) && Timely(life, now, cutoffs, e)
    ensures Reply(life, a, e) == Reply(life, b, e)
  {
  }

  lemma TidiedStays<V>(life: int, now: int, cutoffs: set<int>, a: map<string, Entry<V>>, b: map<string, Entry<V>>,
                       e: Event<V>)
    requires Tidied(life, now, a, b) && Timely(life, now, cutoffs, e) && Past(life, now, cutoffs)
    ensures Past(life, Clock(now, e), Cutoffs(life, cutoffs, e))
    ensures Tidied(life, Clock(now, e), Apply(life, a, e), if e.Sweep? then b else Apply(life, b, e))
  {
  }

  lemma {:induction false} TidiedRuns<V>(life: int, now: int, cutoffs: set<int>, a: map<string, Entry<V>>,
                                         b: map<string, Entry<V>>, es: seq<Event<V>>)
    requires Tidied(life, now, a, b) && Past(life, now, cutoffs) && AllTimely(life, now, cutoffs, es)
    ensures Answers(life, a, es, true) == Answers(life, b, es, false)
    decreases |es|
  {
    hide Tidied, Past, Timely, Apply, Reply, Clock, Cutoffs;
    if es == [] {
    } else {
      var e := es[0];
      TidiedAnswers(life, now, cutoffs, a, b, e);
      TidiedStays(life, now, cutoffs, a, b, e);
      TidiedRuns(life, Clock(now, e), Cutoffs(life, cutoffs, e), Apply(life, a, e),
                 if e.Sweep? then b else Apply(life, b, e), es[1..]);
    }
  }

  /** Every answer is the one that would have been given had nothing ever been collected. */
  lemma CollectorIsInvisible<V>(life: int, now: int, es: seq<Event<V>>)
    requires AllTimely(life, now, {}, es)
    ensures Answers(life, map[], es, true) == Answers(life, map[], es, false)
  {
    TidiedRuns(life, now, {}, map[], map[], es);
  }

  /** A sweep with the cutoff of a moment drops exactly what has expired at that moment. */
  lemma SweepExactly<V>(life: int, m: map<string, Entry<V>>, t: int, cutoff: int, id: string)
    requires Cutoffs<V>(life, {}, Cutoff(t)) == {cutoff}
    ensures
      var n := Apply(life, m, Sweep(cutoff));
      && (id in n <==> id in m && Live(life, m, id, t).Some?)
      && (id in n ==> n[id] == m[id])
  {
    assert cutoff in {cutoff};
  }

  // --- Nothing expired comes back --------------------------------------------------

  predicate Dead<V>(life: int, now: int, m: map<string, Entry<V>>, id: string)
  {
    id in m ==> Expired(life, m[id].stamp, now)
  }

  predicate About<V>(e: Event<V>, id: string)
  {
    (e.Get? || e.Touch? || e.GetAndTouch? || e.Consume?) && e.id == id
  }

  predicate Positive<V>(r: Answer<V>)
  {
    r == Refreshed(true) || (r.Got? && r.entry.Some?)
  }

  lemma DeadStays<V>(life: int, now: int, cutoffs: set<int>, m: map<string, Entry<V>>, id: string, e: Event<V>)
    requires Dead(life, now, m, id) && Timely(life, now, cutoffs, e) && !(e.Insert? && e.id == id)
    ensures Dead(life, Clock(now, e), Apply(life, m, e), id) && Dead(life, Clock(now, e), m, id)
    ensures About(e, id) ==> !Positive(Reply(life, m, e))
  {
  }

  /** Once an entry has expired, no request about it succeeds until its identifier is issued again. */
  lemma {:induction false} ExpiredStaysExpired<V>(life: int, now: int, cutoffs: set<int>, m: map<string, Entry<V>>,
                                                  id: string, es: seq<Event<V>>, collects: bool, k: nat)
    requires Dead(life, now, m, id) && AllTimely(life, now, cutoffs, es) && k < |es|
    requires forall i :: 0 <= i < |es| ==> !(es[i].Insert? && es[i].id == id)
    ensures About(es[k], id) ==> !Positive(Answers(life, m, es, collects)[k])
    decreases |es|
  {
    hide Dead, Timely, Apply, Reply, Clock, Cutoffs, About, Positive;
    var e := es[0];
    DeadStays(life, now, cutoffs, m, id, e);
    if k == 0 {
    } else {
      ExpiredStaysExpired(life, Clock(now, e), Cutoffs(life, cutoffs, e),
                          if e.Sweep? && !collects then m else Apply(life, m, e), id, es[1..], collects, k - 1);
    }
  }

  // --- One success per issue, and only in time -----------------------------------------

  function Issues<V>(es: seq<Event<V>>, id: string): nat
  {
    if es == [] then 0 else (if es[0].Insert? && es[0].id == id then 1 else 0) + Issues(es[1..], id)
  }

  /** How often `id` was consumed. */
  function Consumed<V>(es: seq<Event<V>>, rs: seq<Answer<V>>, id: string): nat
    requires |rs| == |es|
  {
    if es == [] then 0
    else (if es[0].Consume? && es[0].id == id && Positive(rs[0]) then 1 else 0) + Consumed(es[1..], rs[1..], id)
  }

  lemma {:induction false} ConsumedNoMoreThanHeld<V>(life: int, m: map<string, Entry<V>>, es: seq<Event<V>>,
                                                     collects: bool, id: string)
    ensures Consumed(es, Answers(life, m, es, collects), id) <= Issues(es, id) + (if id in m then 1 else 0)
    decreases |es|
  {
    if es == [] {
    } else {
      var n := if es[0].Sweep? && !collects then m else Apply(life, m, es[0]);
      var rs := Answers(life, m, es, collects);
      assert rs[1..] == Answers(life, n, es[1..], collects);
      ConsumedNoMoreThanHeld(life, n, es[1..], collects, id);
    }
  }

  /** A state is consumed at most as often as it was issued: once, as issued states do not repeat. */
  lemma ConsumedAtMostOnce<V>(life: int, es: seq<Event<V>>, collects: bool, id: string)
    ensures Consumed(es, Answers(life, map[], es, collects), id) <= Issues(es, id)
  {
    ConsumedNoMoreThanHeld(life, map[], es, collects, id);
  }

  /** Every entry was put there by an earlier event. */
  ghost predicate Issued<V>(m: map<string, Entry<V>>, es: seq<Event<V>>, k: nat)
    requires k <= |es|
  {
    forall id :: id in m ==> exists i :: 0 <= i < k && es[i] == Insert(id, m[id].value, m[id].stamp)
  }

  predicate Plain<V>(e: Event<V>)
  {
    !e.Touch? && !e.GetAndTouch?
  }

  lemma IssuedStays<V>(life: int, m: map<string, Entry<V>>, es: seq<Event<V>>, k: nat)
    requires k < |es| && Issued(m, es, k) && Plain(es[k])
    ensures Issued(Apply(life, m, es[k]), es, k + 1) && Issued(m, es, k + 1)
  {
    var n := Apply(life, m, es[k]);
    forall id | id in n
      ensures exists i :: 0 <= i < k + 1 && es[i] == Insert(id, n[id].value, n[id].stamp)
    {
      if es[k].Insert? && es[k].id == id {
        assert es[k] == Insert(id, n[id].value, n[id].stamp);
      } else {
        assert id in m && n[id] == m[id];
      }
    }
  }

  lemma LiveWasIssued<V>(life: int, m: map<string, Entry<V>>, all: seq<Event<V>>, k: nat)
    requires k < |all| && Issued(m, all, k) && all[k].Consume?
    ensures
      var r := Reply(life, m, all[k]);
      && r.Got?
      && (r.entry.Some? ==>
            && all[k].t - r.entry.value.stamp <= life
            && exists i :: 0 <= i < k && all[i] == Insert(all[k].id, r.entry.value.value, r.entry.value.stamp))
  {
  }

  lemma {:induction false} AnswersWereIssuedFrom<V>(life: int, m: map<string, Entry<V>>, all: seq<Event<V>>, done: nat,
                                                    collects: bool, k: nat)
    requires done <= k < |all| && Issued(m, all, done) && (forall i :: 0 <= i < |all| ==> Plain(all[i]))
    requires all[k].Consume?
    ensures
      var r := Answers(life, m, all[done..], collects)[k - done];
      && r.Got?
      && (r.entry.Some? ==>
            && all[k].t - r.entry.value.stamp <= life
            && exists i :: 0 <= i < k && all[i] == Insert(all[k].id, r.entry.value.value, r.entry.value.stamp))
    decreases k - done
  {
    hide Apply, Issued, Reply;
    var e := all[done];
    assert all[done..][0] == e;
    if k == done {
      LiveWasIssued(life, m, all, k);
    } else {
      IssuedStays(life, m, all, done);
      assert all[done..][1..] == all[done + 1..];
      var n := if e.Sweep? && !collects then m else Apply(life, m, e);
      assert Answers(life, m, all[done..], collects)[1..] == Answers(life, n, all[done + 1..], collects);
      AnswersWereIssuedFrom(life, n, all, done + 1, collects, k);
    }
  }

  /** A consumed state is one that was issued, with the same contents, no longer ago than its life. */
  lemma ConsumedInTime<V>(life: int, es: seq<Event<V>>, collects: bool, k: nat)
    requires k < |es| && es[k].Consume? && forall i :: 0 <= i < |es| ==> Plain(es[i])
    ensures
      var r := Answers(life, map[], es, collects)[k];
      && r.Got?
      && (r.entry.Some? ==>
            && es[k].t - r.entry.value.stamp <= life
            && exists i :: 0 <= i < k && es[i] == Insert(es[k].id, r.entry.value.value, r.entry.value.stamp))
  {
    assert es[0..] == es;
    AnswersWereIssuedFrom(life, map[], es, 0, collects, k);
  }

  // --- Nothing live is lost ----------------------------------------------------------

  predicate Mentions<V>(e: Event<V>, id: string)
  {
    !e.Cutoff? && !e.Sweep? && !e.Get? && e.id == id
  }

  lemma {:induction false} LiveIsKept<V>(life: int, now: int, cutoffs: set<int>, m: map<string, Entry<V>>, id: string,
                                         es: seq<Event<V>>, collects: bool)
    requires AllTimely(life, now, cutoffs, es) && Past(life, now, cutoffs) && id in m
    requires es != [] && (es[|es| - 1].Consume? || es[|es| - 1].Get?) && es[|es| - 1].id == id
    requires forall i :: 0 <= i < |es| - 1 ==> !Mentions(es[i], id)
    requires !Expired(life, m[id].stamp, es[|es| - 1].t)
    ensures Answers(life, m, es, collects)[|es| - 1] == Got(Some(m[id]))
    decreases |es|
  {
    var e := es[0];
    if |es| <= 1 {
    } else {
      var n := if e.Sweep? && !collects then m else Apply(life, m, e);
      TidiedStays(life, now, cutoffs, m, m, e);
      ClockReaches(life, now, cutoffs, es);
      assert !Mentions(e, id);
      assert id in n && n[id] == m[id];
      assert es[1..][|es| - 2] == es[|es| - 1];
      LiveIsKept(life, Clock(now, e), Cutoffs(life, cutoffs, e), n, id, es[1..], collects);
    }
  }

  /** The last clock reading of a history is not before the first. */
  lemma {:induction false} ClockReaches<V>(life: int, now: int, cutoffs: set<int>, es: seq<Event<V>>)
    requires AllTimely(life, now, cutoffs, es) && es != [] && (es[|es| - 1].Consume? || es[|es| - 1].Get?)
    ensures now <= es[|es| - 1].t
    decreases |es|
  {
    if |es| <= 1 {
    } else {
      assert es[1..][|es| - 2] == es[|es| - 1];
      ClockReaches(life, Clock(now, es[0]), Cutoffs(life, cutoffs, es[0]), es[1..]);
    }
  }

  /**
   A flow that comes back within its life finds what it was issued with, whatever
   was collected meanwhile: also with a cutoff computed before it was issued, and
   with a clock reading that went stale before the lock was taken.
   */
  lemma InTimeIsFound<V>(life: int, now: int, cutoffs: set<int>, m: map<string, Entry<V>>, id: string, value: V, t: int,
                         es: seq<Event<V>>, collects: bool)
    requires Past(life, now, cutoffs) && AllTimely(life, now, cutoffs, [Insert(id, value, t)] + es)
    requires es != [] && es[|es| - 1].Consume? && es[|es| - 1].id == id && es[|es| - 1].t - t <= life
    requires forall i :: 0 <= i < |es| - 1 ==> !Mentions(es[i], id)
    ensures Answers(life, m, [Insert(id, value, t)] + es, collects)[|es|] == Got(Some(Entry(value, t)))
  {
    var all := [Insert(id, value, t)] + es;
    assert all[1..] == es;
    var n := Apply(life, m, all[0]);
    TidiedStays(life, now, cutoffs, m, m, all[0]);
    LiveIsKept(life, Clock(now, all[0]), cutoffs, n, id, es, collects);
    assert Answers(life, m, all, collects)[1..] == Answers(life, n, es, collects);
  }

  // --- Sign-out, and staying signed in ---------------------------------------------------

  /** Once an entry was deleted or consumed, no request about it succeeds until its identifier is issued again. */
  lemma GoneStaysGone<V>(life: int, now: int, cutoffs: set<int>, m: map<string, Entry<V>>, id: string,
                         gone: Event<V>, es: seq<Event<V>>, collects: bool, k: nat)
    requires (gone.Delete? || gone.Consume?) && gone.id == id
    requires AllTimely(life, now, cutoffs, [gone] + es) && k < |es|
    requires forall i :: 0 <= i < |es| ==> !(es[i].Insert? && es[i].id == id)
    ensures About(es[k], id) ==> !Positive(Answers(life, m, [gone] + es, collects)[k + 1])
  {
    var all := [gone] + es;
    assert all[1..] == es;
    var n := Apply(life, m, gone);
    ExpiredStaysExpired(life, Clock(now, gone), Cutoffs(life, cutoffs, gone), n, id, es, collects, k);
    assert Answers(life, m, all, collects)[1..] == Answers(life, n, es, collects);
  }

  predicate Refreshes<V>(e: Event<V>, id: string)
  {
    (e.Touch? || e.GetAndTouch?) && e.id == id
  }

  /** Nothing but refreshes happens to `id`, each within the life that the one before has left. */
  predicate InTouch<V>(life: int, stamp: int, id: string, es: seq<Event<V>>)
    decreases |es|
  {
    es == []
    || (if Refreshes(es[0], id) then es[0].t - stamp <= life && InTouch(life, es[0].later, id, es[1..])
        else !Mentions(es[0], id) && InTouch(life, stamp, id, es[1..]))
  }

  /** An entry that is still to be refreshed in time has not expired. */
  lemma {:induction false} StillInTime<V>(life: int, now: int, cutoffs: set<int>, stamp: int, id: string,
                                          es: seq<Event<V>>, k: nat)
    requires AllTimely(life, now, cutoffs, es) && InTouch(life, stamp, id, es) && k < |es| && Refreshes(es[k], id)
    ensures !Expired(life, stamp, now)
    decreases |es|
  {
    if Refreshes(es[0], id) {
    } else {
      assert es[1..][k - 1] == es[k];
      StillInTime(life, Clock(now, es[0]), Cutoffs(life, cutoffs, es[0]), stamp, id, es[1..], k - 1);
    }
  }

  /** A session that is touched at intervals within its life is found at every touch, however often it is collected. */
  lemma {:induction false} InTouchIsFound<V>(life: int, now: int, cutoffs: set<int>, m: map<string, Entry<V>>,
                                             id: string, es: seq<Event<V>>, collects: bool, k: nat)
    requires AllTimely(life, now, cutoffs, es) && Past(life, now, cutoffs) && id in m
    requires InTouch(life, m[id].stamp, id, es) && k < |es| && Refreshes(es[k], id)
    ensures Answers(life, m, es, collects)[k] ==
      if es[k].Touch? then Refreshed(true) else Got(Some(Entry(m[id].value, es[k].later)))
    decreases |es|
  {
    var e := es[0];
    if k == 0 {
    } else {
      var n := if e.Sweep? && !collects then m else Apply(life, m, e);
      StillInTime(life, now, cutoffs, m[id].stamp, id, es, k);
      TidiedStays(life, now, cutoffs, m, m, e);
      assert es[1..][k - 1] == es[k];
      assert id in n && n[id].value == m[id].value;
      InTouchIsFound(life, Clock(now, e), Cutoffs(life, cutoffs, e), n, id, es[1..], collects, k - 1);
    }
  }
}
