/**
 Whole histories of protect and seal calls against one evidence table and one
 sealing endpoint, in any order and with any failures, and what holds after
 every one of them.
 */
module NowAssistHistory {
  import opened Wrappers
  import opened NowAssistStore
  import opened NowAssist
  import SkillPolicy

  /** A seal call names the earlier protect call whose result the caller kept. */
  datatype Call =
    | DoProtect(a: Args, e: ProtectEnv)
    | DoSeal(run: nat, response: Option<string>, forwarded: Option<string>, s: SealEnv)

  /** A protect call, what it returned, and the record numbers from `first` to before `past` that its writes used. */
  datatype Run = Run(a: Args, e: ProtectEnv, r: Result, first: nat, past: nat)

  /** A seal call: for which run, with which texts and on which platform, and what it returned. */
  datatype SealRun = SealRun(run: nat, response: Option<string>, forwarded: Option<string>, s: SealEnv, r: SealResult)

  datatype History = History(world: World, runs: seq<Run>, seals: seq<SealRun>)

  const START := History(World(Store(map[], 1), Service({}, {}, [])), [], [])

  function Step(wire: string -> string, h: History, c: Call): History
  {
    match c
    case DoProtect(a, e) =>
      var (s, r) := Protected(h.world.store, a, e);
      History(h.world.(store := s), h.runs + [Run(a, e, r, h.world.store.next, s.next)], h.seals)
    case DoSeal(k, response, forwarded, e) =>
      if k >= |h.runs| then h
      else
        var (w, r) := SealOf(h.world, wire, h.runs[k].r, response, forwarded, e);
        History(w, h.runs, h.seals + [SealRun(k, response, forwarded, e, r)])
  }

  function After(wire: string -> string, h: History, calls: seq<Call>): History
    decreases |calls|
  {
    if calls == [] then h else After(wire, Step(wire, h, calls[0]), calls[1..])
  }

  // --- What holds after every history ---------------------------------------

  predicate InTable(s: Store)
  {
    s.next > 0 && forall id :: id in s.rows ==> 0 < id < s.next
  }

  /** The row a run was told about is there, and is that run's row. */
  predicate Recorded(s: Store, run: Run)
  {
    && (run.r.evidenceStored <==> run.r.evidenceId != 0)
    && (run.r.evidenceStored ==>
          && run.r.evidenceId in s.rows
          && (var row := s.rows[run.r.evidenceId];
              && row.skill == run.a.skill && row.correlationId == run.r.correlationId
              && row.outcome == (if run.r.covered then Covered else if run.r.allowed then UncoveredRun else Blocked)
              && row.failOpen == (run.r.allowed && !run.r.covered)
              && row.certIdPartial == (if run.e.write.partialColumn then run.r.certIdPartial else "")))
  }

  /** An allowed run without coverage was authorised by exactly one policy row, and its audit row is stored. */
  predicate Audited(run: Run)
  {
    run.r.allowed && !run.r.covered ==> run.r.evidenceStored && SkillPolicy.Opens(run.a.skill, run.e.table)
  }

  /** A blocked run forwards nothing, and says why. */
  predicate BlockedIsSilent(run: Run)
  {
    && (!run.r.allowed ==> run.r.textForSkill == "" && run.r.error.Some? && !run.r.covered)
    && (run.r.covered <==> run.r.certIdPartial != "")
  }

  predicate RunsHold(s: Store, runs: seq<Run>)
  {
    forall run :: run in runs ==> Recorded(s, run) && Audited(run) && BlockedIsSilent(run)
  }

  /** The row is one that this run wrote: under its own record numbers, with its skill and its correlation id. */
  predicate Left(run: Run, id: nat, row: Row)
  {
    run.first <= id < run.past && row.skill == run.a.skill && row.correlationId == run.r.correlationId
  }

  /**
   Every row was left by exactly one run, also a row that landed although no id
   came back or the write raised: its correlation id joins it to the others.
   */
  predicate RowsOwned(s: Store, runs: seq<Run>)
  {
    && (forall id :: id in s.rows ==> exists run :: run in runs && Left(run, id, s.rows[id]))
    && (forall i, j :: 0 <= i < j < |runs| ==> runs[i].past <= runs[j].first)
    && (forall run :: run in runs ==>
          run.past <= s.next && (run.r.evidenceStored ==> run.first <= run.r.evidenceId < run.past))
  }

  predicate OneRowEach(runs: seq<Run>)
  {
    forall i, j :: 0 <= i < j < |runs| && runs[i].r.evidenceStored ==> runs[i].r.evidenceId != runs[j].r.evidenceId
  }

  /** The run is one that may be sealed, and its identifier is this one. */
  predicate Vouches(run: Run, partial: string)
  {
    run.r.covered && run.r.evidenceStored && run.r.certIdPartial == partial
  }

  /** The request is the one this seal call has to send: for its own run, with the hashes of the texts really used. */
  predicate Sent(wire: string -> string, runs: seq<Run>, d: SealRun, q: SealRequest)
  {
    && d.run < |runs| && Vouches(runs[d.run], q.certIdPartial)
    && q.requestHash == wire(if d.forwarded.Some? then d.forwarded.value else runs[d.run].r.textForSkill)
    && d.response.Some? && d.response.value != "" && q.responseHash == wire(d.response.value)
  }

  /** Only seal calls for covered runs with a stored row ever reach the service, and with the right hashes. */
  predicate RequestsHold(wire: string -> string, v: Service, runs: seq<Run>, seals: seq<SealRun>)
  {
    forall q :: q in v.requests ==> exists d :: d in seals && Sent(wire, runs, d, q)
  }

  /** The service issues at most one certificate for an identifier. */
  predicate OneCertificate(v: Service)
  {
    && (forall m :: m in v.minted ==> m.0 in v.claimed && m.0 != "")
    && (forall m, n :: m in v.minted && n in v.minted && m.0 == n.0 ==> m == n)
  }

  /** The certificate a sealed row names was minted for the run that owns the row. */
  predicate Owns(v: Service, run: Run, id: nat, certId: string)
  {
    run.r.covered && run.r.evidenceId == id && (run.r.certIdPartial, certId) in v.minted
  }

  predicate SealedRowsHold(w: World, runs: seq<Run>)
  {
    forall id :: id in w.store.rows && w.store.rows[id].seal.Sealed? ==>
      exists run :: run in runs && Owns(w.service, run, id, w.store.rows[id].certId)
  }

  /** A caller told "sealed" holds a certificate that was minted for its run. */
  predicate SealsHold(v: Service, runs: seq<Run>, seals: seq<SealRun>)
  {
    forall d :: d in seals ==>
      && d.run < |runs|
      && (d.r.sealed ==> Vouches(runs[d.run], runs[d.run].r.certIdPartial)
                         && (runs[d.run].r.certIdPartial, d.r.certId) in v.minted)
      && (!d.r.sealed <==> d.r.error.Some?)
  }

  /** The seal call came as far as recording its outcome, and the update landed. */
  predicate Reached(runs: seq<Run>, d: SealRun)
  {
    && d.run < |runs| && Sealable(runs[d.run].r) && d.r.error != Some(PlatformError)
    && var fate := if d.r.sealed then d.s.sealedUpdate else d.s.failedUpdate;
       fate.found && (fate.lands || fate.ends.GivesId?)
  }

  /** What a row must say about sealing: what the last seal call that reached it was told, or that there was none. */
  function SealTold(runs: seq<Run>, seals: seq<SealRun>, id: nat): (SealOutcome, string)
  {
    if seals == [] then (NotAttempted, "")
    else
      var d := seals[|seals| - 1];
      if Reached(runs, d) && runs[d.run].r.evidenceId == id
      then (if d.r.sealed then Sealed else Failed, d.r.certId)
      else SealTold(runs, seals[..|seals| - 1], id)
  }

  predicate RowsTellSeals(s: Store, runs: seq<Run>, seals: seq<SealRun>)
  {
    forall id :: id in s.rows ==> (s.rows[id].seal, s.rows[id].certId) == SealTold(runs, seals, id)
  }

  /** Who is told that the outcome was recorded can rely on it. */
  predicate ReportsAreTrue(runs: seq<Run>, seals: seq<SealRun>)
  {
    forall d :: d in seals && d.r.sealRecorded ==> Reached(runs, d)
  }

  predicate Holds(wire: string -> string, h: History)
  {
    && InTable(h.world.store)
    && RunsHold(h.world.store, h.runs)
    && OneRowEach(h.runs) && RowsOwned(h.world.store, h.runs)
    && RequestsHold(wire, h.world.service, h.runs, h.seals)
    && OneCertificate(h.world.service)
    && SealedRowsHold(h.world, h.runs)
    && SealsHold(h.world.service, h.runs, h.seals)
    && RowsTellSeals(h.world.store, h.runs, h.seals) && ReportsAreTrue(h.runs, h.seals)
  }

  // --- One protect call -------------------------------------------------------

  /** Rows are only ever added by `protect`, never sealed ones, and all under the one skill and correlation id. */
  predicate Grew(s: Store, t: Store, skill: string, correlationId: string)
  {
    && s.next <= t.next
    && (forall id :: id in s.rows ==> id in t.rows && t.rows[id] == s.rows[id])
    && (forall id :: id in t.rows && id !in s.rows ==>
          && s.next <= id < t.next && t.rows[id].seal.NotAttempted? && t.rows[id].certId == ""
          && t.rows[id].skill == skill && t.rows[id].correlationId == correlationId)
  }

  lemma WroteGrew(s: Store, row: Row, fate: Insert)
    requires InTable(s) && row.seal.NotAttempted? && row.certId == ""
    ensures Grew(s, Wrote(s, row, fate), row.skill, row.correlationId) && InTable(Wrote(s, row, fate))
  {
  }

  lemma HardBlockedHolds(s: Store, a: Args, e: ProtectEnv)
    requires InTable(s)
    ensures
      var (t, r) := HardBlocked(s, a, e);
      var run := Run(a, e, r, s.next, t.next);
      && Grew(s, t, a.skill, RunId(a, e)) && InTable(t) && Recorded(t, run) && Audited(run) && BlockedIsSilent(run)
      && r.correlationId == RunId(a, e) && (r.evidenceStored ==> s.next <= r.evidenceId < t.next)
  {
    WroteGrew(s, Evidenced(Blocked, a, e, ""), e.hardWrite);
  }

  lemma BlockedWithHolds(s: Store, a: Args, e: ProtectEnv, code: Code)
    requires InTable(s)
    ensures
      var (t, r) := BlockedWith(s, a, e, code);
      var run := Run(a, e, r, s.next, t.next);
      && Grew(s, t, a.skill, RunId(a, e)) && InTable(t) && Recorded(t, run) && Audited(run) && BlockedIsSilent(run)
      && r.correlationId == RunId(a, e) && (r.evidenceStored ==> s.next <= r.evidenceId < t.next)
  {
    var row := Evidenced(Blocked, a, e, "");
    WroteGrew(s, row, e.blockWrite);
    HardBlockedHolds(Wrote(s, row, e.blockWrite), a, e);
  }

  lemma OverrideMeansOpen(a: Args, e: ProtectEnv)
    ensures Judge(a, e).Override? ==> SkillPolicy.Opens(a.skill, e.table)
    ensures Judge(a, e).Cover? ==> Judge(a, e).partial != ""
  {
  }

  lemma ProtectedHolds(s: Store, a: Args, e: ProtectEnv)
    requires InTable(s)
    ensures
      var (t, r) := Protected(s, a, e);
      var run := Run(a, e, r, s.next, t.next);
      && Grew(s, t, a.skill, RunId(a, e)) && InTable(t) && Recorded(t, run) && Audited(run) && BlockedIsSilent(run)
      && r.correlationId == RunId(a, e) && (r.evidenceStored ==> s.next <= r.evidenceId < t.next)
  {
    OverrideMeansOpen(a, e);
    match Judge(a, e)
    case Crash => HardBlockedHolds(s, a, e);
    case Refuse(code) => BlockedWithHolds(s, a, e, code);
    case Override(code, salvage) =>
      var row := Evidenced(UncoveredRun, a, e, "");
      WroteGrew(s, row, e.write);
      HardBlockedHolds(Wrote(s, row, e.write), a, e);
      BlockedWithHolds(Wrote(s, row, e.write), a, e, Unauditable);
    case Cover(text, partial) =>
      var row := Evidenced(Covered, a, e, partial);
      WroteGrew(s, row, e.write);
      HardBlockedHolds(Wrote(s, row, e.write), a, e);
  }

  lemma ProtectOwns(s: Store, t: Store, runs: seq<Run>, run: Run)
    requires RowsOwned(s, runs) && Grew(s, t, run.a.skill, run.r.correlationId)
    requires run.first == s.next && run.past == t.next
    requires run.r.evidenceStored ==> run.first <= run.r.evidenceId < run.past
    ensures RowsOwned(t, runs + [run])
  {
    var all := runs + [run];
    forall id | id in t.rows
      ensures exists x :: x in all && Left(x, id, t.rows[id])
    {
      if id in s.rows {
        var x :| x in runs && Left(x, id, s.rows[id]);
        assert x in all;
      } else {
        assert all[|runs|] == run && Left(run, id, t.rows[id]);
      }
    }
    forall i, j | 0 <= i < j < |all|
      ensures all[i].past <= all[j].first
    {
      if j == |runs| {
        assert runs[i] in runs;
      }
    }
  }

  /** Separate record numbers keep the rows that the runs were told about apart. */
  lemma OwnedMeansApart(s: Store, runs: seq<Run>)
    requires RowsOwned(s, runs) && RunsHold(s, runs)
    ensures OneRowEach(runs)
  {
    forall i, j | 0 <= i < j < |runs| && runs[i].r.evidenceStored
      ensures runs[i].r.evidenceId != runs[j].r.evidenceId
    {
      assert runs[i] in runs && runs[j] in runs;
      assert Recorded(s, runs[i]) && Recorded(s, runs[j]);
    }
  }

  lemma ProtectRuns(s: Store, t: Store, runs: seq<Run>, run: Run)
    requires RunsHold(s, runs) && Grew(s, t, run.a.skill, run.r.correlationId)
    requires Recorded(t, run) && Audited(run) && BlockedIsSilent(run)
    ensures RunsHold(t, runs + [run])
  {
    hide Audited, BlockedIsSilent;
    forall x | x in runs + [run]
      ensures Recorded(t, x) && Audited(x) && BlockedIsSilent(x)
    {
      if x in runs {
        assert Recorded(s, x);
      }
    }
  }

  lemma ProtectSeals(w: World, t: Store, runs: seq<Run>, run: Run)
    requires SealedRowsHold(w, runs) && Grew(w.store, t, run.a.skill, run.r.correlationId)
    ensures SealedRowsHold(w.(store := t), runs + [run])
  {
    forall id | id in t.rows && t.rows[id].seal.Sealed?
      ensures exists x :: x in runs + [run] && Owns(w.service, x, id, t.rows[id].certId)
    {
      assert id in w.store.rows;
      var x :| x in runs && Owns(w.service, x, id, w.store.rows[id].certId);
      assert x in runs + [run];
    }
  }

  lemma ProtectRequests(wire: string -> string, v: Service, runs: seq<Run>, run: Run, seals: seq<SealRun>)
    requires RequestsHold(wire, v, runs, seals) && SealsHold(v, runs, seals)
    ensures RequestsHold(wire, v, runs + [run], seals) && SealsHold(v, runs + [run], seals)
  {
    hide Vouches;
    forall q | q in v.requests
      ensures exists d :: d in seals && Sent(wire, runs + [run], d, q)
    {
      var d :| d in seals && Sent(wire, runs, d, q);
      assert Sent(wire, runs + [run], d, q);
    }
  }

  /** Calls for earlier runs mean the same with one more run behind them. */
  lemma {:induction false} ToldAmongMore(runs: seq<Run>, run: Run, seals: seq<SealRun>, id: nat)
    requires forall d :: d in seals ==> d.run < |runs|
    ensures SealTold(runs + [run], seals, id) == SealTold(runs, seals, id)
  {
    if seals == [] {
    } else {
      assert seals[|seals| - 1] in seals;
      ToldAmongMore(runs, run, seals[..|seals| - 1], id);
    }
  }

  /** A row that no run was told about has not been reached. */
  lemma {:induction false} NothingTold(runs: seq<Run>, seals: seq<SealRun>, id: nat)
    requires forall run :: run in runs && run.r.evidenceStored ==> run.r.evidenceId != id
    ensures SealTold(runs, seals, id) == (NotAttempted, "")
  {
    if seals == [] {
    } else {
      NothingTold(runs, seals[..|seals| - 1], id);
    }
  }

  lemma ProtectTells(s: Store, t: Store, runs: seq<Run>, run: Run, seals: seq<SealRun>)
    requires InTable(s) && RowsOwned(s, runs) && Grew(s, t, run.a.skill, run.r.correlationId)
    requires forall d :: d in seals ==> d.run < |runs|
    requires RowsTellSeals(s, runs, seals) && ReportsAreTrue(runs, seals)
    ensures RowsTellSeals(t, runs + [run], seals) && ReportsAreTrue(runs + [run], seals)
  {
    hide SealTold;
    forall id | id in t.rows
      ensures (t.rows[id].seal, t.rows[id].certId) == SealTold(runs + [run], seals, id)
    {
      ToldAmongMore(runs, run, seals, id);
      if id !in s.rows {
        NothingTold(runs, seals, id);
      }
    }
    forall d | d in seals && d.r.sealRecorded
      ensures Reached(runs + [run], d)
    {
      assert Reached(runs, d);
    }
  }

  lemma ProtectKeeps(wire: string -> string, h: History, a: Args, e: ProtectEnv)
    requires Holds(wire, h)
    ensures Holds(wire, Step(wire, h, DoProtect(a, e)))
  {
    hide Protected, InTable, Grew, Recorded, Audited, BlockedIsSilent, RunsHold, RowsOwned, OneRowEach, SealedRowsHold,
      RequestsHold, SealsHold, OneCertificate, RowsTellSeals, ReportsAreTrue;
    ProtectedHolds(h.world.store, a, e);
    var (t, r) := Protected(h.world.store, a, e);
    var run := Run(a, e, r, h.world.store.next, t.next);
    ProtectRuns(h.world.store, t, h.runs, run);
    ProtectOwns(h.world.store, t, h.runs, run);
    OwnedMeansApart(t, h.runs + [run]);
    ProtectSeals(h.world, t, h.runs, run);
    ProtectRequests(wire, h.world.service, h.runs, run, h.seals);
    SealsAreForRuns(h.world.service, h.runs, h.seals);
    ProtectTells(h.world.store, t, h.runs, run, h.seals);
  }

  lemma SealsAreForRuns(v: Service, runs: seq<Run>, seals: seq<SealRun>)
    requires SealsHold(v, runs, seals)
    ensures forall d :: d in seals ==> d.run < |runs|
  {
  }

  // --- One seal call ------------------------------------------------------------

  /** An update changes the two seal fields of one row and nothing else. */
  lemma SealedAsHolds(s: Store, runs: seq<Run>, id: nat, outcome: SealOutcome, certId: string, fate: Update)
    requires InTable(s) && RunsHold(s, runs)
    ensures
      var t := SealedAs(s, id, outcome, certId, fate);
      && InTable(t) && RunsHold(t, runs) && t.rows.Keys == s.rows.Keys
      && (forall k :: k in s.rows && k != id ==> t.rows[k] == s.rows[k])
      && (id in s.rows ==> t.rows[id] == s.rows[id]
                           || (t.rows[id].seal == outcome && t.rows[id].certId == certId))
  {
    var t := SealedAs(s, id, outcome, certId, fate);
    forall x | x in runs
      ensures Recorded(t, x)
    {
      assert Recorded(s, x);
    }
  }

  lemma SealedAsOwned(s: Store, runs: seq<Run>, id: nat, outcome: SealOutcome, certId: string, fate: Update)
    requires RowsOwned(s, runs)
    ensures RowsOwned(SealedAs(s, id, outcome, certId, fate), runs)
  {
    var t := SealedAs(s, id, outcome, certId, fate);
    forall k | k in t.rows
      ensures exists x :: x in runs && Left(x, k, t.rows[k])
    {
      var x :| x in runs && Left(x, k, s.rows[k]);
      assert Left(x, k, t.rows[k]);
    }
  }

  lemma FailureKeepsRows(w: World, runs: seq<Run>, id: nat, fate: Update)
    requires InTable(w.store) && RunsHold(w.store, runs) && RowsOwned(w.store, runs) && SealedRowsHold(w, runs)
    ensures
      var t := SealedAs(w.store, id, Failed, "", fate);
      InTable(t) && RunsHold(t, runs) && RowsOwned(t, runs) && SealedRowsHold(w.(store := t), runs)
  {
    SealedAsHolds(w.store, runs, id, Failed, "", fate);
    SealedAsOwned(w.store, runs, id, Failed, "", fate);
    hide RowsOwned, InTable, RunsHold;
    var t := SealedAs(w.store, id, Failed, "", fate);
    forall k | k in t.rows && t.rows[k].seal.Sealed?
      ensures exists x :: x in runs && Owns(w.service, x, k, t.rows[k].certId)
    {
      assert t.rows[k] == w.store.rows[k];
    }
  }

  lemma AskedHolds(w: World, runs: seq<Run>, run: Run, q: SealRequest, reply: SealReply)
    requires run in runs && Vouches(run, q.certIdPartial) && q.certIdPartial != ""
    requires OneCertificate(w.service) && SealedRowsHold(w, runs)
    ensures
      var v := Asked(w.service, q, reply);
      && OneCertificate(v) && SealedRowsHold(w.(service := v), runs)
      && w.service.minted <= v.minted
  {
    var v := Asked(w.service, q, reply);
    forall id | id in w.store.rows && w.store.rows[id].seal.Sealed?
      ensures exists x :: x in runs && Owns(v, x, id, w.store.rows[id].certId)
    {
      var x :| x in runs && Owns(w.service, x, id, w.store.rows[id].certId);
      assert Owns(v, x, id, w.store.rows[id].certId);
    }
  }

  lemma RecordedSealHolds(w: World, runs: seq<Run>, run: Run, certId: string, fate: Update)
    requires InTable(w.store) && RunsHold(w.store, runs) && RowsOwned(w.store, runs) && SealedRowsHold(w, runs)
    requires run in runs && Owns(w.service, run, run.r.evidenceId, certId)
    ensures
      var t := SealedAs(w.store, run.r.evidenceId, Sealed, certId, fate);
      InTable(t) && RunsHold(t, runs) && RowsOwned(t, runs) && SealedRowsHold(w.(store := t), runs)
  {
    var id := run.r.evidenceId;
    SealedAsHolds(w.store, runs, id, Sealed, certId, fate);
    SealedAsOwned(w.store, runs, id, Sealed, certId, fate);
    hide RowsOwned, InTable, RunsHold;
    var t := SealedAs(w.store, id, Sealed, certId, fate);
    forall k | k in t.rows && t.rows[k].seal.Sealed?
      ensures exists x :: x in runs && Owns(w.service, x, k, t.rows[k].certId)
    {
      if t.rows[k] == w.store.rows[k] {
        assert exists x :: x in runs && Owns(w.service, x, k, w.store.rows[k].certId);
      } else {
        assert k == id && t.rows[k].certId == certId;
      }
    }
  }

  /** Everything one seal call leaves true, apart from the list of seal calls itself. */
  lemma SealOfHolds(wire: string -> string, w: World, runs: seq<Run>, run: Run,
                    response: Option<string>, forwarded: Option<string>, e: SealEnv)
    requires InTable(w.store) && RunsHold(w.store, runs) && RowsOwned(w.store, runs) && run in runs
    requires OneCertificate(w.service) && SealedRowsHold(w, runs)
    ensures
      var (x, r) := SealOf(w, wire, run.r, response, forwarded, e);
      && InTable(x.store) && RunsHold(x.store, runs) && RowsOwned(x.store, runs)
      && OneCertificate(x.service) && SealedRowsHold(x, runs)
      && w.service.minted <= x.service.minted
      && (!r.sealed <==> r.error.Some?)
      && (r.sealed ==> Vouches(run, run.r.certIdPartial) && (run.r.certIdPartial, r.certId) in x.service.minted)
  {
    hide InTable, RunsHold, RowsOwned, OneCertificate, SealedRowsHold, SealedAs, Told;
    FailureKeepsRows(w, runs, run.r.evidenceId, e.failedUpdate);
    if Sends(run.r, response, e) {
      var q := RequestFor(wire, run.r, response.value, forwarded);
      AskedHolds(w, runs, run, q, e.reply);
      var v := Asked(w.service, q, e.reply);
      FailureKeepsRows(w.(service := v), runs, run.r.evidenceId, e.failedUpdate);
      match Hears(w.service, q, e.reply)
      case HeardThrow =>
      case HeardNot =>
      case HeardOk(certId, certUrl, tier) =>
        if Certificate(certId, certUrl, tier) {
          RecordedSealHolds(w.(service := v), runs, run, certId.s, e.sealedUpdate);
        }
    }
  }

  /** At most one request per seal call, for the run's own identifier and the texts that were really used. */
  lemma RequestSaysWhatWasForwarded(wire: string -> string, w: World, pr: Result, response: Option<string>,
                                    forwarded: Option<string>, e: SealEnv)
    ensures
      var sent := SealOf(w, wire, pr, response, forwarded, e).0.service.requests;
      if Sends(pr, response, e)
      then sent == w.service.requests
                   + [SealRequest(pr.certIdPartial,
                                  wire(if forwarded.Some? then forwarded.value else pr.textForSkill),
                                  wire(response.value))]
      else sent == w.service.requests
  {
  }

  lemma RequestsKeep(wire: string -> string, h: History, k: nat, response: Option<string>, forwarded: Option<string>,
                     e: SealEnv)
    requires Holds(wire, h) && k < |h.runs|
    ensures
      var t := Step(wire, h, DoSeal(k, response, forwarded, e));
      RequestsHold(wire, t.world.service, t.runs, t.seals)
  {
    var t := Step(wire, h, DoSeal(k, response, forwarded, e));
    var run, now := h.runs[k], t.seals[|h.seals|];
    RequestSaysWhatWasForwarded(wire, h.world, run.r, response, forwarded, e);
    hide SealOf, InTable, OneCertificate, SealedRowsHold, OneRowEach, RowsOwned, SealsHold;
    assert now in t.seals;
    forall q | q in t.world.service.requests
      ensures exists d :: d in t.seals && Sent(wire, t.runs, d, q)
    {
      if q in h.world.service.requests {
        var d :| d in h.seals && Sent(wire, h.runs, d, q);
        assert d in t.seals;
      } else {
        assert Sent(wire, t.runs, now, q);
      }
    }
  }

  /**
   What one seal call leaves in the table: its own outcome and certificate in
   the row of its run, if it came to recording them and the update landed, and
   otherwise nothing.  A report that it was recorded is true.
   */
  lemma SealLeavesExactly(wire: string -> string, w: World, runs: seq<Run>, k: nat, response: Option<string>,
                          forwarded: Option<string>, e: SealEnv)
    requires k < |runs| && Recorded(w.store, runs[k])
    ensures
      var (x, r) := SealOf(w, wire, runs[k].r, response, forwarded, e);
      var d, id := SealRun(k, response, forwarded, e, r), runs[k].r.evidenceId;
      && (Reached(runs, d) ==>
            && id in w.store.rows
            && x.store.rows == w.store.rows[
              id := w.store.rows[id].(seal := if r.sealed then Sealed else Failed, certId := r.certId)])
      && (!Reached(runs, d) ==> x.store == w.store)
      && (r.sealRecorded ==> Reached(runs, d))
  {
    hide Asked;
  }

  lemma SealTells(wire: string -> string, w: World, runs: seq<Run>, seals: seq<SealRun>, k: nat,
                  response: Option<string>, forwarded: Option<string>, e: SealEnv)
    requires k < |runs| && RunsHold(w.store, runs)
    requires RowsTellSeals(w.store, runs, seals) && ReportsAreTrue(runs, seals)
    ensures
      var (x, r) := SealOf(w, wire, runs[k].r, response, forwarded, e);
      var all := seals + [SealRun(k, response, forwarded, e, r)];
      RowsTellSeals(x.store, runs, all) && ReportsAreTrue(runs, all)
  {
    hide SealOf, Recorded, Reached;
    assert runs[k] in runs;
    SealLeavesExactly(wire, w, runs, k, response, forwarded, e);
    var (x, r) := SealOf(w, wire, runs[k].r, response, forwarded, e);
    var d := SealRun(k, response, forwarded, e, r);
    assert (seals + [d])[..|seals|] == seals;
  }

  lemma SealKeeps(wire: string -> string, h: History, k: nat, response: Option<string>, forwarded: Option<string>,
                  e: SealEnv)
    requires Holds(wire, h)
    ensures Holds(wire, Step(wire, h, DoSeal(k, response, forwarded, e)))
  {
    hide SealOf, InTable, RunsHold, RequestsHold, OneCertificate, SealedRowsHold, OneRowEach, RowsOwned, Vouches,
      RowsTellSeals, ReportsAreTrue;
    if k < |h.runs| {
      SealTells(wire, h.world, h.runs, h.seals, k, response, forwarded, e);
      RequestsKeep(wire, h, k, response, forwarded, e);
      SealOfHolds(wire, h.world, h.runs, h.runs[k], response, forwarded, e);
      var (w, r) := SealOf(h.world, wire, h.runs[k].r, response, forwarded, e);
      forall d | d in h.seals + [SealRun(k, response, forwarded, e, r)]
        ensures d.run < |h.runs| && (!d.r.sealed <==> d.r.error.Some?)
        ensures d.r.sealed ==> Vouches(h.runs[d.run], h.runs[d.run].r.certIdPartial)
                               && (h.runs[d.run].r.certIdPartial, d.r.certId) in w.service.minted
      {
        assert d in h.seals || d == SealRun(k, response, forwarded, e, r);
      }
    }
  }

  lemma StepHolds(wire: string -> string, h: History, c: Call)
    requires Holds(wire, h)
    ensures Holds(wire, Step(wire, h, c))
  {
    hide Holds, Step;
    match c
    case DoProtect(a, e) => ProtectKeeps(wire, h, a, e);
    case DoSeal(k, response, forwarded, e) => SealKeeps(wire, h, k, response, forwarded, e);
  }

  lemma {:induction false} HoldsAfter(wire: string -> string, h: History, calls: seq<Call>)
    requires Holds(wire, h)
    ensures Holds(wire, After(wire, h, calls))
    decreases |calls|
  {
    hide Holds, Step;
    if calls == [] {
    } else {
      StepHolds(wire, h, calls[0]);
      HoldsAfter(wire, Step(wire, h, calls[0]), calls[1..]);
    }
  }

  /** Every history of protect and seal calls, whatever fails or raises along the way. */
  lemma EveryHistory(wire: string -> string, calls: seq<Call>)
    ensures Holds(wire, After(wire, START, calls))
  {
    hide After;
    assert Holds(wire, START);
    HoldsAfter(wire, START, calls);
  }

  // --- Reading the invariant --------------------------------------------------

  predicate Reaching(runs: seq<Run>, d: SealRun, id: nat)
  {
    Reached(runs, d) && runs[d.run].r.evidenceId == id
  }

  lemma {:induction false} ToldExactly(runs: seq<Run>, seals: seq<SealRun>, id: nat)
    ensures SealTold(runs, seals, id).0.NotAttempted? <==> forall d :: d in seals ==> !Reaching(runs, d, id)
    ensures forall k :: 0 <= k < |seals| && Reaching(runs, seals[k], id)
                        && (forall j :: k < j < |seals| ==> !Reaching(runs, seals[j], id)) ==>
                        SealTold(runs, seals, id) == (if seals[k].r.sealed then Sealed else Failed, seals[k].r.certId)
  {
    hide Reached;
    if seals == [] {
    } else {
      var front, d := seals[..|seals| - 1], seals[|seals| - 1];
      assert seals == front + [d] && d in seals;
      assert Reaching(runs, d, id) ==> SealTold(runs, seals, id).0 != NotAttempted;
      ToldExactly(runs, front, id);
    }
  }

  /**
   What a row says about sealing, after every history: not attempted exactly
   when no seal call reached it, and otherwise what the last one that did was
   told.
   */
  lemma RowsTellTheLastSeal(wire: string -> string, calls: seq<Call>, id: nat)
    requires id in After(wire, START, calls).world.store.rows
    ensures
      var h := After(wire, START, calls);
      var row := h.world.store.rows[id];
      && (row.seal.NotAttempted? <==> forall d :: d in h.seals ==> !Reaching(h.runs, d, id))
      && (forall k :: 0 <= k < |h.seals| && Reaching(h.runs, h.seals[k], id)
                      && (forall j :: k < j < |h.seals| ==> !Reaching(h.runs, h.seals[j], id)) ==>
                      && row.seal == (if h.seals[k].r.sealed then Sealed else Failed)
                      && row.certId == h.seals[k].r.certId)
      && (forall d :: d in h.seals && d.r.sealRecorded ==> Reached(h.runs, d))
  {
    EveryHistory(wire, calls);
    var h := After(wire, START, calls);
    hide After, Reaching, Reached, OneRowEach, RowsOwned, SealsHold, RunsHold, RequestsHold, SealedRowsHold;
    ToldExactly(h.runs, h.seals, id);
  }

  /**
   A sealed row names a certificate minted for its own `cert_id_partial`
   exactly when the row has one; the column is not among those `write` checks.
   */
  lemma SealedRowNamesItsCertificate(wire: string -> string, calls: seq<Call>, id: nat)
    requires
      var rows := After(wire, START, calls).world.store.rows;
      id in rows && rows[id].seal.Sealed?
    ensures
      var w := After(wire, START, calls).world;
      && w.store.rows[id].outcome == Covered
      && (w.store.rows[id].certIdPartial != "" <==>
          (w.store.rows[id].certIdPartial, w.store.rows[id].certId) in w.service.minted)
  {
    EveryHistory(wire, calls);
    var h := After(wire, START, calls);
    hide After, OneRowEach, RowsOwned, SealsHold;
    var run :| run in h.runs && Owns(h.world.service, run, id, h.world.store.rows[id].certId);
    assert Recorded(h.world.store, run) && BlockedIsSilent(run);
  }

  /**
   What a caller learns from `sealed`: it is true exactly when the call got
   through every guard, its identifier was unclaimed, and the answer was a
   well-formed input-shield certificate.  How recording it went is not in there.
   */
  lemma SealedExactly(wire: string -> string, w: World, pr: Result, response: Option<string>,
                      forwarded: Option<string>, e: SealEnv)
    ensures
      SealOf(w, wire, pr, response, forwarded, e).1.sealed <==>
      && pr.covered && pr.certIdPartial != "" && pr.evidenceStored && pr.evidenceId != 0
      && response.Some? && response.value != "" && e.config.ConfigReady?
      && pr.certIdPartial !in w.service.claimed
      && e.reply.Answer? && e.reply.certId.Str? && e.reply.certId.s != "" && e.reply.certUrl.Str?
      && e.reply.certUrl.s != "" && e.reply.tier == Str("input-shield")
  {
  }

  /** Why a call is told "not sealed", and what it holds when it is told "sealed". */
  lemma SealErrorsExactly(wire: string -> string, w: World, pr: Result, response: Option<string>,
                          forwarded: Option<string>, e: SealEnv)
    ensures
      var r := SealOf(w, wire, pr, response, forwarded, e).1;
      var said := response.Some? && response.value != "";
      var lost := e.reply.Answer? && pr.certIdPartial in w.service.claimed;
      && (r.error == Some(NotCovered) <==> !pr.covered || pr.certIdPartial == "")
      && (r.error == Some(NoEvidenceRow) <==>
            pr.covered && pr.certIdPartial != "" && (!pr.evidenceStored || pr.evidenceId == 0))
      && (r.error == Some(InvalidInput) <==> Sealable(pr) && !said)
      && (r.error == Some(ConfigError) <==> Sealable(pr) && said && e.config.ConfigProblems?)
      && (r.error == Some(PlatformError) <==>
            Sealable(pr) && said && (e.config.ConfigRaises? || (e.config.ConfigReady? && e.reply.Silent? && e.reply.raises)))
      && (r.error == Some(Unreachable) <==>
            Sends(pr, response, e) && ((e.reply.Silent? && !e.reply.raises) || lost))
      && (r.error == Some(ContractError) <==>
            Sends(pr, response, e) && e.reply.Answer? && !lost
            && !Certificate(e.reply.certId, e.reply.certUrl, e.reply.tier))
      && (r.sealed ==> e.reply.Answer? && Str(r.certId) == e.reply.certId && Str(r.certUrl) == e.reply.certUrl)
      && (!r.sealed ==> r.certId == "" && r.certUrl == "")
  {
  }

  /** A recording that fails or raises changes nothing but the report about the recording. */
  lemma RecordingNeverChangesSealed(wire: string -> string, w: World, pr: Result, response: Option<string>,
                                    forwarded: Option<string>, e: SealEnv, one: Update, two: Update)
    ensures
      var (w1, r1) := SealOf(w, wire, pr, response, forwarded, e.(sealedUpdate := one, failedUpdate := one));
      var (w2, r2) := SealOf(w, wire, pr, response, forwarded, e.(sealedUpdate := two, failedUpdate := two));
      w1.service == w2.service && r1.(sealRecorded := false) == r2.(sealRecorded := false)
  {
  }

  /**
   "Not sealed" is not "no certificate": exactly these calls leave a new
   certificate behind that the caller is told nothing about, because the answer
   was lost on the way or was not well-formed.
   */
  lemma LostCertificate(wire: string -> string, w: World, pr: Result, response: Option<string>,
                        forwarded: Option<string>, e: SealEnv)
    requires OneCertificate(w.service)
    ensures
      var (x, r) := SealOf(w, wire, pr, response, forwarded, e);
      !r.sealed && x.service.minted != w.service.minted <==>
      && Sends(pr, response, e) && pr.certIdPartial !in w.service.claimed && Mints(e.reply).Some?
      && !(e.reply.Answer? && Certificate(e.reply.certId, e.reply.certUrl, e.reply.tier))
  {
    if Sends(pr, response, e) && pr.certIdPartial !in w.service.claimed && Mints(e.reply).Some? {
      var m := (pr.certIdPartial, Mints(e.reply).value);
      assert m !in w.service.minted;
      assert m in Asked(w.service, RequestFor(wire, pr, response.value, forwarded), e.reply).minted;
    }
  }

  /**
   The outer guard of `seal` reports that no certificate exists.  Exactly for a
   client that raises once the service has minted one, that is wrong.
   */
  lemma DeniedCertificate(wire: string -> string, w: World, pr: Result, response: Option<string>,
                          forwarded: Option<string>, e: SealEnv)
    requires OneCertificate(w.service)
    ensures
      var (x, r) := SealOf(w, wire, pr, response, forwarded, e);
      r.error == Some(PlatformError) && x.service.minted != w.service.minted <==>
      && Sends(pr, response, e) && pr.certIdPartial !in w.service.claimed
      && e.reply.Silent? && e.reply.raises && e.reply.minted.Some?
  {
    LostCertificate(wire, w, pr, response, forwarded, e);
  }

  const PLAIN_BODY := Body(Str("clean"), Str("partial"), Str("map"), Str("soon"), Object)
  const GOES_WELL := Update(true, true, GivesId)

  /** A covered run, with or without the `cert_id_partial` column in the table. */
  function PlainProtect(column: bool): Call
  {
    var insert := Insert(true, column, true, GivesId);
    DoProtect(Args("skill", "raw", "run"),
              ProtectEnv(None, false, false, ConfigReady, Ok(PLAIN_BODY), SkillPolicy.SchemaInvalid,
                         insert, insert, insert))
  }

  function PlainSeal(reply: SealReply): Call
  {
    DoSeal(0, Some("response"), None, SealEnv(ConfigReady, reply, GOES_WELL, GOES_WELL))
  }

  function PlainRow(column: bool, seal: SealOutcome, certId: string): Row
  {
    Row(Covered, "skill", "run", if column then "partial" else "", false, seal, certId)
  }

  const PLAIN_RESULT := Result(true, true, "clean", true, "partial", "run", 1, true, None)

  lemma PlainRun(wire: string -> string, column: bool)
    ensures
      var h := Step(wire, START, PlainProtect(column));
      && h.world == World(Store(map[1 := PlainRow(column, NotAttempted, "")], 2), Service({}, {}, []))
      && |h.runs| == 1 && h.runs[0].r == PLAIN_RESULT && h.seals == []
  {
    assert Documented(PLAIN_BODY, "raw");
  }

  /** A history of that kind: a covered run, then a seal call whose client raises after the service has answered. */
  lemma PlatformErrorAfterTheCertificate(wire: string -> string)
    ensures
      var seal := PlainSeal(Silent(true, Some("cert"), true));
      var h := Step(wire, Step(wire, START, PlainProtect(true)), seal);
      && |h.seals| == 1 && h.seals[0].r == NotSealed(PlatformError)
      && ("partial", "cert") in h.world.service.minted
      && h.world.store.rows == map[1 := PlainRow(true, NotAttempted, "")]
  {
    PlainRun(wire, true);
  }

  /** A row without the `cert_id_partial` column can be sealed, and then names no identifier at all. */
  lemma SealedRowWithoutItsColumn(wire: string -> string)
    ensures
      var seal := PlainSeal(Answer(Str("cert"), Str("url"), Str(CERT_TIER)));
      var h := Step(wire, Step(wire, START, PlainProtect(false)), seal);
      h.world.store.rows == map[1 := PlainRow(false, Sealed, "cert")]
  {
    PlainRun(wire, false);
    hide Protected;
    assert Certificate(Str("cert"), Str("url"), Str(CERT_TIER));
  }

  /**
   When a run is allowed, in terms of what a caller could look at: a documented
   answer from the service, or a failure under an open policy whose audit row
   was stored.
   */
  lemma AllowedExactly(s: Store, a: Args, e: ProtectEnv)
    ensures
      var r := Protected(s, a, e).1;
      var started := !e.clockRaises && (a.correlationId != "" || e.guid.Some?) && a.skill != "";
      var documented := e.reply.Ok?
        && var b := e.reply.body;
           && b.sanitizedText.Str? && (a.text != "" ==> b.sanitizedText.s != "") && b.manifest.Object?
           && forall v :: v in {b.certIdPartial, b.placeholderMapId, b.expiresAt} ==> v.Str? && v.s != "";
      var served := e.config.ConfigReady? && documented;
      var failed := match e.config
                    case ConfigRaises => false
                    case ConfigProblems => !e.laterClockRaises
                    case ConfigReady => e.reply.NotOk? || (e.reply.Ok? && !documented);
      && (r.allowed && r.covered <==> started && served && !e.write.ends.Escapes?)
      && (r.allowed && !r.covered <==>
          started && failed && SkillPolicy.Opens(a.skill, e.table) && Answered(s, e.write).Stored?)
  {
  }

  /** Why a run that was begun could not be covered. */
  predicate Cause(a: Args, e: ProtectEnv, code: Code)
  {
    && !e.clockRaises && (a.correlationId != "" || e.guid.Some?) && a.skill != ""
    && match code
       case ConfigError => e.config.ConfigProblems? && !e.laterClockRaises
       case Unreachable => e.config.ConfigReady? && e.reply.NotOk?
       case ContractError => e.config.ConfigReady? && e.reply.Ok? && !Documented(e.reply.body, a.text)
       case _ => false
  }

  /**
   What a run without coverage is told.  The cause is told unless the policy is
   open and its audit row is not stored, which is an error of its own; whatever
   raises is a platform error, and there is nothing else.
   */
  lemma ErrorsExactly(s: Store, a: Args, e: ProtectEnv)
    ensures
      var r := Protected(s, a, e).1;
      var opens := SkillPolicy.Opens(a.skill, e.table);
      var blocks := !e.blockWrite.ends.Escapes?;
      && (forall code :: code in {ConfigError, Unreachable, ContractError} ==>
            (r.error == Some(code) <==>
             Cause(a, e, code)
             && if opens then Answered(s, e.write).Stored?
                else blocks && !SkillPolicy.PolicyOf(a.skill, e.table).Raised?))
      && (r.error == Some(Unauditable) <==>
            opens && Answered(s, e.write).NotStored? && blocks
            && (Cause(a, e, ConfigError) || Cause(a, e, Unreachable) || Cause(a, e, ContractError)))
      && (r.error == Some(InvalidInput) <==>
            !e.clockRaises && (a.correlationId != "" || e.guid.Some?) && a.skill == "" && !e.laterClockRaises && blocks)
      && (r.error == None <==> r.covered) && r.error !in {Some(NotCovered), Some(NoEvidenceRow)}
      && (r.error in {Some(Unauditable), Some(InvalidInput), Some(PlatformError)} ==> !r.allowed)
  {
    hide Wrote, Evidenced, Judge, Cause, SkillPolicy.Opens;
    JudgedExactly(a, e);
    var v := Judge(a, e);
    assert v.Override? || (v.Refuse? && v.code != InvalidInput) ==> Cause(a, e, v.code);
    assert forall code :: code in {ConfigError, Unreachable, ContractError} && Cause(a, e, code) ==>
        v == Refuse(code) || (v.Override? && v.code == code) || SkillPolicy.PolicyOf(a.skill, e.table).Raised?;
  }

  lemma JudgedExactly(a: Args, e: ProtectEnv)
    ensures
      var v := Judge(a, e);
      var policy := SkillPolicy.PolicyOf(a.skill, e.table);
      && (policy == SkillPolicy.Open <==> SkillPolicy.Opens(a.skill, e.table))
      && (forall code :: code in {ConfigError, Unreachable, ContractError} ==>
            && (v == Refuse(code) <==> Cause(a, e, code) && policy == SkillPolicy.Closed)
            && (v.Override? && v.code == code <==> Cause(a, e, code) && policy == SkillPolicy.Open))
      && (v == Refuse(InvalidInput) <==>
            !e.clockRaises && (a.correlationId != "" || e.guid.Some?) && a.skill == "" && !e.laterClockRaises)
      && (v.Refuse? || v.Override? ==> v.code in {InvalidInput, ConfigError, Unreachable, ContractError})
      && (v.Override? ==> v.code != InvalidInput)
      && (v.Cover? ==> v.partial != "")
  {
    hide Salvage;
  }

  /** The correlation id is the caller's, else the generated one; it is empty only if generating it raised. */
  lemma CorrelationExactly(s: Store, a: Args, e: ProtectEnv)
    ensures
      var id := Protected(s, a, e).1.correlationId;
      && (a.correlationId != "" ==> id == a.correlationId)
      && (a.correlationId == "" ==> id == match e.guid { case Some(generated) => generated case None => "" })
  {
    hide Wrote, Evidenced, Documented;
  }

  /**
   What reaches the skill: the service's text on a covered run; on an override
   the least there is, which is the raw submission only if the service's answer
   carried no other text.
   */
  lemma ForwardsTheLeast(s: Store, a: Args, e: ProtectEnv)
    ensures
      var r := Protected(s, a, e).1;
      var offered := e.config.ConfigReady? && e.reply.Ok? && e.reply.body.sanitizedText.Str?;
      && (r.covered ==> offered && r.textForSkill == e.reply.body.sanitizedText.s && r.forwardedSanitized && Str(r.certIdPartial) == e.reply.body.certIdPartial)
      && (r.allowed && !r.covered ==>
            (r.forwardedSanitized <==> offered && e.reply.body.sanitizedText.s !in ["", a.text])
            && r.textForSkill == (if r.forwardedSanitized then e.reply.body.sanitizedText.s else a.text))
      && (!r.allowed ==> r.textForSkill == "")
  {
    hide Wrote, Evidenced, Answered, RunId, SkillPolicy.PolicyOf;
  }

  /** What a row says about its run: everything but the outcome of sealing. */
  function Account(row: Row): Row
  {
    row.(seal := NotAttempted, certId := "")
  }

  lemma StepKeepsRows(wire: string -> string, h: History, c: Call, id: nat)
    requires InTable(h.world.store) && id in h.world.store.rows
    ensures
      var t := Step(wire, h, c).world.store;
      id in t.rows && Account(t.rows[id]) == Account(h.world.store.rows[id])
  {
    match c
    case DoProtect(a, e) =>
      hide Protected;
      ProtectedHolds(h.world.store, a, e);
    case DoSeal(k, response, forwarded, e) =>
      hide Hears, Asked, Told, RequestFor;
  }

  lemma InTableOf(wire: string -> string, h: History)
    requires Holds(wire, h)
    ensures InTable(h.world.store)
  {
  }

  /** Once written, a row keeps everything but its two seal fields, through every history that follows. */
  lemma {:induction false} RowsAreKept(wire: string -> string, h: History, calls: seq<Call>, id: nat)
    requires Holds(wire, h) && id in h.world.store.rows
    ensures
      var t := After(wire, h, calls).world.store;
      id in t.rows && Account(t.rows[id]) == Account(h.world.store.rows[id])
    decreases |calls|
  {
    hide Holds, Step, Account;
    if calls == [] {
    } else {
      assert InTable(h.world.store) by { InTableOf(wire, h); }
      StepKeepsRows(wire, h, calls[0], id);
      StepHolds(wire, h, calls[0]);
      RowsAreKept(wire, Step(wire, h, calls[0]), calls[1..], id);
    }
  }
}
