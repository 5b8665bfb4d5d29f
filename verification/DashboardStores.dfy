/**
 session.go and oidc_state.go as the objects they are: maps of records under one
 mutex, a method per critical section, the collector as two of them.  Every
 method is the event of Expiring with the same name.
 */
module DashboardStores {
  import opened Wrappers
  import opened Expiring

  datatype Who = Who(user: string, createdAt: int)

  class Session {
    const who: Who
    var lastSeen: int

    constructor (who: Who, lastSeen: int)
      ensures this.who == who && this.lastSeen == lastSeen
    {
      this.who, this.lastSeen := who, lastSeen;
    }

    function Record(): Entry<Who>
      reads this
    {
      Entry(who, lastSeen)
    }
  }

  class MemorySessionStore {
    const idleTimeout: int
    var entries: map<string, Session>

    constructor (idleTimeout: int)
      ensures Valid() && View() == map[] && this.idleTimeout == idleTimeout
    {
      this.idleTimeout, entries := idleTimeout, map[];
    }

    /** No record is filed under two identifiers. */
    ghost predicate Valid()
      reads this
    {
      forall i, j :: i in entries && j in entries && i != j ==> entries[i] != entries[j]
    }

    ghost function View(): map<string, Entry<Who>>
      reads this, entries.Values
    {
      map id | id in entries :: entries[id].Record()
    }

    /** `Create`, with the identifier the random source gave and the clock read before the lock was taken. */
    method Create(issued: Option<string>, user: string, now: int) returns (r: Option<Session>)
      requires Valid()
      modifies this
      ensures Valid()
      ensures issued.None? ==> r.None? && View() == old(View())
      ensures issued.Some? ==>
        && r.Some? && fresh(r.value) && issued.value in entries && entries[issued.value] == r.value
        && View() == Apply(idleTimeout, old(View()), Insert(issued.value, Who(user, now), now))
    {
      if issued.None? {
        return None;
      }
      var sess := new Session(Who(user, now), now);
      entries := entries[issued.value := sess];
      r := Some(sess);
    }

    method Get(id: string, now: int) returns (r: Option<Session>)
      requires Valid()
      ensures Got(if r.Some? then Some(r.value.Record()) else None) == Reply(idleTimeout, View(), Event.Get(id, now))
      ensures r.Some? ==> id in entries && r.value == entries[id]
    {
      if id !in entries {
        return None;
      }
      var sess := entries[id];
      if now - sess.lastSeen > idleTimeout {
        return None;
      }
      r := Some(sess);
    }

    method Touch(id: string, now: int, later: int) returns (ok: bool)
      requires Valid()
      modifies this, entries.Values
      ensures Valid() && entries.Values <= old(entries.Values)
      ensures View() == Apply(idleTimeout, old(View()), Event.Touch(id, now, later))
      ensures Refreshed(ok) == Reply(idleTimeout, old(View()), Event.Touch(id, now, later))
    {
      if id !in entries {
        return false;
      }
      var sess := entries[id];
      if now - sess.lastSeen > idleTimeout {
        entries := entries - {id};
        return false;
      }
      sess.lastSeen := later;
      ok := true;
    }

    method GetAndTouch(id: string, now: int, later: int) returns (r: Option<Session>)
      requires Valid()
      modifies this, entries.Values
      ensures Valid() && entries.Values <= old(entries.Values)
      ensures View() == Apply(idleTimeout, old(View()), Event.GetAndTouch(id, now, later))
      ensures Got(if r.Some? then Some(r.value.Record()) else None)
              == Reply(idleTimeout, old(View()), Event.GetAndTouch(id, now, later))
      ensures r.Some? ==> id in entries && r.value == entries[id]
    {
      if id !in entries {
        return None;
      }
      var sess := entries[id];
      if now - sess.lastSeen > idleTimeout {
        entries := entries - {id};
        return None;
      }
      sess.lastSeen := later;
      r := Some(sess);
    }

    method Delete(id: string)
      requires Valid()
      modifies this
      ensures Valid() && View() == Apply(idleTimeout, old(View()), Event.Delete(id))
    {
      entries := entries - {id};
    }

    /** The first half of `collect`: the clock is read outside the lock. */
    method CutoffAt(now: int) returns (cutoff: int)
      ensures Cutoffs<Who>(idleTimeout, {}, Cutoff(now)) == {cutoff}
    {
      cutoff := now - idleTimeout;
    }

    /** The second half of `collect`, under the lock. */
    method Collect(cutoff: int)
      requires Valid()
      modifies this
      ensures Valid() && View() == Apply(idleTimeout, old(View()), Sweep(cutoff))
    {
      var ids := entries.Keys;
      ghost var all := entries;
      while ids != {}
        invariant ids <= entries.Keys <= all.Keys && (forall id :: id in entries ==> entries[id] == all[id])
        invariant forall id :: id in all && id !in ids ==> (id in entries <==> all[id].lastSeen >= cutoff)
        decreases |ids|
      {
        var id :| id in ids;
        if entries[id].lastSeen < cutoff {
          entries := entries - {id};
        }
        ids := ids - {id};
      }
    }
  }

  datatype Flow = Flow(nonce: string, codeVerifier: string, nextPath: string)

  datatype FlowState = FlowState(flow: Flow, createdAt: int)

  class MemoryOIDCStateStore {
    const ttl: int
    var entries: map<string, FlowState>

    constructor (ttl: int)
      ensures View() == map[] && this.ttl == ttl
    {
      this.ttl, entries := ttl, map[];
    }

    ghost function View(): map<string, Entry<Flow>>
      reads this
    {
      map state | state in entries :: Entry(entries[state].flow, entries[state].createdAt)
    }

    /** `Create`: three tokens from the random source, each of which may fail. */
    method Create(state: Option<string>, verifier: Option<string>, nonce: Option<string>, nextPath: string, now: int)
      returns (r: Option<FlowState>)
      modifies this
      ensures r.Some? <==> state.Some? && verifier.Some? && nonce.Some?
      ensures r.None? ==> View() == old(View())
      ensures r.Some? ==>
        && r.value == FlowState(Flow(nonce.value, verifier.value, nextPath), now)
        && View() == Apply(ttl, old(View()), Insert(state.value, r.value.flow, now))
    {
      if state.None? || verifier.None? || nonce.None? {
        return None;
      }
      var rec := FlowState(Flow(nonce.value, verifier.value, nextPath), now);
      entries := entries[state.value := rec];
      r := Some(rec);
    }

    method Consume(state: string, now: int) returns (r: Option<FlowState>)
      modifies this
      ensures View() == Apply(ttl, old(View()), Event.Consume(state, now))
      ensures Got(if r.Some? then Some(Entry(r.value.flow, r.value.createdAt)) else None)
              == Reply(ttl, old(View()), Event.Consume(state, now))
    {
      if state !in entries {
        return None;
      }
      var rec := entries[state];
      entries := entries - {state};
      if now - rec.createdAt > ttl {
        return None;
      }
      r := Some(rec);
    }

    method CutoffAt(now: int) returns (cutoff: int)
      ensures Cutoffs<Flow>(ttl, {}, Cutoff(now)) == {cutoff}
    {
      cutoff := now - ttl;
    }

    method Collect(cutoff: int)
      modifies this
      ensures View() == Apply(ttl, old(View()), Sweep(cutoff))
    {
      var states := entries.Keys;
      ghost var all := entries;
      while states != {}
        invariant states <= entries.Keys <= all.Keys && (forall s :: s in entries ==> entries[s] == all[s])
        invariant forall s :: s in all && s !in states ==> (s in entries <==> all[s].createdAt >= cutoff)
        decreases |states|
      {
        var s :| s in states;
        if entries[s].createdAt < cutoff {
          entries := entries - {s};
        }
        states := states - {s};
      }
    }
  }
}
