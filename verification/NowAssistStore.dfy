/**
 The two things the Now Assist adapter works against: the evidence table of
 LucairnEvidence.js, whose platform calls may fail, lie low or raise, and the
 sealing endpoint, which claims a partial certificate identifier once.
 */
module NowAssistStore {
  import opened Wrappers

  datatype Outcome = Covered | Blocked | UncoveredRun

  datatype SealOutcome = NotAttempted | Sealed | Failed

  /** An evidence row.  Record numbers start at 1; 0 stands for the empty `sys_id`. */
  datatype Row = Row(outcome: Outcome, skill: string, correlationId: string, certIdPartial: string,
                     failOpen: bool, seal: SealOutcome, certId: string)

  datatype Store = Store(rows: map<nat, Row>, next: nat)

  /** How a platform call ends: with a `sys_id`, with none, by raising, or by raising out of the script include. */
  datatype Ending = GivesId | NoId | Raises | Escapes

  /**
   The fate of one `write`: does the table pass the schema check, does it have
   the (unchecked) `cert_id_partial` column, does the row land although no id
   comes back, and how does the insert end.
   */
  datatype Insert = Insert(usable: bool, partialColumn: bool, lands: bool, ends: Ending)

  /** The fate of one `recordSeal`: schema and read access, does the update land anyway, and how it ends. */
  datatype Update = Update(found: bool, lands: bool, ends: Ending)

  datatype Written = Stored(id: nat) | NotStored | Threw

  datatype Recorded = Updated | NotUpdated | UpdateThrew

  predicate Lands(fate: Insert)
  {
    if fate.ends.Escapes? then fate.lands else fate.usable && (fate.lands || fate.ends.GivesId?)
  }

  function Kept(row: Row, fate: Insert): Row
  {
    if fate.partialColumn then row else row.(certIdPartial := "")
  }

  function Wrote(s: Store, row: Row, fate: Insert): Store
  {
    if Lands(fate) then Store(s.rows[s.next := Kept(row, fate)], s.next + 1) else s
  }

  function Answered(s: Store, fate: Insert): Written
  {
    if fate.ends.Escapes? then Threw
    else if fate.usable && fate.ends.GivesId? then Stored(s.next)
    else NotStored
  }

  predicate Reaches(s: Store, id: nat, fate: Update)
  {
    id != 0 && id in s.rows && fate.found && (fate.lands || fate.ends.GivesId?)
  }

  function SealedAs(s: Store, id: nat, outcome: SealOutcome, certId: string, fate: Update): Store
  {
    if Reaches(s, id, fate)
    then s.(rows := s.rows[id := s.rows[id].(seal := outcome, certId := certId)])
    else s
  }

  function Told(s: Store, id: nat, fate: Update): Recorded
  {
    if id != 0 && fate.ends.Escapes? then UpdateThrew
    else if id != 0 && id in s.rows && fate.found && fate.ends.GivesId? then Updated
    else NotUpdated
  }

  /** `LucairnEvidence`: `write` and `recordSeal`, neither of which lets a platform exception out. */
  class Evidence {
    var rows: map<nat, Row>
    var next: nat

    constructor ()
      ensures Value() == Store(map[], 1)
    {
      rows, next := map[], 1;
    }

    function Value(): Store
      reads this
    {
      Store(rows, next)
    }

    method Write(row: Row, fate: Insert) returns (reply: Written)
      modifies this
      ensures Value() == Wrote(old(Value()), row, fate)
      ensures reply == Answered(old(Value()), fate)
    {
      if fate.ends.Escapes? {
        if fate.lands {
          rows, next := rows[next := Kept(row, fate)], next + 1;
        }
        return Threw;
      }
      if !fate.usable {
        return NotStored;
      }
      var id := next;
      if fate.ends.GivesId? || fate.lands {
        rows, next := rows[next := if fate.partialColumn then row else row.(certIdPartial := "")], next + 1;
      }
      if !fate.ends.GivesId? {
        return NotStored;
      }
      return Stored(id);
    }

    method RecordSeal(id: nat, outcome: SealOutcome, certId: string, fate: Update) returns (reply: Recorded)
      modifies this
      ensures Value() == SealedAs(old(Value()), id, outcome, certId, fate)
      ensures reply == Told(old(Value()), id, fate)
    {
      if id == 0 {
        return NotUpdated;
      }
      if fate.found && id in rows {
        var gr := rows[id];
        gr := gr.(seal := outcome, certId := certId);
        if fate.ends.GivesId? || fate.lands {
          rows := rows[id := gr];
        }
        if fate.ends.GivesId? {
          return Updated;
        }
      }
      reply := if fate.ends.Escapes? then UpdateThrew else NotUpdated;
    }
  }

  /** A field of a parsed JSON body. */
  datatype Val = Absent | Str(s: string) | Object | Other

  datatype SealRequest = SealRequest(certIdPartial: string, requestHash: string, responseHash: string)

  /**
   What becomes of one sealing request.  `Silent` is every way of not getting a
   success back: the service may have claimed the identifier by then, and may
   even have minted a certificate whose answer was lost.
   */
  datatype SealReply =
    | Silent(claims: bool, minted: Option<string>, raises: bool)
    | Answer(certId: Val, certUrl: Val, tier: Val)

  /** What the client hands back: `ok` with a body, not `ok`, or an exception. */
  datatype Heard = HeardOk(certId: Val, certUrl: Val, tier: Val) | HeardNot | HeardThrow

  /** The service's side: claimed identifiers, the certificates minted for each, and every request it was sent. */
  datatype Service = Service(claimed: set<string>, minted: set<(string, string)>, requests: seq<SealRequest>)

  predicate Claims(reply: SealReply)
  {
    reply.Answer? || reply.claims || reply.minted.Some?
  }

  function Mints(reply: SealReply): Option<string>
  {
    match reply
    case Silent(_, minted, _) => minted
    case Answer(certId, _, _) => if certId.Str? then Some(certId.s) else None
  }

  function Asked(v: Service, q: SealRequest, reply: SealReply): Service
  {
    Service(
      if Claims(reply) then v.claimed + {q.certIdPartial} else v.claimed,
      if q.certIdPartial !in v.claimed && Mints(reply).Some?
      then v.minted + {(q.certIdPartial, Mints(reply).value)} else v.minted,
      v.requests + [q])
  }

  function Hears(v: Service, q: SealRequest, reply: SealReply): Heard
  {
    match reply
    case Silent(_, _, raises) => if raises then HeardThrow else HeardNot
    case Answer(certId, certUrl, tier) =>
      if q.certIdPartial in v.claimed then HeardNot else HeardOk(certId, certUrl, tier)
  }

  /** The sealing endpoint as the client sees it: a claimed identifier is not found a second time. */
  class SealEndpoint {
    var claimed: set<string>
    var minted: set<(string, string)>
    var requests: seq<SealRequest>

    constructor ()
      ensures Value() == Service({}, {}, [])
    {
      claimed, minted, requests := {}, {}, [];
    }

    function Value(): Service
      reads this
    {
      Service(claimed, minted, requests)
    }

    method SealCert(q: SealRequest, reply: SealReply) returns (heard: Heard)
      modifies this
      ensures Value() == Asked(old(Value()), q, reply)
      ensures heard == Hears(old(Value()), q, reply)
    {
      requests := requests + [q];
      var first := q.certIdPartial !in claimed;
      if first && Mints(reply).Some? {
        minted := minted + {(q.certIdPartial, Mints(reply).value)};
      }
      if Claims(reply) {
        claimed := claimed + {q.certIdPartial};
      }
      match reply
      case Silent(_, _, raises) =>
        heard := if raises then HeardThrow else HeardNot;
      case Answer(certId, certUrl, tier) =>
        heard := if first then HeardOk(certId, certUrl, tier) else HeardNot;
    }
  }
}
