/**
 LucairnNowAssistAdapter.js: the protect step and the seal step, each against a
 platform where any call may fail or raise.  An exception is an out-parameter
 or a `None` result; what the adapter forwards, blocks and seals is compared
 with a flat account of the same decision.
 */
module NowAssist {
  import opened Wrappers
  import opened NowAssistStore
  import opened SkillPolicy

  datatype Code =
    | ConfigError | Unreachable | ContractError | InvalidInput
    | NotCovered | PlatformError | Unauditable | NoEvidenceRow

  /** The arguments of `protect`, with the empty string for what the caller left out. */
  datatype Args = Args(skill: string, text: string, correlationId: string)

  datatype Config = ConfigRaises | ConfigProblems | ConfigReady

  datatype Body = Body(sanitizedText: Val, certIdPartial: Val, placeholderMapId: Val, expiresAt: Val, manifest: Val)

  datatype SanitizeReply = ClientRaises | NotOk | Ok(body: Body)

  /** Everything outside the adapter that one `protect` call depends on. */
  datatype ProtectEnv = ProtectEnv(
    guid: Option<string>, clockRaises: bool, laterClockRaises: bool,
    config: Config, reply: SanitizeReply, table: Table,
    write: Insert, blockWrite: Insert, hardWrite: Insert)

  datatype Result = Result(
    allowed: bool, covered: bool, textForSkill: string, forwardedSanitized: bool,
    certIdPartial: string, correlationId: string, evidenceId: nat, evidenceStored: bool, error: Option<Code>)

  datatype World = World(store: Store, service: Service)

  predicate NonEmpty(v: Val)
  {
    v.Str? && v.s != ""
  }

  /** `_validateSanitizeBody` finds no problem. */
  predicate Documented(b: Body, text: string)
  {
    && b.sanitizedText.Str? && (text != "" ==> b.sanitizedText.s != "")
    && NonEmpty(b.certIdPartial) && NonEmpty(b.placeholderMapId) && NonEmpty(b.expiresAt) && b.manifest.Object?
  }

  /** The sanitized text that a malformed body carries nonetheless. */
  function Salvage(b: Body, text: string): Option<string>
  {
    if NonEmpty(b.sanitizedText) && b.sanitizedText.s != text then Some(b.sanitizedText.s) else None
  }

  /** The correlation id of a run: the caller's, else a generated one, else none. */
  function RunId(a: Args, e: ProtectEnv): string
  {
    if a.correlationId != "" then a.correlationId
    else if e.guid.Some? then e.guid.value
    else ""
  }

  /** What is decided before any evidence is written. */
  datatype Verdict =
    | Crash
    | Refuse(code: Code)
    | Override(code: Code, salvage: Option<string>)
    | Cover(text: string, partial: string)

  function Judge(a: Args, e: ProtectEnv): Verdict
  {
    if e.clockRaises || (a.correlationId == "" && e.guid.None?) then Crash
    else if a.skill == "" || e.config.ConfigProblems? then
      if e.laterClockRaises then Crash
      else if a.skill == "" then Refuse(InvalidInput)
      else Fallback(a, e, ConfigError, None)
    else if e.config.ConfigRaises? || e.reply.ClientRaises? then Crash
    else if e.reply.NotOk? then Fallback(a, e, Unreachable, None)
    else if !Documented(e.reply.body, a.text) then Fallback(a, e, ContractError, Salvage(e.reply.body, a.text))
    else Cover(e.reply.body.sanitizedText.s, e.reply.body.certIdPartial.s)
  }

  function Fallback(a: Args, e: ProtectEnv, code: Code, salvage: Option<string>): Verdict
  {
    match PolicyOf(a.skill, e.table)
    case Raised => Crash
    case Closed => Refuse(code)
    case Open => Override(code, salvage)
  }

  function Evidenced(outcome: Outcome, a: Args, e: ProtectEnv, partial: string): Row
  {
    Row(outcome, a.skill, RunId(a, e), partial, outcome.UncoveredRun?, NotAttempted, "")
  }

  function Refused(a: Args, e: ProtectEnv, code: Code, w: Written): Result
  {
    Result(false, false, "", false, "", RunId(a, e), if w.Stored? then w.id else 0, w.Stored?, Some(code))
  }

  /** `_hardBlock`: the one place that depends on nothing having worked. */
  function HardBlocked(s: Store, a: Args, e: ProtectEnv): (Store, Result)
  {
    (Wrote(s, Evidenced(Blocked, a, e, ""), e.hardWrite),
     Refused(a, e, PlatformError, Answered(s, e.hardWrite)))
  }

  function BlockedWith(s: Store, a: Args, e: ProtectEnv, code: Code): (Store, Result)
  {
    var row := Evidenced(Blocked, a, e, "");
    var s1 := Wrote(s, row, e.blockWrite);
    if Answered(s, e.blockWrite).Threw? then HardBlocked(s1, a, e)
    else (s1, Refused(a, e, code, Answered(s, e.blockWrite)))
  }

  /** `protect` as a whole: the verdict, and what the evidence writes make of it. */
  function Protected(s: Store, a: Args, e: ProtectEnv): (Store, Result)
  {
    match Judge(a, e)
    case Crash => HardBlocked(s, a, e)
    case Refuse(code) => BlockedWith(s, a, e, code)
    case Override(code, salvage) =>
      var s1 := Wrote(s, Evidenced(UncoveredRun, a, e, ""), e.write);
      (match Answered(s, e.write)
       case Threw => HardBlocked(s1, a, e)
       case NotStored => BlockedWith(s1, a, e, Unauditable)
       case Stored(id) =>
         var text := if salvage.Some? then salvage.value else a.text;
         (s1, Result(true, false, text, salvage.Some?, "", RunId(a, e), id, true, Some(code))))
    case Cover(text, partial) =>
      var s1 := Wrote(s, Evidenced(Covered, a, e, partial), e.write);
      (match Answered(s, e.write)
       case Threw => HardBlocked(s1, a, e)
       case NotStored => (s1, Result(true, true, text, true, partial, RunId(a, e), 0, false, None))
       case Stored(id) => (s1, Result(true, true, text, true, partial, RunId(a, e), id, true, None)))
  }

  /** Everything outside the adapter that one `seal` call depends on. */
  datatype SealEnv = SealEnv(config: Config, reply: SealReply, sealedUpdate: Update, failedUpdate: Update)

  datatype SealResult = SealResult(sealed: bool, certId: string, certUrl: string, sealRecorded: bool, error: Option<Code>)

  const CERT_TIER := "input-shield"

  /** `_validateSealBody` finds no problem. */
  predicate Certificate(certId: Val, certUrl: Val, tier: Val)
  {
    NonEmpty(certId) && NonEmpty(certUrl) && tier == Str(CERT_TIER)
  }

  function NotSealed(code: Code): SealResult
  {
    SealResult(false, "", "", false, Some(code))
  }

  function SealingFailed(s: Store, pr: Result, e: SealEnv, code: Code): (Store, SealResult)
  {
    (SealedAs(s, pr.evidenceId, Failed, "", e.failedUpdate),
     NotSealed(code).(sealRecorded := Told(s, pr.evidenceId, e.failedUpdate).Updated?))
  }

  /** The guards of `seal` that come before anything is hashed or sent. */
  predicate Sealable(pr: Result)
  {
    pr.covered && pr.certIdPartial != "" && pr.evidenceStored && pr.evidenceId != 0
  }

  predicate Sends(pr: Result, response: Option<string>, e: SealEnv)
  {
    Sealable(pr) && response.Some? && response.value != "" && e.config.ConfigReady?
  }

  function RequestFor(wire: string -> string, pr: Result, response: string, forwarded: Option<string>): SealRequest
  {
    SealRequest(pr.certIdPartial, wire(if forwarded.Some? then forwarded.value else pr.textForSkill), wire(response))
  }

  /** `seal` as a whole; `wire` is the content hash. */
  function SealOf(w: World, wire: string -> string, pr: Result, response: Option<string>, forwarded: Option<string>,
                  e: SealEnv): (World, SealResult)
  {
    if !pr.covered || pr.certIdPartial == "" then (w, NotSealed(NotCovered))
    else if !Sealable(pr) then (w, NotSealed(NoEvidenceRow))
    else if !Sends(pr, response, e) then
      if response.Some? && response.value != "" && e.config.ConfigRaises? then (w, NotSealed(PlatformError))
      else
        var code := if response.None? || response.value == "" then InvalidInput else ConfigError;
        var (s, r) := SealingFailed(w.store, pr, e, code);
        (w.(store := s), r)
    else
      var q := RequestFor(wire, pr, response.value, forwarded);
      var v := Asked(w.service, q, e.reply);
      match Hears(w.service, q, e.reply)
      case HeardThrow => (w.(service := v), NotSealed(PlatformError))
      case HeardNot =>
        var (s, r) := SealingFailed(w.store, pr, e, Unreachable);
        (World(s, v), r)
      case HeardOk(certId, certUrl, tier) =>
        if !Certificate(certId, certUrl, tier) then
          var (s, r) := SealingFailed(w.store, pr, e, ContractError);
          (World(s, v), r)
        else
          (World(SealedAs(w.store, pr.evidenceId, Sealed, certId.s, e.sealedUpdate), v),
           SealResult(true, certId.s, certUrl.s, Told(w.store, pr.evidenceId, e.sealedUpdate).Updated?, None))
  }

  /** The record that `protect` keeps so that a late exception does not lose what already happened. */
  class RunState {
    var correlationId: string
    var evidenceId: nat
    var outcomeRecorded: Option<Outcome>

    constructor ()
      ensures correlationId == "" && evidenceId == 0 && outcomeRecorded == None
    {
      correlationId, evidenceId, outcomeRecorded := "", 0, None;
    }
  }

  /** The adapter, over one evidence table and one sealing endpoint. */
  class Adapter {
    const evidence: Evidence
    const endpoint: SealEndpoint

    constructor ()
      ensures fresh(evidence) && fresh(endpoint)
      ensures State() == World(Store(map[], 1), Service({}, {}, []))
    {
      var table := new Evidence();
      var service := new SealEndpoint();
      evidence, endpoint := table, service;
    }

    function State(): World
      reads this, evidence, endpoint
    {
      World(evidence.Value(), endpoint.Value())
    }

    /** The outermost guard: whatever `_protect` raises becomes a block. */
    method Protect(a: Args, e: ProtectEnv) returns (r: Result)
      modifies evidence
      ensures (evidence.Value(), r) == Protected(old(evidence.Value()), a, e)
    {
      var state := new RunState();
      var tried := Try(a, e, state);
      if tried.Some? {
        return tried.value;
      }
      r := HardBlock(a, e, state);
    }

    /** `_protect`; `None` when a platform call raised. */
    method Try(a: Args, e: ProtectEnv, state: RunState) returns (r: Option<Result>)
      requires state.correlationId == "" && state.outcomeRecorded == None
      modifies evidence, state
      ensures r.None? ==> state.correlationId == RunId(a, e) && state.outcomeRecorded == None
      ensures
        var before := old(evidence.Value());
        if r.Some? then (evidence.Value(), r.value) == Protected(before, a, e)
        else HardBlocked(evidence.Value(), a, e) == Protected(before, a, e)
    {
      if a.correlationId == "" && e.guid.None? {
        return None;
      }
      var correlationId := if a.correlationId != "" then a.correlationId else e.guid.value;
      state.correlationId := correlationId;
      if e.clockRaises {
        return None;
      }
      if a.skill == "" {
        if e.laterClockRaises {
          return None;
        }
        r := Block(a, e, InvalidInput, state);
        return;
      }
      if e.config.ConfigRaises? {
        return None;
      }
      if e.config.ConfigProblems? {
        if e.laterClockRaises {
          return None;
        }
        r := Decide(a, e, ConfigError, None, state);
        return;
      }
      match e.reply
      case ClientRaises =>
        return None;
      case NotOk =>
        r := Decide(a, e, Unreachable, None, state);
      case Ok(body) =>
        if !Documented(body, a.text) {
          r := Decide(a, e, ContractError, Salvage(body, a.text), state);
          return;
        }
        var w := evidence.Write(
          Row(Covered, a.skill, correlationId, body.certIdPartial.s, false, NotAttempted, ""), e.write);
        if w.Threw? {
          return None;
        }
        if w.Stored? {
          state.evidenceId, state.outcomeRecorded := w.id, Some(Covered);
        }
        r := Some(Result(true, true, body.sanitizedText.s, true, body.certIdPartial.s, correlationId,
                         if w.Stored? then w.id else 0, w.Stored?, None));
    }

    /** The fail-closed / fail-open fork. */
    method Decide(a: Args, e: ProtectEnv, code: Code, salvage: Option<string>, state: RunState)
      returns (r: Option<Result>)
      requires state.correlationId == RunId(a, e) && state.outcomeRecorded == None
      requires Judge(a, e) == Fallback(a, e, code, salvage)
      modifies evidence, state
      ensures r.None? ==> state.correlationId == RunId(a, e) && state.outcomeRecorded == None
      ensures
        var before := old(evidence.Value());
        if r.Some? then (evidence.Value(), r.value) == Protected(before, a, e)
        else HardBlocked(evidence.Value(), a, e) == Protected(before, a, e)
    {
      var policy := LookUp(a.skill, e.table);
      if policy.Raised? {
        return None;
      }
      if policy != Open {
        r := Block(a, e, code, state);
        return;
      }
      var forwarded := if salvage.Some? then salvage.value else a.text;
      var w := evidence.Write(Row(UncoveredRun, a.skill, state.correlationId, "", true, NotAttempted, ""), e.write);
      if w.Threw? {
        return None;
      }
      if w.NotStored? {
        r := Block(a, e, Unauditable, state);
        return;
      }
      state.evidenceId, state.outcomeRecorded := w.id, Some(UncoveredRun);
      r := Some(Result(true, false, forwarded, salvage.Some?, "", state.correlationId, w.id, true, Some(code)));
    }

    method Block(a: Args, e: ProtectEnv, code: Code, state: RunState) returns (r: Option<Result>)
      requires state.correlationId == RunId(a, e) && state.outcomeRecorded == None
      modifies evidence, state
      ensures r.None? ==> state.correlationId == RunId(a, e) && state.outcomeRecorded == None
      ensures
        var before := old(evidence.Value());
        if r.Some? then (evidence.Value(), r.value) == BlockedWith(before, a, e, code)
        else HardBlocked(evidence.Value(), a, e) == BlockedWith(before, a, e, code)
    {
      var w := evidence.Write(Row(Blocked, a.skill, state.correlationId, "", false, NotAttempted, ""), e.blockWrite);
      if w.Threw? {
        return None;
      }
      if w.Stored? {
        state.evidenceId, state.outcomeRecorded := w.id, Some(Blocked);
      }
      r := Some(Result(false, false, "", false, "", state.correlationId,
                       if w.Stored? then w.id else 0, w.Stored?, Some(code)));
    }

    /**
     The last-resort block.  It is only ever reached before an outcome was
     recorded, so its "superseded row" message is never needed.
     */
    method HardBlock(a: Args, e: ProtectEnv, state: RunState) returns (r: Result)
      requires state.correlationId == RunId(a, e) && state.outcomeRecorded == None
      modifies evidence
      ensures (evidence.Value(), r) == HardBlocked(old(evidence.Value()), a, e)
    {
      var correlationId := if state.correlationId != "" then state.correlationId else a.correlationId;
      var w := evidence.Write(Row(Blocked, a.skill, correlationId, "", false, NotAttempted, ""), e.hardWrite);
      r := Result(false, false, "", false, "", correlationId,
                  if w.Stored? then w.id else 0, w.Stored?, Some(PlatformError));
    }

    /** `seal`, with the guard that turns an exception before the certificate into a typed refusal. */
    method Seal(wire: string -> string, pr: Result, response: Option<string>, forwarded: Option<string>, e: SealEnv)
      returns (r: SealResult)
      modifies evidence, endpoint
      ensures (State(), r) == SealOf(old(State()), wire, pr, response, forwarded, e)
    {
      if !pr.covered || pr.certIdPartial == "" {
        return NotSealed(NotCovered);
      }
      if !pr.evidenceStored || pr.evidenceId == 0 {
        return NotSealed(NoEvidenceRow);
      }
      if response.None? || response.value == "" {
        r := RecordFailure(pr, e, InvalidInput);
        return;
      }
      var text := if forwarded.Some? then forwarded.value else pr.textForSkill;
      if e.config.ConfigRaises? {
        return NotSealed(PlatformError);
      }
      if e.config.ConfigProblems? {
        r := RecordFailure(pr, e, ConfigError);
        return;
      }
      var heard := endpoint.SealCert(SealRequest(pr.certIdPartial, wire(text), wire(response.value)), e.reply);
      match heard
      case HeardThrow =>
        r := NotSealed(PlatformError);
      case HeardNot =>
        r := RecordFailure(pr, e, Unreachable);
      case HeardOk(certId, certUrl, tier) =>
        if !Certificate(certId, certUrl, tier) {
          r := RecordFailure(pr, e, ContractError);
          return;
        }
        var recorded := evidence.RecordSeal(pr.evidenceId, Sealed, certId.s, e.sealedUpdate);
        r := SealResult(true, certId.s, certUrl.s, recorded.Updated?, None);
    }

    method RecordFailure(pr: Result, e: SealEnv, code: Code) returns (r: SealResult)
      modifies evidence
      ensures (evidence.Value(), r) == SealingFailed(old(evidence.Value()), pr, e, code)
    {
      var recorded := evidence.RecordSeal(pr.evidenceId, Failed, "", e.failedUpdate);
      r := NotSealed(code).(sealRecorded := recorded.Updated?);
    }
  }
}
