/**
 The per-skill policy lookup of LucairnConfig.js.  The table behind it may drop
 the conditions of the query, so the cursor may hold any rows at all.
 */
module SkillPolicy {
  import opened Wrappers
  import AsciiText

  /** A field value as `getValue` may return it. */
  datatype Raw = Missing | Text(s: string) | Number(n: int) | Flag(b: bool)

  datatype PolicyRow = PolicyRow(name: Raw, active: Raw, failOpen: Raw)

  /**
   What the platform does for one lookup.  A lookup that raises is caught and
   read as a failed schema check; `Raises` is one whose handler raises again,
   out of its own log line.
   */
  datatype Table = Raises | SchemaInvalid | Holds(rows: seq<PolicyRow>)

  datatype Policy = Raised | Closed | Open

  predicate IsSpace(c: char)
  {
    '\t' <= c <= '\r' || c == ' ' || c == '\U{A0}' || c == '\U{1680}' || '\U{2000}' <= c <= '\U{200A}'
    || c == '\U{2028}' || c == '\U{2029}' || c == '\U{202F}' || c == '\U{205F}' || c == '\U{3000}' || c == '\U{FEFF}'
  }

  function Trim(s: string): string
  {
    AsciiText.Trim(s, IsSpace)
  }

  predicate IsTrue(r: Raw)
  {
    r == Text("1") || r == Number(1) || r == Flag(true) || r == Text("true")
  }

  /** `String(raw)` of a name, with nothing for null and undefined. */
  function NameOf(r: Raw): Option<string>
  {
    match r
    case Missing => Some("")
    case Text(s) => Some(s)
    case _ => None
  }

  /** The row names the skill that was asked for; the query is never trusted to have seen to it. */
  predicate Names(row: PolicyRow, skill: string)
  {
    NameOf(row.name).Some? && Trim(NameOf(row.name).value) == Trim(skill)
  }

  /** The cursor of one query: rows handed out one at a time. */
  class Cursor {
    const rows: seq<PolicyRow>
    var at: int

    constructor (rows: seq<PolicyRow>)
      ensures this.rows == rows && at == -1
    {
      this.rows := rows;
      at := -1;
    }

    method Next() returns (more: bool)
      requires -1 <= at < |rows|
      modifies this
      ensures more <==> old(at) + 1 < |rows|
      ensures at == if more then old(at) + 1 else old(at)
    {
      more := at + 1 < |rows|;
      if more {
        at := at + 1;
      }
    }
  }

  /**
   `skillPolicy`.  It opens exactly when the lookup saw one row and no second
   one, and that row's own values name the skill, are active and fail open.
   */
  method LookUp(skill: string, table: Table) returns (p: Policy)
    ensures p == Open <==> Opens(skill, table)
    ensures p == Raised <==> Trim(skill) != "" && table.Raises?
  {
    var name := Trim(skill);
    if name == "" {
      return Closed;
    }
    match table
    case Raises => return Raised;
    case SchemaInvalid => return Closed;
    case Holds(rows) =>
      var gr := new Cursor(rows);
      var more := gr.Next();
      if !more {
        return Closed;
      }
      var row := gr.rows[gr.at];
      var rowName := NameOf(row.name);
      if rowName.None? || Trim(rowName.value) != name {
        return Closed;
      }
      if !IsTrue(row.active) {
        return Closed;
      }
      more := gr.Next();
      if more {
        return Closed;
      }
      p := if IsTrue(row.failOpen) then Open else Closed;
  }

  predicate Opens(skill: string, table: Table)
  {
    && Trim(skill) != "" && table.Holds? && |table.rows| == 1
    && Names(table.rows[0], skill) && IsTrue(table.rows[0].active) && IsTrue(table.rows[0].failOpen)
  }

  function PolicyOf(skill: string, table: Table): Policy
  {
    if Opens(skill, table) then Open
    else if Trim(skill) != "" && table.Raises? then Raised
    else Closed
  }

  /** The text is `core` with white space around it. */
  ghost predicate Padded(s: string, core: string)
  {
    && AsciiText.Tight(core, IsSpace)
    && exists a: string, b: string :: s == a + core + b && AsciiText.All(a, IsSpace) && AsciiText.All(b, IsSpace)
  }

  lemma TrimIsPadded(s: string, core: string)
    ensures Trim(s) == core <==> Padded(s, core)
  {
    if Trim(s) == core {
      var a, b := AsciiText.TrimSplits(s, IsSpace);
    }
    forall a: string, b: string | AsciiText.Tight(core, IsSpace) && s == a + core + b
                                  && AsciiText.All(a, IsSpace) && AsciiText.All(b, IsSpace)
      ensures Trim(s) == core
    {
      AsciiText.TrimOf(a, core, b, IsSpace);
    }
  }

  /** The values that count as true. */
  const TRUE: set<Raw> := {Text("1"), Text("true"), Number(1), Flag(true)}

  /**
   Exactly when a policy opens: the lookup saw one row and no second, the row
   has the name that was asked for, up to white space around either, and its
   own two flags are true.
   */
  lemma OpensExactly(skill: string, table: Table)
    ensures Opens(skill, table) <==>
      && table.Holds? && |table.rows| == 1
      && var row := table.rows[0];
         && row.name.Text? && row.active in TRUE && row.failOpen in TRUE
         && exists core :: core != "" && Padded(skill, core) && Padded(row.name.s, core)
  {
    hide Padded, Trim;
    TrimIsPadded(skill, Trim(skill));
    if table.Holds? && |table.rows| == 1 && table.rows[0].name.Text? {
      var name := table.rows[0].name.s;
      TrimIsPadded(name, Trim(skill));
      forall core | Padded(skill, core) && Padded(name, core)
        ensures Trim(skill) == core && Trim(name) == core
      {
        TrimIsPadded(skill, core);
        TrimIsPadded(name, core);
      }
    }
    TrimIsPadded("", Trim(""));
    NothingToTrim();
  }

  lemma NothingToTrim()
    ensures Trim("") == ""
  {
  }
}
