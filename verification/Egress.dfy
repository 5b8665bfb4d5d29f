/**
 HTTP framing of the egress proxy (lucairn-audit-egress.py): how many bytes of a
 stream belong to one message body.  One `char` stands for one byte.
 */
module Egress {
  import opened Wrappers
  import opened AsciiText

  type Bytes = string

  const LIMIT := 65536

  // --- Lines ------------------------------------------------------------------

  /** The length of the first line, newline included, or of everything if there is no newline. */
  function LineLength(x: Bytes): (n: nat)
    ensures n <= |x|
  {
    if x == "" then 0 else if x[0] == '\n' then 1 else 1 + LineLength(x[1..])
  }

  /** The framing line at the start of `x`: complete, within the limit, and ended by CRLF. */
  function Line(x: Bytes): (n: Option<nat>)
    ensures n.Some? ==> 2 <= n.value <= |x| && n.value <= LIMIT && x[n.value - 2] == '\r' && x[n.value - 1] == '\n'
  {
    var n := LineLength(x);
    if 2 <= n <= LIMIT && x[n - 2] == '\r' && x[n - 1] == '\n' then Some(n) else None
  }

  // --- Python's bytes methods --------------------------------------------------

  predicate Blank(c: char)
  {
    c == ' ' || '\t' <= c <= '\r'
  }

  /** `x.strip()`. */
  function Strip(x: Bytes): Bytes
  {
    Trim(x, Blank)
  }

  /** `x.split(c)[-1]`. */
  function LastPart(x: Bytes, c: char): Bytes
  {
    if c in x then LastPart(x[|Before(x, c)| + 1..], c) else x
  }

  /** Digits in the base, where one underscore may stand between two of them. */
  function Digits(x: Bytes, acc: nat): Option<nat>
    decreases |x|
  {
    if x == "" || HexDigit(x[0]).None? then None
    else
      var n := 16 * acc + HexDigit(x[0]).value;
      if |x| == 1 then Some(n)
      else if x[1] == '_' then Digits(x[2..], n)
      else Digits(x[1..], n)
  }

  function Unsigned(x: Bytes): Bytes
  {
    if x != "" && (x[0] == '-' || x[0] == '+') then x[1..] else x
  }

  function Unprefixed(x: Bytes): Bytes
  {
    if |x| < 2 || x[0] != '0' || (x[1] != 'x' && x[1] != 'X') then x
    else if |x| >= 3 && x[2] == '_' then x[3..]
    else x[2..]
  }

  /** `int(x, 16)` on trimmed bytes: a sign, `0x` and underscores are allowed, as Python does. */
  function HexInt(x: Bytes): Option<int>
  {
    var n := Digits(Unprefixed(Unsigned(x)), 0);
    if n.None? then None
    else
      var m: int := n.value;
      Some(if x != "" && x[0] == '-' then -m else m)
  }

  // --- Fields -----------------------------------------------------------------

  type Fields = map<Bytes, Bytes>

  const FRAMING: set<Bytes> := {"content-length", "transfer-encoding", "connection", "expect"}

  /** One header line: `None` refuses it. */
  function Field(part: Bytes, fields: Fields): Option<Fields>
  {
    var name := Before(part, ':');
    var key := Lower(name);
    if |name| == |part| || part[0] == ' ' || part[0] == '\t' then None
    else if key !in FRAMING then Some(fields)
    else if key in fields then None
    else Some(fields[key := Lower(Strip(part[|name| + 1..]))])
  }

  function After(k: nat, r: Option<(nat, Fields)>): Option<(nat, Fields)>
  {
    if r.None? then None else Some((k + r.value.0, r.value.1))
  }

  /** A header or trailer section: how long it is, and the framing fields in it. */
  function Head(x: Bytes, used: nat, fields: Fields): (r: Option<(nat, Fields)>)
    decreases |x|
    ensures r.Some? ==> r.value.0 <= |x|
  {
    var n := Line(x);
    if n.None? || used + n.value > LIMIT then None
    else if n.value == 2 then Some((2, fields))
    else
      var f := Field(x[..n.value], fields);
      if f.None? then None
      else
        After(n.value, Head(x[n.value..], used + n.value, f.value))
  }

  // --- Bodies -----------------------------------------------------------------

  function Plus(k: nat, n: Option<nat>): Option<nat>
  {
    if n.None? then None else Some(k + n.value)
  }

  /** The size a chunk header announces. */
  function ChunkSize(line: Bytes): Option<int>
  {
    HexInt(Strip(Before(line, ';')))
  }

  function TrailerLength(x: Bytes): (n: Option<nat>)
    ensures n.Some? ==> n.value <= |x|
  {
    if Head(x, 0, map[]).None? then None else Some(Head(x, 0, map[]).value.0)
  }

  /** One chunk, or the last chunk with its trailers: its length, and whether it was the last. */
  function Chunk(x: Bytes): (r: Option<(nat, bool)>)
    ensures r.Some? ==> 0 < r.value.0 <= |x|
  {
    var n := Line(x);
    if n.None? then None
    else
      var size := ChunkSize(x[..n.value]);
      if size.None? || size.value < 0 then None
      else if size.value == 0 then
        if TrailerLength(x[n.value..]).None? then None
        else Some((n.value + TrailerLength(x[n.value..]).value, true))
      else
        var end := n.value + size.value;
        if |x| < end || Line(x[end..]) != Some(2) then None else Some((end + 2, false))
  }

  /** The length of the chunked body at the start of `x`. */
  function Chunked(x: Bytes): (r: Option<nat>)
    decreases |x|
    ensures r.Some? ==> r.value <= |x|
  {
    var c := Chunk(x);
    if c.None? then None
    else if c.value.1 then Some(c.value.0)
    else Plus(c.value.0, Chunked(x[c.value.0..]))
  }

  predicate IsChunked(transfer: Bytes)
  {
    Strip(LastPart(transfer, ',')) == "chunked"
  }

  /** Where a message ends, and whether that is a boundary rather than the end of the connection. */
  datatype Extent = Extent(length: nat, delimited: bool)

  function FieldOr(fields: Fields, key: Bytes): Option<Bytes>
  {
    if key in fields then Some(fields[key]) else None
  }

  function Delimit(fields: Fields, x: Bytes, response: bool): (r: Option<Extent>)
    ensures r.Some? ==> r.value.length <= |x|
  {
    var transfer := FieldOr(fields, "transfer-encoding");
    var length := FieldOr(fields, "content-length");
    var coded := transfer.Some? && transfer.value != "";
    if coded && length.Some? && length.value != "" then None
    else if coded then
      if !IsChunked(transfer.value) || Chunked(x).None? then None
      else Some(Extent(Chunked(x).value, true))
    else if length.Some? then
      if length.value == "" || !AllDigits(length.value) then None
      else if |x| < NatOf(length.value) then None
      else Some(Extent(NatOf(length.value), true))
    else if response then Some(Extent(|x|, false))
    else Some(Extent(0, true))
  }

  // --- What was taken and what was sent ----------------------------------------------

  /** `x` is `taken` and then `rest`. */
  predicate Split(x: Bytes, taken: Bytes, rest: Bytes)
  {
    x == taken + rest
  }

  /** What is left of `x` is `rest`. */
  predicate Left(x: Bytes, rest: Bytes)
  {
    |rest| <= |x| && rest == x[|x| - |rest|..]
  }

  /** Since `base`, exactly what was taken of `x` was sent. */
  predicate Exact(base: Bytes, sent: Bytes, x: Bytes, rest: Bytes)
  {
    |rest| <= |x| && sent == base + x[..|x| - |rest|]
  }

  /** Since `base`, a prefix of what was taken of `x` was sent, and nothing else. */
  predicate Trails(base: Bytes, sent: Bytes, x: Bytes, rest: Bytes)
  {
    |rest| <= |x| && base <= sent <= base + x[..|x| - |rest|]
  }

  lemma NothingYet(base: Bytes, x: Bytes)
    ensures Split(x, "", x) && Left(x, x) && Exact(base, base, x, x) && Trails(base, base, x, x)
  {
  }

  lemma LeftOf(x: Bytes, taken: Bytes, rest: Bytes)
    ensures Split(x, taken, rest) ==> Left(x, rest) && |x| == |taken| + |rest|
  {
  }

  lemma LeftChain(x: Bytes, y: Bytes, z: Bytes)
    requires Left(x, y) && Left(y, z)
    ensures Left(x, z) && |z| <= |y| <= |x|
  {
  }

  lemma SentChain(base: Bytes, mid: Bytes, sent: Bytes, x: Bytes, y: Bytes, z: Bytes)
    requires Left(x, y) && Left(y, z) && Exact(base, mid, x, y)
    ensures Left(x, z) && Trails(base, mid, x, z)
    ensures Exact(mid, sent, y, z) ==> Exact(base, sent, x, z)
    ensures Trails(mid, sent, y, z) ==> Trails(base, sent, x, z)
  {
    var k, m := |x| - |y|, |y| - |z|;
    assert x[..k] + y[..m] == x[..k + m];
    assert base + x[..k] + y[..m] == base + x[..k + m];
  }

  lemma ExactTrails(base: Bytes, sent: Bytes, x: Bytes, rest: Bytes)
    requires Exact(base, sent, x, rest)
    ensures Trails(base, sent, x, rest)
  {
  }

  lemma SentPiece(mid: Bytes, sent: Bytes, y: Bytes, piece: Bytes, z: Bytes)
    requires Split(y, piece, z)
    ensures Left(y, z)
    ensures Exact(mid, sent, piece, "") ==> Exact(mid, sent, y, z)
    ensures Trails(mid, sent, piece, "") ==> Trails(mid, sent, y, z)
  {
    assert piece[..|piece|] == piece == y[..|y| - |z|];
  }

  // --- The stream, the destination, and the loops over them -------------------------

  /** Everything the peer will still send before it closes, read by as little at a time as the platform likes. */
  class Stream {
    var rest: Bytes

    constructor (data: Bytes)
      ensures rest == data
    {
      rest := data;
    }

    method ReadLine(limit: nat) returns (r: Bytes)
      modifies this
      ensures r == old(rest)[..if LineLength(old(rest)) <= limit then LineLength(old(rest)) else limit]
      ensures Split(old(rest), r, rest)
    {
      var n := LineLength(rest);
      r := rest[..if n <= limit then n else limit];
      rest := rest[|r|..];
    }

    /** At most `n` bytes, possibly fewer; none only at the end of the stream. */
    method Read(n: nat) returns (r: Bytes)
      requires n > 0
      modifies this
      ensures |r| <= n && Split(old(rest), r, rest)
      ensures r == "" <==> old(rest) == ""
    {
      if rest == "" {
        return "";
      }
      var k: nat :| 1 <= k <= n && k <= |rest|;
      r := rest[..k];
      rest := rest[k..];
    }
  }

  /** The other side.  An unhealthy connection may break at any send, with part of the bytes gone out. */
  class Destination {
    const healthy: bool
    var sent: Bytes

    constructor (healthy: bool)
      ensures this.healthy == healthy && sent == ""
    {
      this.healthy := healthy;
      sent := "";
    }

    method SendAll(piece: Bytes) returns (ok: bool)
      modifies this
      ensures healthy ==> ok
      ensures ok ==> Exact(old(sent), sent, piece, "")
      ensures Trails(old(sent), sent, piece, "")
    {
      if healthy {
        sent := sent + piece;
        ok := true;
      } else {
        var k: nat :| k <= |piece|;
        assert piece == piece[..k] + piece[k..];
        sent := sent + piece[..k];
        ok := k == |piece|;
      }
    }
  }

  method ReadFraming(s: Stream) returns (r: Option<Bytes>)
    modifies s
    ensures r.Some? <==> Line(old(s.rest)).Some?
    ensures r.Some? ==> Split(old(s.rest), r.value, s.rest) && Line(old(s.rest)) == Some(|r.value|)
    ensures Left(old(s.rest), s.rest)
  {
    var data := s.ReadLine(LIMIT + 1);
    LeftOf(old(s.rest), data, s.rest);
    if data == "" || |data| > LIMIT || |data| < 2 || data[|data| - 2] != '\r' || data[|data| - 1] != '\n' {
      return None;
    }
    r := Some(data);
  }

  /** One turn of the loop in `head`, read off the definition. */
  lemma HeadStep(x: Bytes, part: Bytes, rest: Bytes, used: nat, fields: Fields)
    requires Split(x, part, rest) && Line(x) == Some(|part|)
    ensures
      Head(x, used, fields) ==
        if used + |part| > LIMIT then None
        else if part == "\r\n" then Some((2, fields))
        else if Field(part, fields).None? then None
        else After(|part|, Head(rest, used + |part|, Field(part, fields).value))
  {
    hide Field, LineLength;
    assert x[..|part|] == part && x[|part|..] == rest;
  }

  lemma HeadNeedsALine(x: Bytes, used: nat, fields: Fields)
    ensures Line(x).None? ==> Head(x, used, fields).None?
  {
    hide Field, LineLength;
  }

  lemma Appended(x: Bytes, raw: Bytes, y: Bytes, part: Bytes, z: Bytes)
    requires Split(x, raw, y) && Split(y, part, z)
    ensures Split(x, raw + part, z)
  {
  }

  method ReadHead(s: Stream) returns (r: Option<(Bytes, Fields)>)
    modifies s
    ensures r.Some? <==> Head(old(s.rest), 0, map[]).Some?
    ensures r.Some? ==>
      && Head(old(s.rest), 0, map[]) == Some((|r.value.0|, r.value.1))
      && Split(old(s.rest), r.value.0, s.rest)
    ensures Left(old(s.rest), s.rest)
  {
    hide Field, Line, LineLength, Head, Split, Left;
    var raw: Bytes, fields: Fields := "", map[];
    ghost var x := s.rest;
    NothingYet("", x);
    while true
      invariant Split(x, raw, s.rest) && Left(x, s.rest)
      invariant Head(x, 0, map[]) == After(|raw|, Head(s.rest, |raw|, fields))
      decreases |s.rest|
    {
      ghost var y := s.rest;
      HeadNeedsALine(y, |raw|, fields);
      var part := ReadFraming(s);
      LeftChain(x, y, s.rest);
      if part.None? {
        return None;
      }
      HeadStep(y, part.value, s.rest, |raw|, fields);
      Appended(x, raw, y, part.value, s.rest);
      LeftOf(y, part.value, s.rest);
      var f := Field(part.value, fields);
      raw := raw + part.value;
      if |raw| > LIMIT || (part.value != "\r\n" && f.None?) {
        return None;
      }
      if part.value == "\r\n" {
        return Some((raw, fields));
      }
      fields := f.value;
    }
  }

  method CopyBytes(s: Stream, d: Destination, length: nat) returns (ok: bool)
    modifies s, d
    ensures Left(old(s.rest), s.rest) && Trails(old(d.sent), d.sent, old(s.rest), s.rest)
    ensures ok ==> |old(s.rest)| == length + |s.rest| && Exact(old(d.sent), d.sent, old(s.rest), s.rest)
    ensures d.healthy ==> (ok <==> length <= |old(s.rest)|)
  {
    hide Split, Left, Exact, Trails;
    ghost var base, x := d.sent, s.rest;
    NothingYet(base, x);
    var left := length;
    while left > 0
      invariant 0 <= left <= length && |x| == |s.rest| + length - left
      invariant Left(x, s.rest) && Exact(base, d.sent, x, s.rest)
    {
      ghost var y, mid := s.rest, d.sent;
      var chunk := s.Read(if left <= LIMIT then left else LIMIT);
      LeftOf(y, chunk, s.rest);
      if chunk == "" {
        SentChain(base, mid, mid, x, y, s.rest);
        return false;
      }
      var sent := d.SendAll(chunk);
      SentPiece(mid, d.sent, y, chunk, s.rest);
      SentChain(base, mid, d.sent, x, y, s.rest);
      if !sent {
        return false;
      }
      left := left - |chunk|;
    }
    ok := true;
    ExactTrails(base, d.sent, x, s.rest);
  }

  /** One turn of the chunk loop, read off the definition. */
  lemma ChunkStep(x: Bytes, line: Bytes, rest: Bytes)
    requires Split(x, line, rest) && Line(x) == Some(|line|)
    ensures
      var size := ChunkSize(line);
      && (size.None? || size.value < 0 ==> Chunk(x).None?)
      && (size == Some(0) ==>
            Chunk(x) == if TrailerLength(rest).None? then None
                        else Some((|line| + TrailerLength(rest).value, true)))
      && (size.Some? && size.value > 0 && |rest| < size.value ==> Chunk(x).None?)
  {
    hide LineLength, ChunkSize, TrailerLength;
    assert x[..|line|] == line && x[|line|..] == rest;
  }

  lemma ChunkEnd(x: Bytes, line: Bytes, y: Bytes, z: Bytes)
    requires Split(x, line, y) && Left(y, z) && z != y
    requires Line(x) == Some(|line|) && ChunkSize(line) == Some(|y| - |z|)
    ensures Chunk(x) == if Line(z) == Some(2) then Some((|x| - |z| + 2, false)) else None
  {
    hide Line, LineLength, ChunkSize, TrailerLength;
    assert x[..|line|] == line;
    assert x[|x| - |z|..] == z;
  }

  /** The size line has been sent; the data of the chunk and its line end follow. */
  method ForwardData(s: Stream, d: Destination, size: nat, ghost x: Bytes, ghost line: Bytes) returns (ok: bool)
    requires size > 0 && Split(x, line, s.rest) && Line(x) == Some(|line|) && ChunkSize(line) == Some(size)
    modifies s, d
    ensures Left(old(s.rest), s.rest) && Trails(old(d.sent), d.sent, old(s.rest), s.rest)
    ensures ok ==>
      && Exact(old(d.sent), d.sent, old(s.rest), s.rest)
      && Chunk(x) == Some((|line| + |old(s.rest)| - |s.rest|, false))
    ensures d.healthy && Chunk(x).Some? ==> ok
  {
    hide Split, Left, Exact, Trails, Line, LineLength, Chunk, ChunkSize;
    ghost var y, base := s.rest, d.sent;
    ChunkStep(x, line, y);
    ok := CopyBytes(s, d, size);
    if !ok {
      return;
    }
    ghost var z, mid := s.rest, d.sent;
    LeftOf(x, line, y);
    ChunkEnd(x, line, y, z);
    var ending := ReadFraming(s);
    SentChain(base, mid, mid, y, z, s.rest);
    if ending.None? || ending.value != "\r\n" {
      EndingIs(z, ending, s.rest);
      return false;
    }
    ok := d.SendAll(ending.value);
    LeftOf(z, ending.value, s.rest);
    SentPiece(mid, d.sent, z, ending.value, s.rest);
    SentChain(base, mid, d.sent, y, z, s.rest);
  }

  lemma EndingIs(z: Bytes, ending: Option<Bytes>, rest: Bytes)
    requires ending.Some? ==> Split(z, ending.value, rest) && Line(z) == Some(|ending.value|)
    ensures ending.Some? ==> (Line(z) == Some(2) <==> ending.value == "\r\n")
  {
    if ending.Some? {
      assert z[..|ending.value|] == ending.value;
    }
  }

  lemma ChunkNeedsALine(x: Bytes)
    ensures Line(x).None? ==> Chunk(x).None?
  {
    hide ChunkSize, TrailerLength;
  }

  lemma TrailersAre(y: Bytes, trailers: Option<(Bytes, Fields)>)
    requires trailers.Some? <==> Head(y, 0, map[]).Some?
    requires trailers.Some? ==> Head(y, 0, map[]) == Some((|trailers.value.0|, trailers.value.1))
    ensures TrailerLength(y) == if trailers.None? then None else Some(|trailers.value.0|)
  {
  }

  /** One turn of the chunk loop in `body`. */
  method ForwardChunk(s: Stream, d: Destination) returns (r: Option<bool>)
    modifies s, d
    ensures Left(old(s.rest), s.rest) && Trails(old(d.sent), d.sent, old(s.rest), s.rest)
    ensures r.Some? ==>
      && Exact(old(d.sent), d.sent, old(s.rest), s.rest)
      && Chunk(old(s.rest)) == Some((|old(s.rest)| - |s.rest|, r.value))
    ensures d.healthy && Chunk(old(s.rest)).Some? ==> r.Some?
  {
    hide Split, Left, Exact, Trails, Line, LineLength, Head, Chunk, ChunkSize, TrailerLength;
    ghost var x, base := s.rest, d.sent;
    NothingYet(base, x);
    ChunkNeedsALine(x);
    var line := ReadFraming(s);
    SentChain(base, base, base, x, x, s.rest);
    if line.None? {
      return None;
    }
    ghost var y := s.rest;
    ChunkStep(x, line.value, y);
    LeftOf(x, line.value, y);
    var size := ChunkSize(line.value);
    if size.None? || size.value < 0 {
      return None;
    }
    var sent := d.SendAll(line.value);
    SentPiece(base, d.sent, x, line.value, y);
    if !sent {
      return None;
    }
    ghost var mid := d.sent;
    if size.value == 0 {
      var trailers := ReadHead(s);
      TrailersAre(y, trailers);
      SentChain(base, mid, mid, x, y, s.rest);
      if trailers.None? {
        return None;
      }
      sent := d.SendAll(trailers.value.0);
      LeftOf(y, trailers.value.0, s.rest);
      SentPiece(mid, d.sent, y, trailers.value.0, s.rest);
      SentChain(base, mid, d.sent, x, y, s.rest);
      return if sent then Some(true) else None;
    }
    sent := ForwardData(s, d, size.value, x, line.value);
    SentChain(base, mid, d.sent, x, y, s.rest);
    r := if sent then Some(false) else None;
  }

  /** The chunk loop, read off the definition. */
  lemma ChunkedStep(x: Bytes, rest: Bytes)
    requires Left(x, rest)
    ensures Chunk(x).None? ==> Chunked(x).None?
    ensures Chunk(x) == Some((|x| - |rest|, true)) ==> Chunked(x) == Some(|x| - |rest|)
    ensures Chunk(x) == Some((|x| - |rest|, false)) ==> Chunked(x) == Plus(|x| - |rest|, Chunked(rest))
  {
    hide Chunk;
  }

  method ForwardChunks(s: Stream, d: Destination) returns (ok: bool)
    modifies s, d
    ensures Left(old(s.rest), s.rest) && Trails(old(d.sent), d.sent, old(s.rest), s.rest)
    ensures ok ==>
      && Exact(old(d.sent), d.sent, old(s.rest), s.rest)
      && Chunked(old(s.rest)) == Some(|old(s.rest)| - |s.rest|)
    ensures d.healthy && Chunked(old(s.rest)).Some? ==> ok
  {
    hide Left, Exact, Trails, Chunk, Chunked;
    ghost var x, base := s.rest, d.sent;
    NothingYet(base, x);
    var last := false;
    while !last
      invariant Left(x, s.rest) && |s.rest| <= |x| && Exact(base, d.sent, x, s.rest)
      invariant Chunked(x) == if last then Some(|x| - |s.rest|) else Plus(|x| - |s.rest|, Chunked(s.rest))
      decreases !last, |s.rest|
    {
      ghost var y, mid := s.rest, d.sent;
      var turn := ForwardChunk(s, d);
      SentChain(base, mid, d.sent, x, y, s.rest);
      ChunkedStep(y, s.rest);
      LeftChain(x, y, s.rest);
      if turn.None? {
        return false;
      }
      last := turn.value;
    }
    ExactTrails(base, d.sent, x, s.rest);
    ok := true;
  }

  /** A response without a length goes on until the connection closes. */
  method ForwardRest(s: Stream, d: Destination) returns (ok: bool)
    modifies s, d
    ensures Left(old(s.rest), s.rest) && Trails(old(d.sent), d.sent, old(s.rest), s.rest)
    ensures ok ==> s.rest == "" && Exact(old(d.sent), d.sent, old(s.rest), s.rest)
    ensures d.healthy ==> ok
  {
    hide Left, Exact, Trails, Split;
    ghost var x, base := s.rest, d.sent;
    NothingYet(base, x);
    while true
      invariant Left(x, s.rest) && Exact(base, d.sent, x, s.rest)
      decreases |s.rest|
    {
      ghost var y, mid := s.rest, d.sent;
      var chunk := s.Read(LIMIT);
      LeftOf(y, chunk, s.rest);
      SentChain(base, mid, mid, x, y, s.rest);
      if chunk == "" {
        return true;
      }
      var sent := d.SendAll(chunk);
      SentPiece(mid, d.sent, y, chunk, s.rest);
      SentChain(base, mid, d.sent, x, y, s.rest);
      if !sent {
        return false;
      }
    }
  }

  /**
   `body`: on a normal return exactly the body was taken and exactly that was
   sent; on every other exit what was sent is a prefix of what was taken.  A
   healthy destination gets every body that can be delimited, whatever the
   sizes of the reads were.
   */
  method Body(s: Stream, d: Destination, fields: Fields, response: bool) returns (r: Option<bool>)
    modifies s, d
    ensures Left(old(s.rest), s.rest) && Trails(old(d.sent), d.sent, old(s.rest), s.rest)
    ensures r.Some? ==>
      && Delimit(fields, old(s.rest), response) == Some(Extent(|old(s.rest)| - |s.rest|, r.value))
      && Exact(old(d.sent), d.sent, old(s.rest), s.rest)
    ensures d.healthy ==> (r.Some? <==> Delimit(fields, old(s.rest), response).Some?)
  {
    hide Left, Exact, Trails, Chunked, Strip, LastPart, NatOf;
    NothingYet(d.sent, s.rest);
    var transfer := FieldOr(fields, "transfer-encoding");
    var length := FieldOr(fields, "content-length");
    if transfer.Some? && transfer.value != "" && length.Some? && length.value != "" {
      return None;
    }
    if transfer.Some? && transfer.value != "" {
      if Strip(LastPart(transfer.value, ',')) != "chunked" {
        return None;
      }
      var ok := ForwardChunks(s, d);
      return if ok then Some(true) else None;
    }
    if length.Some? {
      if length.value == "" || !AllDigits(length.value) {
        return None;
      }
      var ok := CopyBytes(s, d, NatOf(length.value));
      return if ok then Some(true) else None;
    }
    if response {
      var ok := ForwardRest(s, d);
      return if ok then Some(false) else None;
    }
    r := Some(true);
  }
}
