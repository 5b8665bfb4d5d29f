/**
 What the framing of Egress means: a body ends where RFC 9112 says it ends, and
 what follows it has no say in that.
 */
module EgressFraming {
  import opened Wrappers
  import opened AsciiText
  import opened Egress

  // --- Lines ------------------------------------------------------------------

  predicate NewlineFree(x: Bytes)
  {
    '\n' !in x
  }

  predicate IsLine(x: Bytes)
  {
    2 <= |x| <= LIMIT && NewlineFree(x[..|x| - 1]) && x[|x| - 2] == '\r' && x[|x| - 1] == '\n'
  }

  lemma {:induction false} LineLengthOf(x: Bytes, rest: Bytes)
    requires NewlineFree(x)
    ensures LineLength(x + "\n" + rest) == |x| + 1
  {
    var y := x + "\n" + rest;
    if x == "" {
    } else {
      assert y[0] == x[0] && x[0] in x;
      assert y[1..] == x[1..] + "\n" + rest;
      assert forall c :: c in x[1..] ==> c in x;
      LineLengthOf(x[1..], rest);
    }
  }

  lemma {:induction false} LineLengthSplits(x: Bytes)
    ensures var n := LineLength(x); n > 0 && x[n - 1] == '\n' ==> NewlineFree(x[..n - 1])
  {
    if x != "" && x[0] != '\n' {
      LineLengthSplits(x[1..]);
      var n := LineLength(x[1..]);
      if n > 0 {
        assert x[..n] == [x[0]] + x[1..][..n - 1];
      }
    }
  }

  /** The line of a stream is the one prefix of it that is a line. */
  lemma LineIsThePrefix(line: Bytes, rest: Bytes)
    requires IsLine(line)
    ensures Line(line + rest) == Some(|line|)
  {
    var text := line[..|line| - 1];
    assert line == text + "\n";
    assert line + rest == text + "\n" + rest;
    LineLengthOf(text, rest);
  }

  lemma PrefixIsALine(x: Bytes)
    ensures Line(x).Some? ==> IsLine(x[..Line(x).value])
  {
    LineLengthSplits(x);
    if Line(x).Some? {
      var n := Line(x).value;
      assert x[..n][..n - 1] == x[..n - 1];
    }
  }

  // --- A body does not depend on what follows it ---------------------------------

  lemma LineLocal(x: Bytes, y: Bytes)
    ensures Line(x).Some? && Line(x).value <= |y| && x[..Line(x).value] == y[..Line(x).value] ==> Line(y) == Line(x)
  {
    if Line(x).Some? && Line(x).value <= |y| && x[..Line(x).value] == y[..Line(x).value] {
      var n := Line(x).value;
      PrefixIsALine(x);
      LineIsThePrefix(y[..n], y[n..]);
      assert y == y[..n] + y[n..];
    }
  }

  /** The first `n` bytes are the same. */
  predicate Agree(x: Bytes, y: Bytes, n: nat)
  {
    n <= |x| && n <= |y| && x[..n] == y[..n]
  }

  lemma AgreeParts(x: Bytes, y: Bytes, k: nat, n: nat)
    requires Agree(x, y, n) && k <= n
    ensures Agree(x, y, k) && Agree(x[k..], y[k..], n - k) && x[..k] == y[..k]
  {
    assert x[..k] == x[..n][..k] && y[..k] == y[..n][..k];
    assert x[k..][..n - k] == x[..n][k..] && y[k..][..n - k] == y[..n][k..];
  }

  lemma {:induction false} HeadLocal(x: Bytes, y: Bytes, used: nat, fields: Fields)
    requires Head(x, used, fields).Some? && Agree(x, y, Head(x, used, fields).value.0)
    ensures Head(y, used, fields) == Head(x, used, fields)
    decreases |x|
  {
    hide Line, Field;
    var n := Line(x).value;
    AgreeParts(x, y, n, Head(x, used, fields).value.0);
    LineLocal(x, y);
    if n != 2 {
      HeadLocal(x[n..], y[n..], used + n, Field(x[..n], fields).value);
    }
  }

  lemma ChunkLocal(x: Bytes, y: Bytes)
    requires Chunk(x).Some? && Agree(x, y, Chunk(x).value.0)
    ensures Chunk(y) == Chunk(x)
  {
    hide Line, Head, ChunkSize;
    var n := Line(x).value;
    var all := Chunk(x).value.0;
    AgreeParts(x, y, n, all);
    LineLocal(x, y);
    var size := ChunkSize(x[..n]).value;
    if size == 0 {
      HeadLocal(x[n..], y[n..], 0, map[]);
    } else {
      AgreeParts(x, y, n + size, all);
      LineLocal(x[n + size..], y[n + size..]);
    }
  }

  lemma {:induction false} ChunkedLocal(x: Bytes, y: Bytes)
    requires Chunked(x).Some? && Agree(x, y, Chunked(x).value)
    ensures Chunked(y) == Chunked(x)
    decreases |x|
  {
    hide Chunk;
    var n := Chunk(x).value.0;
    AgreeParts(x, y, n, Chunked(x).value);
    ChunkLocal(x, y);
    if !Chunk(x).value.1 {
      ChunkedLocal(x[n..], y[n..]);
    }
  }

  /**
   A delimited body is self-delimiting: any stream that starts with the same
   bytes has the same body, so the next message is none of its business.
   */
  lemma SelfDelimiting(fields: Fields, x: Bytes, y: Bytes, response: bool)
    requires Delimit(fields, x, response).Some? && Delimit(fields, x, response).value.delimited
    requires Agree(x, y, Delimit(fields, x, response).value.length)
    ensures Delimit(fields, y, response) == Delimit(fields, x, response)
  {
    hide Chunked, Strip, LastPart, NatOf;
    if FieldOr(fields, "transfer-encoding") !in {None, Some("")} {
      ChunkedLocal(x, y);
    }
  }

  // --- Section 7.1 of RFC 9112 -----------------------------------------------------

  /** A chunk: what stands on its size line, and its data. */
  datatype Piece = Piece(text: Bytes, data: Bytes)

  datatype Message = Message(pieces: seq<Piece>, last: Piece, trailers: seq<(Bytes, Bytes)>)

  predicate IsHex(x: Bytes)
  {
    x != "" && forall c :: c in x ==> HexDigit(c).Some?
  }

  function HexValue(x: Bytes): nat
    requires forall c :: c in x ==> HexDigit(c).Some?
  {
    if x == "" then 0
    else
      assert HexDigit(x[|x| - 1]).Some?;
      16 * HexValue(x[..|x| - 1]) + HexDigit(x[|x| - 1]).value
  }

  /** A chunk extension: white space, a semicolon, and anything on the same line. */
  predicate IsExtension(x: Bytes)
  {
    NewlineFree(x)
    && (x == "" || exists k: nat :: k < |x| && x[k] == ';' && forall i :: 0 <= i < k ==> x[i] == ' ' || x[i] == '\t')
  }

  /** The size in plain hexadecimal, up to `k`, and an extension behind it. */
  predicate SizedAt(p: Piece, k: nat)
  {
    && k <= |p.text| && IsHex(p.text[..k]) && HexValue(p.text[..k]) == |p.data| && IsExtension(p.text[k..])
  }

  /** A chunk as section 7.1 has it, with its line within the proxy's limit. */
  ghost predicate IsPiece(p: Piece)
  {
    |p.text| + 2 <= LIMIT && exists k: nat :: SizedAt(p, k)
  }

  /** A chunk that the proxy takes: its line is a line, and the size that is read from it is that of the data. */
  predicate IsTaken(p: Piece)
  {
    |p.text| + 2 <= LIMIT && NewlineFree(p.text) && ChunkSize(SizeLine(p)) == Some(|p.data|)
  }

  /** A field line: a name without a colon that does not begin with white space, and a value. */
  predicate IsTrailer(t: (Bytes, Bytes))
  {
    && (t.0 != "" ==> t.0[0] != ' ' && t.0[0] != '\t') && ':' !in t.0 && NewlineFree(t.0) && NewlineFree(t.1)
  }

  function SizeLine(p: Piece): Bytes
  {
    p.text + "\r\n"
  }

  function TrailerLine(t: (Bytes, Bytes)): Bytes
  {
    t.0 + ":" + t.1 + "\r\n"
  }

  function PrintTrailers(ts: seq<(Bytes, Bytes)>): Bytes
  {
    if ts == [] then "\r\n" else TrailerLine(ts[0]) + PrintTrailers(ts[1..])
  }

  function PrintPieces(ps: seq<Piece>): Bytes
  {
    if ps == [] then "" else SizeLine(ps[0]) + ps[0].data + "\r\n" + PrintPieces(ps[1..])
  }

  function Print(m: Message): Bytes
  {
    PrintPieces(m.pieces) + SizeLine(m.last) + PrintTrailers(m.trailers)
  }

  /** No field that delimits messages comes twice. */
  predicate NoneTwice(ts: seq<(Bytes, Bytes)>)
  {
    forall i, j :: 0 <= i < j < |ts| && Lower(ts[i].0) in FRAMING ==> Lower(ts[i].0) != Lower(ts[j].0)
  }

  /** A trailer section that the proxy takes: within its limit, and no framing field twice. */
  predicate TrailersTaken(ts: seq<(Bytes, Bytes)>)
  {
    (forall t :: t in ts ==> IsTrailer(t)) && NoneTwice(ts) && |PrintTrailers(ts)| <= LIMIT
  }

  /** A chunked body as section 7.1 has it, with lines and trailer section within the proxy's limit. */
  ghost predicate WellFormed(m: Message)
  {
    && (forall p :: p in m.pieces ==> IsPiece(p) && p.data != "")
    && IsPiece(m.last) && m.last.data == "" && TrailersTaken(m.trailers)
  }

  /** The same with every size that the proxy can read. */
  predicate Taken(m: Message)
  {
    && (forall p :: p in m.pieces ==> IsTaken(p) && p.data != "")
    && IsTaken(m.last) && m.last.data == "" && TrailersTaken(m.trailers)
  }

  // --- Size lines ---------------------------------------------------------------

  function Horner(acc: nat, x: Bytes): nat
    requires forall c :: c in x ==> HexDigit(c).Some?
    decreases |x|
  {
    if x == "" then acc
    else
      assert HexDigit(x[0]).Some?;
      Horner(16 * acc + HexDigit(x[0]).value, x[1..])
  }

  lemma {:induction false} HornerSnoc(acc: nat, x: Bytes)
    requires IsHex(x)
    ensures HexDigit(x[|x| - 1]).Some?
    ensures Horner(acc, x) == 16 * Horner(acc, x[..|x| - 1]) + HexDigit(x[|x| - 1]).value
    decreases |x|
  {
    var d := HexDigit(x[0]);
    assert d.Some? && HexDigit(x[|x| - 1]).Some?;
    if |x| > 1 {
      HornerSnoc(16 * acc + d.value, x[1..]);
      assert x[..|x| - 1][1..] == x[1..][..|x| - 2];
      assert x[1..][|x| - 2] == x[|x| - 1];
    } else {
      assert x[1..] == "" && x[..0] == "";
    }
  }

  lemma {:induction false} HornerIsTheValue(x: Bytes)
    requires forall c :: c in x ==> HexDigit(c).Some?
    ensures Horner(0, x) == HexValue(x)
  {
    if x == "" {
    } else {
      HornerSnoc(0, x);
      HornerIsTheValue(x[..|x| - 1]);
    }
  }

  lemma {:induction false} DigitsIsHorner(x: Bytes, acc: nat)
    requires IsHex(x)
    ensures Digits(x, acc) == Some(Horner(acc, x))
    decreases |x|
  {
    var d := HexDigit(x[0]);
    assert d.Some?;
    if |x| <= 1 {
    } else {
      assert HexDigit(x[1]).Some?;
      DigitsIsHorner(x[1..], 16 * acc + d.value);
    }
  }

  lemma HexIntOf(x: Bytes)
    requires IsHex(x)
    ensures HexInt(x) == Some(HexValue(x))
  {
    assert HexDigit(x[0]).Some?;
    if |x| > 1 {
      assert HexDigit(x[1]).Some?;
    }
    DigitsIsHorner(x, 0);
    HornerIsTheValue(x);
  }

  /** The proxy reads the size that the chunk states. */
  lemma PieceIsTaken(p: Piece)
    requires IsPiece(p)
    ensures IsTaken(p)
  {
    var k: nat :| SizedAt(p, k);
    var size, ext := p.text[..k], p.text[k..];
    assert p.text == size + ext;
    var blank := SizePadding(size, ext);
    assert SizeLine(p) == size + ext + "\r\n";
    assert HexDigit(size[0]).Some? && HexDigit(size[|size| - 1]).Some?;
    assert (size + blank)[0] == size[0];
    TrimRightOf(size, blank, Blank);
    HexIntOf(size);
    HexIsNewlineFree(size);
  }

  lemma HexIsNewlineFree(x: Bytes)
    requires IsHex(x)
    ensures NewlineFree(x) && ';' !in x
  {
    assert HexDigit('\n').None? && HexDigit(';').None?;
  }

  /** What stands between the size and the semicolon, or the end of the line. */
  lemma SizePadding(size: Bytes, ext: Bytes) returns (blank: Bytes)
    requires IsHex(size) && IsExtension(ext)
    ensures Before(size + ext + "\r\n", ';') == size + blank
    ensures forall c :: c in blank ==> Blank(c)
  {
    HexIsNewlineFree(size);
    hide Before, IsHex, HexDigit, HexValue;
    var line := size + ext + "\r\n";
    if ext == "" {
      blank := "\r\n";
      assert line == size + blank;
      BeforeIs(size + blank, ';', "");
      assert size + blank + "" == size + blank;
    } else {
      var k: nat :| k < |ext| && ext[k] == ';' && forall i :: 0 <= i < k ==> ext[i] == ' ' || ext[i] == '\t';
      blank := ext[..k];
      forall c | c in blank
        ensures Blank(c) && c != ';'
      {
        var i :| 0 <= i < |blank| && blank[i] == c;
        assert ext[i] == c;
      }
      BeforeIs(size + blank, ';', ext[k..] + "\r\n");
      assert line == size + blank + (ext[k..] + "\r\n");
    }
  }

  lemma SizeLineIsALine(p: Piece)
    requires IsTaken(p)
    ensures IsLine(SizeLine(p))
  {
    var x := SizeLine(p);
    assert x[..|x| - 1] == p.text + "\r";
  }

  // --- Trailers -----------------------------------------------------------------

  lemma TrailerLineIsALine(t: (Bytes, Bytes))
    requires IsTrailer(t) && |TrailerLine(t)| <= LIMIT
    ensures IsLine(TrailerLine(t))
  {
    var x := TrailerLine(t);
    assert x[..|x| - 1] == t.0 + ":" + t.1 + "\r";
  }

  /** The framing fields seen so far. */
  predicate SeenOnly(fields: Fields, ts: seq<(Bytes, Bytes)>)
  {
    forall t :: t in ts ==> Lower(t.0) !in fields
  }

  /** The fields with this one, if it is one that delimits messages. */
  function With(fields: Fields, t: (Bytes, Bytes)): Fields
  {
    if Lower(t.0) in FRAMING then fields[Lower(t.0) := Lower(Strip(t.1))] else fields
  }

  function Collected(ts: seq<(Bytes, Bytes)>, fields: Fields): Fields
    decreases |ts|
  {
    if ts == [] then fields else Collected(ts[1..], With(fields, ts[0]))
  }

  lemma LineEndIsBlank(value: Bytes)
    ensures Strip(value + "\r\n") == Strip(value)
  {
    var a, b := TrimSplits(value, Blank);
    var y := Strip(value);
    assert value + "\r\n" == a + y + (b + "\r\n");
    TrimOf(a, y, b + "\r\n", Blank);
  }

  /** A field line is taken with its own value, trimmed and in lower case. */
  lemma FieldOf(t: (Bytes, Bytes), fields: Fields)
    requires IsTrailer(t) && Lower(t.0) !in fields
    ensures Field(TrailerLine(t), fields) == Some(With(fields, t))
  {
    hide Strip, Lower;
    var line := TrailerLine(t);
    assert line == t.0 + (":" + t.1 + "\r\n");
    BeforeIs(t.0, ':', ":" + t.1 + "\r\n");
    assert line[0] == if t.0 == "" then ':' else t.0[0];
    assert line[|t.0| + 1..] == t.1 + "\r\n";
    LineEndIsBlank(t.1);
  }

  lemma {:induction false} HeadOf(ts: seq<(Bytes, Bytes)>, rest: Bytes, used: nat, fields: Fields)
    requires forall t :: t in ts ==> IsTrailer(t)
    requires NoneTwice(ts) && SeenOnly(fields, ts) && used + |PrintTrailers(ts)| <= LIMIT
    ensures Head(PrintTrailers(ts) + rest, used, fields) == Some((|PrintTrailers(ts)|, Collected(ts, fields)))
    decreases |ts|
  {
    hide Line, Field, NoneTwice, SeenOnly, IsTrailer, With;
    var x := PrintTrailers(ts) + rest;
    if ts == [] {
      assert IsLine("\r\n");
      LineIsThePrefix("\r\n", rest);
    } else {
      var line := TrailerLine(ts[0]);
      assert x == line + (PrintTrailers(ts[1..]) + rest);
      assert |PrintTrailers(ts)| == |line| + |PrintTrailers(ts[1..])|;
      assert ts[0] in ts && forall t :: t in ts[1..] ==> t in ts;
      TrailerLineIsALine(ts[0]);
      LineIsThePrefix(line, PrintTrailers(ts[1..]) + rest);
      assert x[..|line|] == line && x[|line|..] == PrintTrailers(ts[1..]) + rest;
      SeenStep(ts, fields);
      HeadOf(ts[1..], rest, used + |line|, With(fields, ts[0]));
      assert |line| > 2 by { LongerThanCrlf(ts[0]); }
    }
  }

  lemma LongerThanCrlf(t: (Bytes, Bytes))
    requires IsTrailer(t)
    ensures |TrailerLine(t)| > 2
  {
  }

  lemma SeenStep(ts: seq<(Bytes, Bytes)>, fields: Fields)
    requires ts != [] && (forall t :: t in ts ==> IsTrailer(t)) && NoneTwice(ts) && SeenOnly(fields, ts)
    ensures Field(TrailerLine(ts[0]), fields) == Some(With(fields, ts[0]))
    ensures NoneTwice(ts[1..]) && SeenOnly(With(fields, ts[0]), ts[1..])
  {
    hide Lower, Field, IsTrailer, FRAMING;
    assert ts[0] in ts;
    FieldOf(ts[0], fields);
    forall t | t in ts[1..]
      ensures Lower(t.0) !in fields && (Lower(ts[0].0) in FRAMING ==> Lower(t.0) != Lower(ts[0].0))
    {
      assert t in ts;
      var j :| 0 <= j < |ts[1..]| && ts[1..][j] == t;
      assert ts[j + 1] == t;
    }
  }

  // --- Chunked bodies --------------------------------------------------------------

  lemma SizeTaken(p: Piece)
    requires IsTaken(p)
    ensures ChunkSize(SizeLine(p)) == Some(|p.data|)
  {
  }

  lemma ChunkOf(p: Piece, rest: Bytes)
    requires IsTaken(p) && p.data != ""
    ensures Chunk(SizeLine(p) + p.data + "\r\n" + rest) == Some((|SizeLine(p) + p.data + "\r\n"|, false))
  {
    hide Chunk, ChunkSize, Line, LineLength, IsTaken, SizeLine;
    var line := SizeLine(p);
    var z := "\r\n" + rest;
    var y := p.data + z;
    var x := line + y;
    assert x == line + p.data + "\r\n" + rest;
    SizeLineIsALine(p);
    LineIsThePrefix(line, y);
    SizeTaken(p);
    assert IsLine("\r\n");
    LineIsThePrefix("\r\n", rest);
    assert y[|p.data|..] == z;
    ChunkEnd(x, line, y, z);
  }

  lemma LastChunkOf(p: Piece, ts: seq<(Bytes, Bytes)>, rest: Bytes)
    requires IsTaken(p) && p.data == "" && TrailersTaken(ts)
    ensures Chunk(SizeLine(p) + PrintTrailers(ts) + rest) == Some((|SizeLine(p) + PrintTrailers(ts)|, true))
  {
    hide Line, Head, ChunkSize, IsTaken, NoneTwice, IsTrailer, PrintTrailers, SizeLine;
    var line := SizeLine(p);
    var y := PrintTrailers(ts) + rest;
    var x := line + y;
    assert x == line + PrintTrailers(ts) + rest;
    SizeLineIsALine(p);
    LineIsThePrefix(line, y);
    SizeTaken(p);
    HeadOf(ts, rest, 0, map[]);
    ChunkStep(x, line, y);
  }

  lemma {:induction false} PiecesThenLast(ps: seq<Piece>, last: Bytes, rest: Bytes)
    requires forall p :: p in ps ==> IsTaken(p) && p.data != ""
    requires Chunk(last + rest) == Some((|last|, true))
    ensures Chunked(PrintPieces(ps) + last + rest) == Some(|PrintPieces(ps) + last|)
    decreases |ps|
  {
    hide Chunk, IsTaken, SizeLine;
    var x := PrintPieces(ps) + last + rest;
    if ps == [] {
      assert x == last + rest;
    } else {
      var first := SizeLine(ps[0]) + ps[0].data + "\r\n";
      var tail := PrintPieces(ps[1..]) + last + rest;
      assert x == first + tail;
      assert ps[0] in ps;
      ChunkOf(ps[0], tail);
      assert x[|first|..] == tail;
      PiecesThenLast(ps[1..], last, rest);
    }
  }

  /** A chunked body that the proxy takes ends where it was printed to end, with anything whatsoever behind it. */
  lemma TakenIsChunked(m: Message, rest: Bytes)
    requires Taken(m)
    ensures Chunked(Print(m) + rest) == Some(|Print(m)|)
  {
    LastChunkOf(m.last, m.trailers, rest);
    var last := SizeLine(m.last) + PrintTrailers(m.trailers);
    PiecesThenLast(m.pieces, last, rest);
    assert PrintPieces(m.pieces) + last == Print(m);
  }

  /** In particular a well-formed one. */
  lemma ChunkedExact(m: Message, rest: Bytes)
    requires WellFormed(m)
    ensures Taken(m) && Chunked(Print(m) + rest) == Some(|Print(m)|)
  {
    hide IsPiece, IsTaken, Print, Chunked, TrailersTaken;
    forall p | p in m.pieces
      ensures IsTaken(p)
    {
      PieceIsTaken(p);
    }
    PieceIsTaken(m.last);
    TakenIsChunked(m, rest);
  }

  // --- What is taken was printed --------------------------------------------------------

  /** A line that `head` takes as a field is the line of a trailer. */
  lemma FieldBack(part: Bytes, fields: Fields) returns (t: (Bytes, Bytes))
    requires IsLine(part) && Field(part, fields).Some? && fields.Keys <= FRAMING
    ensures IsTrailer(t) && TrailerLine(t) == part && Lower(t.0) !in fields
    ensures Field(part, fields) == Some(With(fields, t))
  {
    hide Lower, Strip;
    var name := Before(part, ':');
    var colon := |name|;
    assert part[|part| - 2] == '\r' && part[|part| - 1] == '\n';
    assert colon < |part| - 2;
    t := (name, part[colon + 1..|part| - 2]);
    assert part == part[..colon] + [part[colon]] + part[colon + 1..|part| - 2] + part[|part| - 2..];
    assert part[|part| - 2..] == "\r\n";
    var text := part[..|part| - 1];
    assert forall c :: c in t.0 ==> c in text;
    assert forall c :: c in t.1 ==> c in text by {
      assert t.1 == text[colon + 1..|text| - 1];
    }
    assert name != "" ==> part[0] == name[0];
    FieldOf(t, fields);
  }

  lemma {:induction false} HeadBack(x: Bytes, used: nat, fields: Fields) returns (ts: seq<(Bytes, Bytes)>)
    requires Head(x, used, fields).Some? && fields.Keys <= FRAMING
    ensures (forall t :: t in ts ==> IsTrailer(t)) && NoneTwice(ts) && SeenOnly(fields, ts)
    ensures PrintTrailers(ts) == x[..Head(x, used, fields).value.0]
    ensures Head(x, used, fields).value.1 == Collected(ts, fields)
    ensures used + |PrintTrailers(ts)| <= LIMIT
    decreases |x|
  {
    hide Line, Field, IsTrailer, IsLine, NoneTwice, TrailerLine;
    var n := Line(x).value;
    PrefixIsALine(x);
    if n == 2 {
      ts := [];
      CrlfIs(x);
      NothingTwice();
    } else {
      var part := x[..n];
      var t := FieldBack(part, fields);
      var next := With(fields, t);
      var rest := HeadBack(x[n..], used + n, next);
      ts := [t] + rest;
      assert ts[1..] == rest;
      FirstOfAll(t, rest, fields);
      var all := Head(x, used, fields).value.0;
      assert x[..all] == part + x[n..][..all - n];
    }
  }

  lemma CrlfIs(x: Bytes)
    requires Line(x) == Some(2)
    ensures x[..2] == "\r\n"
  {
  }

  lemma NothingTwice()
    ensures NoneTwice([])
  {
  }

  lemma FirstOfAll(t: (Bytes, Bytes), rest: seq<(Bytes, Bytes)>, fields: Fields)
    requires NoneTwice(rest) && SeenOnly(With(fields, t), rest) && Lower(t.0) !in fields
    ensures NoneTwice([t] + rest) && SeenOnly(fields, [t] + rest)
  {
    hide Lower, FRAMING;
    var ts := [t] + rest;
    forall i, j | 0 <= i < j < |ts| && Lower(ts[i].0) in FRAMING
      ensures Lower(ts[i].0) != Lower(ts[j].0)
    {
      assert ts[j] == rest[j - 1] && ts[j] in rest;
      assert i > 0 ==> ts[i] == rest[i - 1];
    }
  }

  /** The text of a size line that can be read. */
  lemma SizeLineBack(line: Bytes, data: Bytes) returns (p: Piece)
    requires IsLine(line) && ChunkSize(line) == Some(|data|)
    ensures IsTaken(p) && p.data == data && SizeLine(p) == line
  {
    hide ChunkSize;
    p := Piece(line[..|line| - 2], data);
    assert line == p.text + "\r\n";
    assert forall c :: c in p.text ==> c in line[..|line| - 1] by {
      assert p.text == line[..|line| - 1][..|line| - 2];
    }
  }

  /** A chunk or the last one, from its line and its data. */
  lemma ChunkBack(x: Bytes) returns (p: Piece)
    requires Chunk(x).Some?
    ensures IsTaken(p)
    ensures
      var (n, last) := Chunk(x).value;
      if last then
        && p.data == "" && |SizeLine(p)| <= n && x[..|SizeLine(p)|] == SizeLine(p)
        && TrailerLength(x[|SizeLine(p)|..]) == Some(n - |SizeLine(p)|)
      else p.data != "" && x[..n] == SizeLine(p) + p.data + "\r\n"
  {
    hide ChunkSize, TrailerLength, Line, LineLength, IsLine, IsTaken, SizeLine;
    var n := Line(x).value;
    var line := x[..n];
    PrefixIsALine(x);
    var size := ChunkSize(line).value;
    if size == 0 {
      p := SizeLineBack(line, "");
    } else {
      p := SizeLineBack(line, x[n..n + size]);
      CrlfIs(x[n + size..]);
      DataParts(x, n, size);
    }
  }

  lemma DataParts(x: Bytes, n: nat, size: nat)
    requires n + size + 2 <= |x| && x[n + size..][..2] == "\r\n"
    ensures x[..n + size + 2] == x[..n] + x[n..n + size] + "\r\n"
  {
    assert x[..n + size + 2] == x[..n] + x[n..n + size] + x[n + size..][..2];
  }

  /** Every body that the proxy takes is the print of one. */
  lemma {:induction false} ChunkedIsTaken(x: Bytes) returns (m: Message)
    requires Chunked(x).Some?
    ensures Taken(m) && Print(m) == x[..Chunked(x).value]
    decreases |x|
  {
    hide Chunk, IsTaken, SizeLine, TrailersTaken, PrintTrailers;
    var (n, last) := Chunk(x).value;
    var p := ChunkBack(x);
    if last {
      var line := SizeLine(p);
      var ts := TrailersBack(x[|line|..]);
      m := Message([], p, ts);
      assert x[..n] == line + x[|line|..][..n - |line|];
      assert PrintPieces([]) == "";
    } else {
      var rest := ChunkedIsTaken(x[n..]);
      m := Message([p] + rest.pieces, rest.last, rest.trailers);
      assert m.pieces[1..] == rest.pieces;
      PrintFirst(p, rest);
      assert x[..Chunked(x).value] == x[..n] + x[n..][..Chunked(x[n..]).value];
    }
  }

  lemma PrintFirst(p: Piece, m: Message)
    ensures Print(Message([p] + m.pieces, m.last, m.trailers)) == SizeLine(p) + p.data + "\r\n" + Print(m)
  {
    hide SizeLine, PrintTrailers;
    assert ([p] + m.pieces)[1..] == m.pieces;
  }

  lemma TrailersBack(x: Bytes) returns (ts: seq<(Bytes, Bytes)>)
    requires TrailerLength(x).Some?
    ensures TrailersTaken(ts) && PrintTrailers(ts) == x[..TrailerLength(x).value]
  {
    hide Head, NoneTwice, IsTrailer, PrintTrailers;
    ts := HeadBack(x, 0, map[]);
  }

  /**
   Exactly which bytes are taken as a chunked body: the prints of messages with
   sizes that the proxy can read.
   */
  lemma ChunkedExactly(x: Bytes, n: nat)
    ensures Chunked(x) == Some(n) <==> n <= |x| && exists m :: Taken(m) && Print(m) == x[..n]
  {
    hide Chunked, Taken, Print;
    if Chunked(x) == Some(n) {
      var m := ChunkedIsTaken(x);
    }
    if n <= |x| {
      forall m | Taken(m) && Print(m) == x[..n]
        ensures Chunked(x) == Some(n)
      {
        TakenIsChunked(m, x[n..]);
        assert x == x[..n] + x[n..];
      }
    }
  }

  // --- Which sizes can be read ----------------------------------------------------------

  /** Hexadecimal digits, with single underscores between them. */
  predicate Spaced(x: Bytes)
  {
    && x != "" && x[0] != '_' && x[|x| - 1] != '_'
    && (forall i :: 0 <= i < |x| ==> x[i] == '_' || HexDigit(x[i]).Some?)
    && (forall i :: 0 <= i < |x| - 1 ==> x[i] != '_' || x[i + 1] != '_')
  }

  /** The digits without the underscores. */
  function Joined(x: Bytes): (r: Bytes)
    ensures (forall i :: 0 <= i < |x| ==> x[i] == '_' || HexDigit(x[i]).Some?) ==>
      forall c :: c in r ==> HexDigit(c).Some?
  {
    if x == "" then "" else (if x[0] == '_' then "" else [x[0]]) + Joined(x[1..])
  }

  lemma {:induction false} DigitsExactly(x: Bytes, acc: nat)
    ensures Digits(x, acc) == if Spaced(x) then Some(Horner(acc, Joined(x))) else None
    decreases |x|
  {
    if x == "" || HexDigit(x[0]).None? {
      assert HexDigit('_').None?;
    } else if |x| == 1 {
      assert x[1..] == "" && Joined(x) == [x[0]] && Joined(x)[1..] == "";
    } else {
      assert HexDigit('_').None?;
      var k := if x[1] == '_' then 2 else 1;
      var rest := x[k..];
      DigitsExactly(rest, 16 * acc + HexDigit(x[0]).value);
      SpacedSkip(x, k);
      JoinedSkip(x, k);
      if Spaced(x) {
        assert Joined(x)[0] == x[0] && Joined(x)[1..] == Joined(rest);
      }
    }
  }

  lemma JoinedSkip(x: Bytes, k: nat)
    requires |x| > 1 && x[0] != '_' && k == (if x[1] == '_' then 2 else 1)
    ensures Joined(x) == [x[0]] + Joined(x[k..])
  {
    assert x[1..][1..] == x[2..];
  }

  /** Taking the first digit off, with the underscore behind it if there is one. */
  lemma SpacedSkip(x: Bytes, k: nat)
    requires |x| > 1 && HexDigit(x[0]).Some? && x[0] != '_' && k == (if x[1] == '_' then 2 else 1)
    ensures Spaced(x) <==> Spaced(x[k..])
  {
    var y := x[k..];
    if Spaced(x) {
      assert y != "" && y[0] == x[k] && y[|y| - 1] == x[|x| - 1];
    }
    if Spaced(y) {
      forall i | 0 <= i < |x|
        ensures x[i] == '_' || HexDigit(x[i]).Some?
      {
        if i >= k {
          assert x[i] == y[i - k];
        }
      }
      forall i | 0 <= i < |x| - 1
        ensures x[i] != '_' || x[i + 1] != '_'
      {
        if i >= k {
          assert x[i] == y[i - k] && x[i + 1] == y[i - k + 1];
        } else {
          assert y[0] == x[k];
        }
      }
      assert x[|x| - 1] == y[|y| - 1];
    }
  }

  /** The size text is a sign, a prefix and digits, and reads as this number. */
  predicate Spells(x: Bytes, sign: Bytes, prefix: Bytes, digits: Bytes, n: int)
  {
    && sign in ["", "+", "-"] && prefix in ["", "0x", "0X", "0x_", "0X_"] && Spaced(digits)
    && x == sign + (prefix + digits)
    && n == if sign == "-" then -(HexValue(Joined(digits)) as int) else HexValue(Joined(digits))
  }

  /** Beyond plain hexadecimal, a size may have a sign, a prefix and underscores between digits. */
  lemma SizesExactly(x: Bytes, n: int)
    ensures HexInt(x) == Some(n) <==>
      exists sign: Bytes, prefix: Bytes, digits: Bytes :: Spells(x, sign, prefix, digits, n)
  {
    if HexInt(x) == Some(n) {
      var sign, prefix, digits := SizeParts(x);
      DigitsExactly(digits, 0);
      HornerIsTheValue(Joined(digits));
      assert Spells(x, sign, prefix, digits, n);
    }
    forall sign: Bytes, prefix: Bytes, digits: Bytes | Spells(x, sign, prefix, digits, n)
      ensures HexInt(x) == Some(n)
    {
      SpelledIsRead(x, sign, prefix, digits, n);
    }
  }

  lemma SizeParts(x: Bytes) returns (sign: Bytes, prefix: Bytes, digits: Bytes)
    requires HexInt(x).Some?
    ensures sign in ["", "+", "-"] && prefix in ["", "0x", "0X", "0x_", "0X_"]
    ensures x == sign + (prefix + digits) && Digits(digits, 0).Some?
    ensures
      var m: int := Digits(digits, 0).value;
      HexInt(x) == Some(if sign == "-" then -m else m)
  {
    hide Digits, Unprefixed, Unsigned;
    sign := SignPart(x);
    prefix := PrefixPart(Unsigned(x));
    digits := Unprefixed(Unsigned(x));
    assert sign == "-" <==> x != "" && x[0] == '-';
  }

  lemma SignPart(x: Bytes) returns (sign: Bytes)
    ensures sign in ["", "+", "-"] && x == sign + Unsigned(x)
    ensures sign == "-" <==> x != "" && x[0] == '-'
  {
    sign := if x != "" && x[0] == '-' then "-" else if x != "" && x[0] == '+' then "+" else "";
  }

  lemma PrefixPart(x: Bytes) returns (prefix: Bytes)
    ensures prefix in ["", "0x", "0X", "0x_", "0X_"] && x == prefix + Unprefixed(x)
  {
    if |x| < 2 || x[0] != '0' || (x[1] != 'x' && x[1] != 'X') {
      prefix := "";
    } else {
      if |x| >= 3 && x[2] == '_' {
        prefix := if x[1] == 'x' then "0x_" else "0X_";
        assert x[..3] == prefix;
      } else {
        prefix := if x[1] == 'x' then "0x" else "0X";
        assert x[..2] == prefix;
      }
    }
  }

  lemma PrefixIsRead(prefix: Bytes, digits: Bytes)
    requires Spaced(digits) && prefix in ["", "0x", "0X", "0x_", "0X_"]
    ensures Unprefixed(prefix + digits) == digits
    ensures (prefix + digits)[0] != '-' && (prefix + digits)[0] != '+'
  {
    var u := prefix + digits;
    assert HexDigit('x').None? && HexDigit('X').None? && HexDigit('+').None? && HexDigit('-').None?;
    assert |digits| > 1 ==> digits[1] == '_' || HexDigit(digits[1]).Some?;
    if prefix == "" {
      assert u == digits;
    } else {
      assert u[..|prefix|] == prefix && u[|prefix|..] == digits && u[|prefix|] == digits[0];
      assert u[0] == prefix[0] && u[1] == prefix[1];
      assert |prefix| == 3 ==> u[2] == prefix[2];
    }
  }

  lemma SignIsRead(sign: Bytes, u: Bytes)
    requires sign in ["", "+", "-"] && u != "" && u[0] != '-' && u[0] != '+'
    ensures Unsigned(sign + u) == u && ((sign + u)[0] == '-' <==> sign == "-")
  {
    if sign == "" {
      assert sign + u == u;
    } else {
      assert (sign + u)[1..] == u && (sign + u)[0] == sign[0];
    }
  }

  lemma SpelledIsRead(x: Bytes, sign: Bytes, prefix: Bytes, digits: Bytes, n: int)
    requires Spells(x, sign, prefix, digits, n)
    ensures HexInt(x) == Some(n)
  {
    DigitsExactly(digits, 0);
    HornerIsTheValue(Joined(digits));
    PrefixIsRead(prefix, digits);
    SignIsRead(sign, prefix + digits);
    hide Digits, Joined, Horner, HexValue, Unsigned, Unprefixed;
  }

  // --- Whole messages -------------------------------------------------------------------

  /** What a head says about a name: the value of its first field of that name, trimmed and in lower case. */
  function Says(ts: seq<(Bytes, Bytes)>, name: Bytes): Option<Bytes>
  {
    if ts == [] then None
    else if Lower(ts[0].0) == name then Some(Lower(Strip(ts[0].1)))
    else Says(ts[1..], name)
  }

  lemma {:induction false} CollectedSays(ts: seq<(Bytes, Bytes)>, fields: Fields, name: Bytes)
    requires NoneTwice(ts) && SeenOnly(fields, ts)
    ensures FieldOr(Collected(ts, fields), name) ==
      if name in fields then Some(fields[name]) else if name in FRAMING then Says(ts, name) else None
    decreases |ts|
  {
    hide Strip, Lower;
    if ts == [] {
    } else {
      assert ts[0] in ts;
      forall t | t in ts[1..]
        ensures Lower(t.0) !in With(fields, ts[0])
      {
        var j :| 0 <= j < |ts[1..]| && ts[1..][j] == t;
        assert ts[j + 1] == t && t in ts;
      }
      CollectedSays(ts[1..], With(fields, ts[0]), name);
    }
  }

  /** The fields are the framing fields of the head, each with its own value. */
  ghost predicate FieldsOf(ts: seq<(Bytes, Bytes)>, fields: Fields)
  {
    forall name: Bytes :: FieldOr(fields, name) ==
      if name in {"content-length", "transfer-encoding", "connection", "expect"} then Says(ts, name) else None
  }

  lemma FieldsAreOne(ts: seq<(Bytes, Bytes)>, f: Fields, g: Fields)
    requires FieldsOf(ts, f) && FieldsOf(ts, g)
    ensures f == g
  {
    forall name: Bytes
      ensures name in f <==> name in g
      ensures name in f ==> name in g && f[name] == g[name]
    {
      assert FieldOr(f, name) == FieldOr(g, name);
    }
  }

  lemma CollectedAreThose(ts: seq<(Bytes, Bytes)>)
    requires NoneTwice(ts)
    ensures FieldsOf(ts, Collected(ts, map[]))
  {
    hide Collected, Says, NoneTwice;
    forall name: Bytes
      ensures FieldOr(Collected(ts, map[]), name) ==
        if name in {"content-length", "transfer-encoding", "connection", "expect"} then Says(ts, name) else None
    {
      CollectedSays(ts, map[], name);
    }
  }

  /**
   Exactly which bytes are taken as a head, and with which fields: a section of
   field lines within the limit that repeats no framing field, with the values
   of its framing fields and nothing else.
   */
  lemma HeadExactly(x: Bytes, n: nat, fields: Fields)
    ensures Head(x, 0, map[]) == Some((n, fields))
       <==> n <= |x| && exists ts :: TrailersTaken(ts) && PrintTrailers(ts) == x[..n] && FieldsOf(ts, fields)
  {
    hide Head, NoneTwice, IsTrailer, PrintTrailers, FieldsOf, Collected;
    if Head(x, 0, map[]) == Some((n, fields)) {
      var ts := HeadBack(x, 0, map[]);
      CollectedAreThose(ts);
      assert TrailersTaken(ts);
    }
    if n <= |x| {
      forall ts | TrailersTaken(ts) && PrintTrailers(ts) == x[..n] && FieldsOf(ts, fields)
        ensures Head(x, 0, map[]) == Some((n, fields))
      {
        HeadOf(ts, x[n..], 0, map[]);
        assert x == x[..n] + x[n..];
        CollectedAreThose(ts);
        FieldsAreOne(ts, fields, Collected(ts, map[]));
      }
    }
  }

  /** `chunked` is the last coding: behind the last comma, between white space. */
  predicate EndsChunked(v: Bytes, a: Bytes, b: Bytes, c: Bytes)
  {
    && v == a + (b + "chunked" + c) && (a == "" || a[|a| - 1] == ',') && All(b, Blank) && All(c, Blank)
  }

  lemma IsChunkedExactly(v: Bytes)
    ensures IsChunked(v) <==> exists a, b, c :: EndsChunked(v, a, b, c)
  {
    if IsChunked(v) {
      var a := LastPartSplits(v, ',');
      var b, c := TrimSplits(LastPart(v, ','), Blank);
      assert EndsChunked(v, a, b, c);
    }
    forall a, b, c | EndsChunked(v, a, b, c)
      ensures IsChunked(v)
    {
      assert ',' !in b + "chunked" + c;
      LastPartOf(a, b + "chunked" + c, ',');
      TrimOf(b, "chunked", c, Blank);
    }
  }

  lemma {:induction false} LastPartSplits(x: Bytes, c: char) returns (a: Bytes)
    ensures x == a + LastPart(x, c) && c !in LastPart(x, c) && (a == "" || a[|a| - 1] == c)
    decreases |x|
  {
    hide LastPart;
    LastPartStep(x, c);
    if c in x {
      var rest := BehindFirst(x, c);
      var back := LastPartSplits(rest, c);
      a := PartsTogether(x, c, back, LastPart(x, c));
    } else {
      a := "";
    }
  }

  function BehindFirst(x: Bytes, c: char): (rest: Bytes)
    requires c in x
    ensures |rest| < |x|
  {
    x[|Before(x, c)| + 1..]
  }

  lemma LastPartStep(x: Bytes, c: char)
    ensures LastPart(x, c) == if c in x then LastPart(BehindFirst(x, c), c) else x
  {
  }

  lemma PartsTogether(x: Bytes, c: char, back: Bytes, last: Bytes) returns (a: Bytes)
    requires c in x && BehindFirst(x, c) == back + last && (back == "" || back[|back| - 1] == c)
    ensures x == a + last && a != "" && a[|a| - 1] == c
  {
    var b := Before(x, c);
    assert x == b + [c] + x[|b| + 1..];
    a := b + [c] + back;
  }

  lemma {:induction false} LastPartOf(a: Bytes, y: Bytes, c: char)
    requires c !in y && (a == "" || a[|a| - 1] == c)
    ensures LastPart(a + y, c) == y
    decreases |a|
  {
    var x := a + y;
    if a == "" {
      assert x == y;
    } else {
      assert x[|a| - 1] == c;
      var b := Before(x, c);
      assert |b| < |a|;
      assert x[|b| + 1..] == a[|b| + 1..] + y;
      LastPartOf(a[|b| + 1..], y, c);
    }
  }

  /** A value that is there and not empty. */
  predicate Given(v: Option<Bytes>)
  {
    v.Some? && v.value != ""
  }

  /** The next `n` bytes are the body that the two framing fields ask for. */
  ghost predicate BodyIs(coding: Option<Bytes>, length: Option<Bytes>, x: Bytes, n: nat)
  {
    && n <= |x|
    && if Given(coding) then
         && !Given(length) && (exists a, b, c :: EndsChunked(coding.value, a, b, c))
         && exists m :: Taken(m) && Print(m) == x[..n]
       else Given(length) && AllDigits(length.value) && NatOf(length.value) == n
  }

  /**
   Which message a head and a stream make: the body that the head asks for, or
   with neither field nothing for a request and everything for a response.
   Nothing is taken when both fields are there, when the last coding is another
   one, or when the length is no number.
   */
  lemma MessageExactly(ts: seq<(Bytes, Bytes)>, x: Bytes, response: bool, e: Extent)
    requires TrailersTaken(ts)
    ensures exists fields ::
      && Head(PrintTrailers(ts) + x, 0, map[]) == Some((|PrintTrailers(ts)|, fields))
      && var coding, length := Says(ts, "transfer-encoding"), Says(ts, "content-length");
         Delimit(fields, x, response) == Some(e) <==>
           if Given(coding) || length.Some? then e.delimited && BodyIs(coding, length, x, e.length)
           else if response then e == Extent(|x|, false)
           else e == Extent(0, true)
  {
    hide Chunked, NatOf, Taken, Print, TrailersTaken, PrintTrailers, NoneTwice, Head, IsChunked, EndsChunked, Collected;
    var fields := Collected(ts, map[]);
    HeadTaken(ts, x);
    assert FieldOr(fields, "transfer-encoding") == Says(ts, "transfer-encoding");
    assert FieldOr(fields, "content-length") == Says(ts, "content-length");
    var coding := Says(ts, "transfer-encoding");
    if Given(coding) {
      IsChunkedExactly(coding.value);
      ChunkedExactly(x, e.length);
    }
    assert Delimit(fields, x, response) == Some(e) <==>
      if Given(coding) || Says(ts, "content-length").Some?
      then e.delimited && BodyIs(coding, Says(ts, "content-length"), x, e.length)
      else if response then e == Extent(|x|, false)
      else e == Extent(0, true);
  }

  lemma HeadTaken(ts: seq<(Bytes, Bytes)>, x: Bytes)
    requires TrailersTaken(ts)
    ensures Head(PrintTrailers(ts) + x, 0, map[]) == Some((|PrintTrailers(ts)|, Collected(ts, map[])))
    ensures FieldsOf(ts, Collected(ts, map[]))
  {
    HeadOf(ts, x, 0, map[]);
    CollectedAreThose(ts);
  }

  lemma NothingIsNotChunked()
    ensures !IsChunked("")
  {
  }

  /** The same for a length given as a number, and for a message that has neither. */
  lemma BodiesEndWhereTheySay(fields: Fields, m: Message, body: Bytes, rest: Bytes, response: bool)
    requires WellFormed(m)
    ensures
      var coding := FieldOr(fields, "transfer-encoding");
      var length := FieldOr(fields, "content-length");
      && (coding.Some? && IsChunked(coding.value) && length.None? ==>
            Delimit(fields, Print(m) + rest, response) == Some(Extent(|Print(m)|, true)))
      && (coding.None? && length.Some? && length.value != "" && AllDigits(length.value)
          && NatOf(length.value) == |body| ==>
            Delimit(fields, body + rest, response) == Some(Extent(|body|, true)))
      && (coding.None? && length.None? ==>
            Delimit(fields, rest, response) == Some(if response then Extent(|rest|, false) else Extent(0, true)))
  {
    hide Chunked, NatOf, Print, WellFormed, LastPart;
    ChunkedExact(m, rest);
    NothingIsNotChunked();
  }
}
