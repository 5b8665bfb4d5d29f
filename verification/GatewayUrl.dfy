/**
 Gateway URLs in render.py: what is accepted, the one spelling each is given,
 and the two readers that take it apart again.
 */
module GatewayUrl {
  import opened Wrappers
  import opened AsciiText
  import Punycode
  import PunycodeDeltas

  datatype Class = HostChars | DigitChars | PathChars

  predicate In(c: char, k: Class)
  {
    match k
    case DigitChars => IsDigit(c)
    case HostChars => IsLetter(c) || IsDigit(c) || c == '.' || c == '-'
    case PathChars => IsLetter(c) || IsDigit(c) || c in "._~/-"
  }

  predicate AllIn(s: string, k: Class)
  {
    forall i :: 0 <= i < |s| ==> In(s[i], k)
  }

  /** The length of the longest start of `s` in the class. */
  function Run(s: string, k: Class): (n: nat)
    ensures n <= |s| && AllIn(s[..n], k) && (n < |s| ==> !In(s[n], k))
  {
    if s == "" || !In(s[0], k) then 0
    else
      var n := Run(s[1..], k);
      assert s[..n + 1] == [s[0]] + s[1..][..n];
      1 + n
  }

  lemma {:induction false} RunIs(s: string, t: string, k: Class)
    requires AllIn(s, k) && (t == "" || !In(t[0], k))
    ensures Run(s + t, k) == |s|
  {
    if s == "" {
      assert s + t == t;
    } else {
      assert (s + t)[0] == s[0] && (s + t)[1..] == s[1..] + t;
      RunIs(s[1..], t, k);
    }
  }

  function Split(s: string, c: char): (r: seq<string>)
    ensures |r| > 0
  {
    if s == "" then [""]
    else
      var r := Split(s[1..], c);
      if s[0] == c then [""] + r else [[s[0]] + r[0]] + r[1..]
  }

  // --- Hosts and ports -----------------------------------------------------------

  function Codes(s: string): seq<int>
  {
    seq(|s|, i requires 0 <= i < |s| => s[i] as int)
  }

  predicate IsLabel(s: string)
  {
    && 1 <= |s| <= 63 && (forall i :: 0 <= i < |s| ==> IsLetter(s[i]) || IsDigit(s[i]) || s[i] == '-')
    && s[0] != '-' && s[|s| - 1] != '-'
  }

  predicate IsAce(s: string)
  {
    |s| >= 4 && s[0] in "xX" && s[1] in "nN" && s[2] == '-' && s[3] == '-'
  }

  /** A last label that URL parsers read as a number. */
  predicate IsNumeric(s: string)
  {
    || (s != "" && AllDigits(s))
    || (|s| >= 2 && s[0] == '0' && s[1] in "xX" && forall i :: 2 <= i < |s| ==> HexDigit(s[i]).Some?)
  }

  predicate IsOctet(s: string)
  {
    s != "" && AllDigits(s) && |s| <= 3 && (s == "0" || s[0] != '0') && NatOf(s) <= 255
  }

  predicate ValidHost(host: string)
  {
    var parts := Split(host, '.');
    && 1 <= |host| <= 253
    && (forall p :: p in parts ==> IsLabel(p))
    && (forall p :: p in parts && IsAce(p) ==> Punycode.ValidAceLabel(Codes(p)))
    && (IsNumeric(parts[|parts| - 1]) ==> |parts| == 4 && forall p :: p in parts ==> IsOctet(p))
  }

  predicate ValidPort(port: string)
  {
    1 <= |port| <= 5 && AllDigits(port) && port[0] != '0' && NatOf(port) <= 65535
  }

  // --- URLs ----------------------------------------------------------------------

  datatype Parts = Parts(host: string, port: Option<string>, path: string)

  predicate IsPath(s: string)
  {
    s == "" || (s[0] == '/' && AllIn(s, PathChars))
  }

  /** The groups of the gateway pattern. */
  predicate Shape(p: Parts)
  {
    && p.host != "" && AllIn(p.host, HostChars) && IsPath(p.path)
    && (p.port.Some? ==> p.port.value != "" && AllIn(p.port.value, DigitChars))
  }

  const SCHEME := "https://"

  function SpellTail(port: Option<string>, path: string): string
  {
    (if port.Some? then ":" + port.value else "") + path
  }

  function Spell(p: Parts): string
  {
    SCHEME + (p.host + SpellTail(p.port, p.path))
  }

  /** The optional port and the path. */
  function MatchTail(t: string): Option<(Option<string>, string)>
  {
    if t != "" && t[0] == ':' then
      var n := Run(t[1..], DigitChars);
      if n == 0 || !IsPath(t[1..][n..]) then None else Some((Some(t[1..][..n]), t[1..][n..]))
    else if IsPath(t) then Some((None, t))
    else None
  }

  /** `_GATEWAY_RE.fullmatch`. */
  function Match(v: string): Option<Parts>
  {
    if |v| < 8 || v[..8] != SCHEME then None
    else
      var h := Run(v[8..], HostChars);
      var tail := MatchTail(v[8..][h..]);
      if h == 0 || tail.None? then None else Some(Parts(v[8..][..h], tail.value.0, tail.value.1))
  }

  predicate BoundarySpace(c: char)
  {
    c == ' ' || c == '\t' || c == '\r' || c == '\n'
  }

  function Strip(s: string): string
  {
    Trim(s, BoundarySpace)
  }

  function DropSlashes(s: string): (r: string)
    ensures r <= s && (r != "" ==> r[|r| - 1] != '/')
  {
    if s != "" && s[|s| - 1] == '/' then DropSlashes(s[..|s| - 1]) else s
  }

  /** No empty, `.` or `..` segment. */
  predicate PlainPath(path: string)
  {
    path == "" || forall seg :: seg in Split(path[1..], '/') ==> seg !in ["", ".", ".."]
  }

  /** The form every accepted URL is brought into. */
  function Canonical(p: Parts): Parts
  {
    Parts(p.host, if p.port == Some("443") then None else p.port, DropSlashes(p.path))
  }

  /** What the checks behind the pattern ask for. */
  predicate Acceptable(p: Parts)
  {
    ValidHost(p.host) && (p.port.Some? ==> ValidPort(p.port.value)) && PlainPath(DropSlashes(p.path))
  }

  /** `normalize_gateway_url`; `None` is the refusal. */
  function Normalize(raw: string): Option<string>
  {
    var m := Match(Strip(raw));
    if m.None? || !Acceptable(m.value) then None else Some(Spell(Canonical(m.value)))
  }

  function GatewayHost(url: string): string
    requires |url| >= 8
  {
    Before(Before(url[8..], '/'), ':')
  }

  function PortOf(hostport: string): string
  {
    var host := Before(hostport, ':');
    if |host| < |hostport| then hostport[|host| + 1..] else "443"
  }

  function GatewayPort(url: string): string
    requires |url| >= 8
  {
    PortOf(Before(url[8..], '/'))
  }

  // --- The pattern and its spelling -------------------------------------------------

  lemma TailIsSpelled(t: string)
    ensures MatchTail(t).Some? ==>
      var (port, path) := MatchTail(t).value;
      && SpellTail(port, path) == t && IsPath(path)
      && (port.Some? ==> port.value != "" && AllIn(port.value, DigitChars))
  {
    hide IsPath, AllIn;
    if t != "" && t[0] == ':' {
      var n := Run(t[1..], DigitChars);
      assert t == ":" + t[1..][..n] + t[1..][n..];
    }
  }

  lemma MatchIsSpelled(v: string)
    ensures Match(v).Some? ==> Shape(Match(v).value) && Spell(Match(v).value) == v
  {
    hide IsPath, AllIn, MatchTail, SpellTail;
    if Match(v).Some? {
      var r := v[8..];
      var h := Run(r, HostChars);
      TailIsSpelled(r[h..]);
      assert v == SCHEME + r && r == r[..h] + r[h..];
    }
  }

  lemma SpelledTailIsMatched(port: Option<string>, path: string)
    requires IsPath(path) && (port.Some? ==> port.value != "" && AllIn(port.value, DigitChars))
    ensures MatchTail(SpellTail(port, path)) == Some((port, path))
  {
    var t := SpellTail(port, path);
    if port.Some? {
      assert t[0] == ':' && t[1..] == port.value + path;
      RunIs(port.value, path, DigitChars);
      assert t[1..][..|port.value|] == port.value && t[1..][|port.value|..] == path;
    } else {
      assert t == path;
    }
  }

  lemma SpelledIsMatched(p: Parts)
    requires Shape(p)
    ensures Match(Spell(p)) == Some(p)
  {
    var v := Spell(p);
    var t := SpellTail(p.port, p.path);
    SpelledTailIsMatched(p.port, p.path);
    assert t != "" ==> t[0] == ':' || t[0] == '/';
    RunIs(p.host, t, HostChars);
    hide IsPath, AllIn, MatchTail, SpellTail;
    assert v[..8] == SCHEME && v[8..] == p.host + t;
    assert (p.host + t)[..|p.host|] == p.host && (p.host + t)[|p.host|..] == t;
  }

  lemma SpelledNeedsNoStrip(p: Parts)
    requires Shape(p)
    ensures Strip(Spell(p)) == Spell(p)
  {
    var v := Spell(p);
    assert v[0] == 'h';
    if p.path != "" {
      assert v[|v| - 1] == p.path[|p.path| - 1] && In(p.path[|p.path| - 1], PathChars);
    } else if p.port.Some? {
      assert v[|v| - 1] == p.port.value[|p.port.value| - 1] && In(p.port.value[|p.port.value| - 1], DigitChars);
    } else {
      assert v[|v| - 1] == p.host[|p.host| - 1] && In(p.host[|p.host| - 1], HostChars);
    }
  }

  lemma CanonicalKeepsShape(p: Parts)
    requires Shape(p)
    ensures Shape(Canonical(p)) && Canonical(Canonical(p)) == Canonical(p)
    ensures Acceptable(p) ==> Acceptable(Canonical(p))
  {
    hide ValidHost, ValidPort, PlainPath;
    var d := DropSlashes(p.path);
    assert forall i :: 0 <= i < |d| ==> d[i] == p.path[i];
    assert DropSlashes(d) == d;
  }

  /** Which inputs are accepted: the spellings, between boundary spaces, of acceptable parts. */
  lemma AcceptedExactly(raw: string)
    ensures Normalize(raw).Some? <==> exists p :: Shape(p) && Acceptable(p) && Strip(raw) == Spell(p)
  {
    hide Match, Shape, Acceptable, Spell, Strip;
    MatchIsSpelled(Strip(raw));
    forall p | Shape(p) && Acceptable(p) && Strip(raw) == Spell(p)
      ensures Normalize(raw).Some?
    {
      SpelledIsMatched(p);
    }
  }

  /** Normalising again changes nothing and refuses nothing. */
  lemma NormalizeIdempotent(raw: string)
    ensures Normalize(raw).Some? ==> Normalize(Normalize(raw).value) == Normalize(raw)
  {
    hide Match, Shape, Acceptable, Spell, Strip, Canonical;
    var m := Match(Strip(raw));
    if m.Some? && Acceptable(m.value) {
      MatchIsSpelled(Strip(raw));
      CanonicalKeepsShape(m.value);
      SpelledNeedsNoStrip(Canonical(m.value));
      SpelledIsMatched(Canonical(m.value));
    }
  }

  // --- Reading it back -------------------------------------------------------------

  lemma NotIn(s: string, k: Class, c: char)
    requires AllIn(s, k) && !In(c, k)
    ensures c !in s
  {
  }

  /** The two readers find the host that was parsed and the port that is connected to. */
  lemma ReadersAgree(p: Parts)
    requires Shape(p)
    ensures GatewayHost(Spell(p)) == p.host
    ensures GatewayPort(Spell(p)) == if p.port.Some? then p.port.value else "443"
  {
    var tail := if p.port.Some? then ":" + p.port.value else "";
    NotIn(p.host, HostChars, '/');
    NotIn(p.host, HostChars, ':');
    if p.port.Some? {
      NotIn(p.port.value, DigitChars, '/');
    }
    assert p.path == "" || p.path[0] == '/';
    SpelledBehindTheScheme(p);
    hide AllIn, In, IsPath, Before, Spell, PortOf;
    BeforeIs(p.host + tail, '/', p.path);
    PortReads(p.host, p.port);
    BeforeIs(p.host, ':', tail);
  }

  lemma PortReads(host: string, port: Option<string>)
    requires ':' !in host
    ensures PortOf(host + (if port.Some? then ":" + port.value else "")) == if port.Some? then port.value else "443"
  {
    var tail := if port.Some? then ":" + port.value else "";
    BeforeIs(host, ':', tail);
    if port.Some? {
      assert (host + tail)[|host| + 1..] == port.value;
    }
  }

  lemma SpelledBehindTheScheme(p: Parts)
    ensures |Spell(p)| >= 8
    ensures Spell(p)[8..] == p.host + (if p.port.Some? then ":" + p.port.value else "") + p.path
  {
    assert Spell(p) == SCHEME + (p.host + SpellTail(p.port, p.path));
    assert Spell(p)[8..] == p.host + SpellTail(p.port, p.path);
  }

  /** The port a URL connects to. */
  function EffectivePort(p: Parts): string
  {
    if p.port.Some? then p.port.value else "443"
  }

  lemma NormalizedReads(raw: string)
    ensures Normalize(raw).Some? ==>
      var p := Match(Strip(raw)).value;
      var url := Normalize(raw).value;
      |url| >= 8 && GatewayHost(url) == p.host && GatewayPort(url) == EffectivePort(p)
  {
    hide Match, Shape, Acceptable, Strip, DropSlashes;
    var m := Match(Strip(raw));
    if m.Some? && Acceptable(m.value) {
      MatchIsSpelled(Strip(raw));
      CanonicalKeepsShape(m.value);
      ReadersAgree(Canonical(m.value));
    }
  }

  /** Two accepted inputs get the same URL exactly when they name the same endpoint and path. */
  lemma SameUrlSameEndpoint(one: string, two: string)
    requires Normalize(one).Some? && Normalize(two).Some?
    ensures
      var p, q := Match(Strip(one)).value, Match(Strip(two)).value;
      Normalize(one) == Normalize(two) <==>
      && p.host == q.host && EffectivePort(p) == EffectivePort(q) && DropSlashes(p.path) == DropSlashes(q.path)
  {
    hide Match, Shape, Acceptable, Spell, Strip, DropSlashes;
    var p, q := Match(Strip(one)).value, Match(Strip(two)).value;
    MatchIsSpelled(Strip(one));
    MatchIsSpelled(Strip(two));
    CanonicalKeepsShape(p);
    CanonicalKeepsShape(q);
    SpelledIsMatched(Canonical(p));
    SpelledIsMatched(Canonical(q));
  }

  // --- Numeric hosts -----------------------------------------------------------------

  /** A number in decimal, without leading zeros. */
  function Decimal(n: nat): (s: string)
    ensures s != "" && AllDigits(s) && NatOf(s) == n
  {
    var last := (n % 10 + 48) as char;
    if n < 10 then
      assert [last][..0] == "" && DigitValue(last) == n;
      [last]
    else
      var s := Decimal(n / 10) + [last];
      assert s[..|s| - 1] == Decimal(n / 10) && s[|s| - 1] == last;
      s
  }

  function Dotted(a: nat, b: nat, c: nat, d: nat): string
  {
    Decimal(a) + "." + Decimal(b) + "." + Decimal(c) + "." + Decimal(d)
  }

  lemma {:induction false} SplitPiece(a: string, c: char, rest: string)
    requires c !in a
    ensures Split(a + [c] + rest, c) == [a] + Split(rest, c)
    ensures Split(a, c) == [a]
  {
    var s := a + [c] + rest;
    if a == "" {
      assert s[1..] == rest;
    } else {
      assert s[0] == a[0] && a[0] in a && s[1..] == a[1..] + [c] + rest;
      SplitPiece(a[1..], c, rest);
      assert [a[0]] + a[1..] == a;
      assert ([a[1..]] + Split(rest, c))[1..] == Split(rest, c);
    }
  }

  function JoinAll(parts: seq<string>, c: char): string
    requires parts != []
  {
    if |parts| == 1 then parts[0] else parts[0] + [c] + JoinAll(parts[1..], c)
  }

  lemma {:induction false} JoinSplit(s: string, c: char)
    ensures JoinAll(Split(s, c), c) == s
  {
    if s == "" {
    } else {
      JoinSplit(s[1..], c);
      var r := Split(s[1..], c);
      if s[0] == c {
        assert ([""] + r)[1..] == r;
      } else {
        assert ([[s[0]] + r[0]] + r[1..])[1..] == r[1..];
      }
      assert s == [s[0]] + s[1..];
    }
  }

  /** Two texts of digits without leading zeros that denote the same number are the same. */
  lemma {:induction false} DecimalOnly(s: string)
    requires s != "" && AllDigits(s) && (s == "0" || s[0] != '0')
    ensures s == Decimal(NatOf(s))
  {
    var front, last := s[..|s| - 1], s[|s| - 1];
    assert IsDigit(last) && s == front + [last];
    if |s| > 1 {
      assert front[0] == s[0];
      DecimalOnly(front);
      Positive(front);
      assert NatOf(s) / 10 == NatOf(front) && NatOf(s) % 10 == DigitValue(last);
    } else {
      assert front == "" && NatOf(s) == DigitValue(last);
    }
  }

  lemma {:induction false} Positive(s: string)
    requires s != "" && AllDigits(s) && s[0] != '0'
    ensures NatOf(s) > 0
  {
    if |s| > 1 {
      Positive(s[..|s| - 1]);
    } else {
      assert IsDigit(s[0]) && s[..0] == "" && NatOf(s) == DigitValue(s[0]);
    }
  }

  /** The octets are the decimals of the numbers below 256. */
  lemma OctetExactly(s: string)
    ensures IsOctet(s) <==> exists n: nat :: n < 256 && s == Decimal(n)
  {
    if IsOctet(s) {
      DecimalOnly(s);
    }
    forall n: nat | n < 256
      ensures IsOctet(Decimal(n))
    {
      DecimalIsOctet(n);
    }
  }

  lemma DecimalIsOctet(n: nat)
    requires n < 256
    ensures IsOctet(Decimal(n))
  {
    if n >= 10 {
      assert n / 10 < 26 && n / 10 / 10 < 3;
      assert Decimal(n)[0] == Decimal(n / 10)[0];
      if n / 10 >= 10 {
        assert Decimal(n / 10)[0] == Decimal(n / 10 / 10)[0];
      }
    }
  }

  lemma OctetIsLabel(s: string)
    requires IsOctet(s)
    ensures IsLabel(s) && !IsAce(s) && IsNumeric(s) && '.' !in s
  {
    assert forall i :: 0 <= i < |s| ==> IsDigit(s[i]);
  }

  lemma DottedSplits(a: string, b: string, c: string, d: string)
    requires '.' !in a && '.' !in b && '.' !in c && '.' !in d
    ensures Split(a + "." + b + "." + c + "." + d, '.') == [a, b, c, d]
  {
    hide Split;
    var three, two := b + ['.'] + (c + ['.'] + d), c + ['.'] + d;
    SplitPiece(d, '.', "");
    SplitPiece(c, '.', d);
    SplitPiece(b, '.', two);
    SplitPiece(a, '.', three);
    assert a + "." + b + "." + c + "." + d == a + ['.'] + three;
    assert [a] + ([b] + ([c] + [d])) == [a, b, c, d];
  }

  function LastLabel(host: string): string
  {
    var parts := Split(host, '.');
    parts[|parts| - 1]
  }

  /**
   A host whose last label a URL parser would read as a number is accepted
   exactly when it is a dotted quad in its one plain spelling.
   */
  lemma NumericHostExactly(host: string)
    ensures ValidHost(host) && IsNumeric(LastLabel(host)) <==>
      exists a: nat, b: nat, c: nat, d: nat :: a < 256 && b < 256 && c < 256 && d < 256 && host == Dotted(a, b, c, d)
  {
    if ValidHost(host) && IsNumeric(LastLabel(host)) {
      QuadIsDotted(host);
    }
    forall a: nat, b: nat, c: nat, d: nat | a < 256 && b < 256 && c < 256 && d < 256 && host == Dotted(a, b, c, d)
      ensures ValidHost(host) && IsNumeric(LastLabel(host))
    {
      DottedIsValid(a, b, c, d);
    }
  }

  lemma QuadIsDotted(host: string)
    requires ValidHost(host) && IsNumeric(LastLabel(host))
    ensures exists a: nat, b: nat, c: nat, d: nat ::
      a < 256 && b < 256 && c < 256 && d < 256 && host == Dotted(a, b, c, d)
  {
    var p := Split(host, '.');
    hide IsOctet, Decimal, IsLabel, IsAce, IsNumeric, Split;
    assert p[0] in p && p[1] in p && p[2] in p && p[3] in p;
    OctetExactly(p[0]);
    OctetExactly(p[1]);
    OctetExactly(p[2]);
    OctetExactly(p[3]);
    JoinSplit(host, '.');
    FourJoined(p);
    var a: nat :| a < 256 && p[0] == Decimal(a);
    var b: nat :| b < 256 && p[1] == Decimal(b);
    var c: nat :| c < 256 && p[2] == Decimal(c);
    var d: nat :| d < 256 && p[3] == Decimal(d);
    assert host == Dotted(a, b, c, d);
  }

  lemma FourJoined(p: seq<string>)
    requires |p| == 4
    ensures JoinAll(p, '.') == p[0] + "." + p[1] + "." + p[2] + "." + p[3]
  {
    assert p[1..][1..] == p[2..] && p[2..][1..] == p[3..];
    assert JoinAll(p[3..], '.') == p[3];
    assert JoinAll(p[2..], '.') == p[2] + "." + p[3];
    assert JoinAll(p[1..], '.') == p[1] + "." + (p[2] + "." + p[3]);
  }

  lemma DottedIsValid(a: nat, b: nat, c: nat, d: nat)
    requires a < 256 && b < 256 && c < 256 && d < 256
    ensures ValidHost(Dotted(a, b, c, d)) && IsNumeric(LastLabel(Dotted(a, b, c, d)))
  {
    DecimalIsOctet(a);
    DecimalIsOctet(b);
    DecimalIsOctet(c);
    DecimalIsOctet(d);
    OctetIsLabel(Decimal(a));
    OctetIsLabel(Decimal(b));
    OctetIsLabel(Decimal(c));
    OctetIsLabel(Decimal(d));
    OctetLength(Decimal(a));
    OctetLength(Decimal(b));
    OctetLength(Decimal(c));
    OctetLength(Decimal(d));
    DottedSplits(Decimal(a), Decimal(b), Decimal(c), Decimal(d));
    hide Decimal, IsOctet, IsLabel, IsAce, IsNumeric, Split;
    assert Split(Dotted(a, b, c, d), '.') == [Decimal(a), Decimal(b), Decimal(c), Decimal(d)];
  }

  lemma OctetLength(s: string)
    requires IsOctet(s)
    ensures 1 <= |s| <= 3
  {
  }

  // --- Words as hosts -------------------------------------------------------------------

  /** Codes of ASCII characters as text. */
  function Text(codes: seq<int>): string
    requires forall k :: 0 <= k < |codes| ==> 0 <= codes[k] < 0x80
  {
    seq(|codes|, i requires 0 <= i < |codes| => codes[i] as char)
  }

  lemma CodesOfHost(codes: seq<int>)
    requires forall k :: 0 <= k < |codes| ==> 0 <= codes[k] < 0x80
    ensures Codes("xn--" + Text(codes)) == Punycode.ACE_PREFIX + codes
  {
  }

  lemma OneLabel(host: string)
    requires '.' !in host
    ensures Split(host, '.') == [host]
  {
    SplitPiece(host, '.', "");
  }

  lemma WordCodes(cps: seq<int>)
    requires Punycode.AllLetters(cps) && !PunycodeDeltas.AllBasic(cps)
    ensures
      var codes := Punycode.Encode(cps);
      && codes != [] && Punycode.IsDigit(codes[|codes| - 1]) && |cps| <= |codes|
      && forall k :: 0 <= k < |codes| ==> Punycode.IdnLetterOk(codes[k]) && 0 <= codes[k] < 0x80
  {
    Punycode.EncodeSpelling(cps);
    hide Punycode.Encode;
    var codes := Punycode.Encode(cps);
    forall k | 0 <= k < |codes|
      ensures 0 <= codes[k]
    {
      assert Punycode.IdnLetterOk(codes[k]);
    }
  }

  /**
   Which words of allowed letters, one of them not ASCII, the host test accepts
   in their `xn--` form: those whose label is no longer than 63 characters.
   */
  lemma WordHostExactly(cps: seq<int>)
    requires Punycode.AllLetters(cps) && !PunycodeDeltas.AllBasic(cps)
    ensures forall k :: 0 <= k < |Punycode.Encode(cps)| ==> 0 <= Punycode.Encode(cps)[k] < 0x80
    ensures ValidHost("xn--" + Text(Punycode.Encode(cps))) <==> 4 + |Punycode.Encode(cps)| <= 63
  {
    hide Punycode.Encode, Punycode.ValidAceLabel, Punycode.ACE_PREFIX, Punycode.AllLetters, Punycode.IdnLetterOk,
      PunycodeDeltas.AllBasic, Text, Codes, IsLabel, IsAce, IsNumeric, Split;
    WordCodes(cps);
    var codes := Punycode.Encode(cps);
    var host := "xn--" + Text(codes);
    TextLength(codes);
    WordIsLabel(codes);
    OneLabel(host);
    CodesOfHost(codes);
    if |host| <= 63 {
      Punycode.EveryIdnWordHasALabel(cps);
    }
    assert host in [host];
  }

  lemma TextLength(codes: seq<int>)
    requires forall k :: 0 <= k < |codes| ==> 0 <= codes[k] < 0x80
    ensures |Text(codes)| == |codes|
  {
  }

  lemma WordIsLabel(codes: seq<int>)
    requires codes != [] && forall k :: 0 <= k < |codes| ==> Punycode.IdnLetterOk(codes[k]) && 0 <= codes[k] < 0x80
    requires Punycode.IsDigit(codes[|codes| - 1])
    ensures
      var host := "xn--" + Text(codes);
      && '.' !in host && IsAce(host) && !IsNumeric(host) && (IsLabel(host) <==> |host| <= 63)
  {
    var host := "xn--" + Text(codes);
    assert host[|host| - 1] == codes[|codes| - 1] as char;
    forall i | 0 <= i < |host|
      ensures IsLetter(host[i]) || IsDigit(host[i]) || host[i] == '-'
    {
      if i >= 4 {
        assert host[i] == codes[i - 4] as char && Punycode.IdnLetterOk(codes[i - 4]);
      }
    }
    assert !IsDigit(host[0]);
  }
}
