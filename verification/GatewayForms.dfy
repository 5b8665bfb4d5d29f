/**
 Which gateway URLs are accepted, written out: the host label by label, the port
 as a number and the path segment by segment, and what each becomes.
 */
module GatewayForms {
  import opened Wrappers
  import opened AsciiText
  import opened Decimals
  import opened GatewayUrl
  import Punycode
  import PunycodeDeltas

  // --- Labels -----------------------------------------------------------------------

  predicate Alphanumeric(c: char)
  {
    IsLetter(c) || IsDigit(c)
  }

  /** A label of the domain name system. */
  predicate Ordinary(l: string)
  {
    && 1 <= |l| <= 63 && Alphanumeric(l[0]) && Alphanumeric(l[|l| - 1])
    && forall i :: 0 <= i < |l| ==> Alphanumeric(l[i]) || l[i] == '-'
  }

  predicate Prefixed(l: string, prefix: string)
  {
    |prefix| <= |l| && Lower(l[..|prefix|]) == prefix
  }

  /** The label is the `xn--` form of a word of allowed letters, one of them not ASCII, in any letter case. */
  ghost predicate SpellsWord(l: string)
  {
    exists cps :: Punycode.AllLetters(cps) && !PunycodeDeltas.AllBasic(cps)
                  && Codes(Lower(l)) == Codes("xn--") + Punycode.Encode(cps)
  }

  /** A label that URL parsers read as a number. */
  predicate NumberLike(l: string)
  {
    (l != "" && AllDigits(l)) || (Prefixed(l, "0x") && forall i :: 2 <= i < |l| ==> HexDigit(l[i]).Some?)
  }

  lemma LabelsAgree(l: string)
    ensures Ordinary(l) <==> IsLabel(l)
    ensures Prefixed(l, "xn--") <==> IsAce(l)
    ensures NumberLike(l) <==> IsNumeric(l)
  {
    assert |l| >= 4 ==> Lower(l[..4]) == [LowerOf(l[0]), LowerOf(l[1]), LowerOf(l[2]), LowerOf(l[3])];
    assert |l| >= 2 ==> Lower(l[..2]) == [LowerOf(l[0]), LowerOf(l[1])];
  }

  lemma LowerCodes(l: string)
    ensures Codes(Lower(l)) == Punycode.Lower(Codes(l))
  {
  }

  lemma CodesApart(l: string, rest: seq<int>)
    ensures |Codes(Lower(l))| == |l|
    ensures Codes("xn--") == Punycode.ACE_PREFIX
    ensures |l| >= 4 && Prefixed(l, "xn--") ==> Codes(Lower(l)) == Punycode.ACE_PREFIX + Codes(Lower(l))[4..]
  {
    if |l| >= 4 && Prefixed(l, "xn--") {
      assert Lower(l)[..4] == Lower(l[..4]);
      assert Codes(Lower(l))[..4] == Codes(Lower(l)[..4]);
    }
  }

  /** The test of an `xn--` label accepts exactly the spellings of words. */
  lemma AceExactly(l: string)
    requires Prefixed(l, "xn--") && |l| <= 63
    ensures Punycode.ValidAceLabel(Codes(l)) <==> SpellsWord(l)
  {
    hide Punycode.Encode, Punycode.Decode, Punycode.AllLetters, PunycodeDeltas.AllBasic, Codes, Lower, Punycode.Lower;
    var name, low := Codes(l), Codes(Lower(l));
    LowerCodes(l);
    CodesApart(l, []);
    var rest := Punycode.AceRest(name);
    assert rest == low[4..];
    if Punycode.ValidAceLabel(name) {
      var cps := Punycode.Decode(rest).value;
      assert low == Codes("xn--") + Punycode.Encode(cps);
    }
    if SpellsWord(l) {
      var cps :| Punycode.AllLetters(cps) && !PunycodeDeltas.AllBasic(cps)
                 && low == Codes("xn--") + Punycode.Encode(cps);
      Punycode.EncodeSpelling(cps);
      assert rest == Punycode.Encode(cps);
      WordDecodes(cps, rest);
    }
  }

  lemma WordDecodes(cps: seq<int>, rest: seq<int>)
    requires Punycode.AllLetters(cps) && !PunycodeDeltas.AllBasic(cps) && |cps| <= 63 && rest == Punycode.Encode(cps)
    ensures Punycode.Decode(rest) == Some(cps) && cps != []
  {
    hide Punycode.Encode, Punycode.Decode, Punycode.Lower;
    Punycode.EveryIdnWordHasALabel(cps);
    Punycode.EncodeIsLower(cps);
    Punycode.LowerPrefixed(rest);
  }

  // --- Hosts ------------------------------------------------------------------------

  ghost predicate IsQuad(host: string)
  {
    exists a: nat, b: nat, c: nat, d: nat :: a < 256 && b < 256 && c < 256 && d < 256 && host == Dotted(a, b, c, d)
  }

  /** The host is these labels with dots between them, and each may stand where it does. */
  ghost predicate HostForm(host: string, labels: seq<string>)
  {
    && labels != [] && host == JoinAll(labels, '.') && |host| <= 253
    && (forall l :: l in labels ==> Ordinary(l) && (Prefixed(l, "xn--") ==> SpellsWord(l)))
    && (NumberLike(labels[|labels| - 1]) ==> IsQuad(host))
  }

  lemma {:induction false} SplitJoin(parts: seq<string>, c: char)
    requires parts != [] && forall p :: p in parts ==> c !in p
    ensures Split(JoinAll(parts, c), c) == parts
  {
    if |parts| == 1 {
      SplitPiece(parts[0], c, "");
    } else {
      SplitJoin(parts[1..], c);
      SplitPiece(parts[0], c, JoinAll(parts[1..], c));
    }
  }

  /** Exactly which hosts are accepted. */
  lemma HostExactly(host: string)
    ensures ValidHost(host) <==> exists labels :: HostForm(host, labels)
  {
    if ValidHost(host) {
      ValidHasForm(host);
    }
    forall labels | HostForm(host, labels)
      ensures ValidHost(host)
    {
      FormIsValid(host, labels);
    }
  }

  lemma ValidHasForm(host: string)
    requires ValidHost(host)
    ensures HostForm(host, Split(host, '.'))
  {
    hide Split, JoinAll, Ordinary, IsLabel, IsAce, IsNumeric, NumberLike, SpellsWord, Punycode.ValidAceLabel, IsOctet,
      Prefixed;
    var labels := Split(host, '.');
    JoinSplit(host, '.');
    forall l | l in labels
      ensures Ordinary(l) && (Prefixed(l, "xn--") ==> SpellsWord(l))
    {
      LabelsAgree(l);
      LabelLength(l);
      if IsAce(l) {
        AceExactly(l);
      }
    }
    LabelsAgree(labels[|labels| - 1]);
    NumericHostExactly(host);
  }

  lemma LabelLength(l: string)
    ensures IsLabel(l) ==> 1 <= |l| <= 63 && '.' !in l
  {
  }

  lemma FormIsValid(host: string, labels: seq<string>)
    requires HostForm(host, labels)
    ensures ValidHost(host)
  {
    hide Split, JoinAll, Ordinary, IsLabel, IsAce, IsNumeric, NumberLike, SpellsWord, Punycode.ValidAceLabel, IsOctet,
      Prefixed, Dotted;
    forall l | l in labels
      ensures IsLabel(l) && '.' !in l && (IsAce(l) ==> Punycode.ValidAceLabel(Codes(l)))
    {
      LabelsAgree(l);
      LabelLength(l);
      if IsAce(l) {
        AceExactly(l);
      }
    }
    SplitJoin(labels, '.');
    LabelsAgree(labels[|labels| - 1]);
    JoinIsLong(labels, '.');
    LabelLength(labels[0]);
    assert labels[0] in labels;
    if IsNumeric(labels[|labels| - 1]) {
      NumericHostExactly(host);
    }
  }

  lemma JoinIsLong(parts: seq<string>, c: char)
    requires parts != []
    ensures |JoinAll(parts, c)| >= |parts[0]|
  {
  }

  // --- Ports and paths ----------------------------------------------------------------

  lemma {:induction false} DecimalLength(n: nat, k: nat)
    requires k > 0 && n < Pow10(k)
    ensures |Decimal(n)| <= k
    ensures n > 0 ==> Decimal(n)[0] != '0'
  {
    if n < 10 {
    } else {
      assert k > 1 && Pow10(k) == 10 * Pow10(k - 1);
      DecimalLength(n / 10, k - 1);
      assert Decimal(n)[0] == Decimal(n / 10)[0];
    }
  }

  /** The ports are the numbers from 1 to 65535 in decimal. */
  lemma PortExactly(port: string)
    ensures ValidPort(port) <==> exists n: nat :: 1 <= n <= 65535 && port == Decimal(n)
  {
    hide Decimal;
    if ValidPort(port) {
      DecimalOnly(port);
      Positive(port);
    }
    forall n: nat | 1 <= n <= 65535 && port == Decimal(n)
      ensures ValidPort(port)
    {
      NumberIsPort(n);
    }
  }

  lemma NumberIsPort(n: nat)
    requires 1 <= n <= 65535
    ensures ValidPort(Decimal(n))
  {
    hide Decimal;
    assert Pow10(5) == 100000;
    DecimalLength(n, 5);
  }

  /** A segment of a path: of allowed characters, and neither a step in place nor a step up. */
  predicate Segment(seg: string)
  {
    && seg != "" && seg != "." && seg != ".."
    && forall i :: 0 <= i < |seg| ==> Alphanumeric(seg[i]) || seg[i] in "._~-"
  }

  function PathText(segs: seq<string>): string
  {
    if segs == [] then "" else "/" + JoinAll(segs, '/')
  }

  function Slashes(k: nat): (s: string)
    ensures |s| == k
  {
    seq(k, _ => '/')
  }

  lemma {:induction false} DropSlashesSplits(path: string)
    ensures path == DropSlashes(path) + Slashes(|path| - |DropSlashes(path)|)
  {
    if path != "" && path[|path| - 1] == '/' {
      var front := path[..|path| - 1];
      DropSlashesSplits(front);
      assert path == front + "/";
      assert Slashes(|path| - |DropSlashes(path)|) == Slashes(|front| - |DropSlashes(front)|) + "/";
    } else {
      assert path == path + Slashes(0);
    }
  }

  lemma {:induction false} DropSlashesOf(d: string, k: nat)
    requires d == "" || d[|d| - 1] != '/'
    ensures DropSlashes(d + Slashes(k)) == d
  {
    var path := d + Slashes(k);
    if k == 0 {
      assert path == d;
    } else {
      assert path[..|path| - 1] == d + Slashes(k - 1);
      DropSlashesOf(d, k - 1);
    }
  }

  lemma {:induction false} SplitParts(s: string, c: char)
    ensures forall p, i :: p in Split(s, c) && 0 <= i < |p| ==> p[i] in s && p[i] != c
  {
    if s == "" {
    } else {
      SplitParts(s[1..], c);
      var r := Split(s[1..], c);
      forall p, i | p in Split(s, c) && 0 <= i < |p|
        ensures p[i] in s && p[i] != c
      {
        if p in r {
        } else {
          assert p == [s[0]] + r[0];
          assert i > 0 ==> p[i] == r[0][i - 1];
        }
      }
    }
  }

  lemma {:induction false} JoinedChars(segs: seq<string>)
    requires segs != [] && forall s :: s in segs ==> Segment(s)
    ensures
      var p := JoinAll(segs, '/');
      p != "" && AllIn(p, PathChars) && p[|p| - 1] != '/'
  {
    assert Segment(segs[0]);
    if |segs| > 1 {
      JoinedChars(segs[1..]);
    }
  }

  /** The paths that pass are segments with slashes in front, and any number of slashes behind. */
  lemma PathHasSegments(path: string) returns (segs: seq<string>, k: nat)
    requires IsPath(path) && PlainPath(DropSlashes(path))
    ensures (forall s :: s in segs ==> Segment(s)) && path == PathText(segs) + Slashes(k)
    ensures PathText(segs) == DropSlashes(path)
  {
    var d := DropSlashes(path);
    DropSlashesSplits(path);
    k := |path| - |d|;
    if d == "" {
      segs := [];
    } else {
      segs := Split(d[1..], '/');
      JoinSplit(d[1..], '/');
      SplitParts(d[1..], '/');
      assert d == "/" + d[1..];
      forall s | s in segs
        ensures Segment(s)
      {
        forall i | 0 <= i < |s|
          ensures In(s[i], PathChars)
        {
          assert s[i] in d[1..];
        }
      }
    }
  }

  lemma SegmentsAreAPath(segs: seq<string>, k: nat)
    requires forall s :: s in segs ==> Segment(s)
    ensures
      var path := PathText(segs) + Slashes(k);
      && IsPath(path) && DropSlashes(path) == PathText(segs) && PlainPath(PathText(segs))
  {
    if segs == [] {
      DropSlashesOf("", k);
    } else {
      JoinedChars(segs);
      SplitJoin(segs, '/');
      var d := PathText(segs);
      assert d[1..] == JoinAll(segs, '/');
      assert d[|d| - 1] == JoinAll(segs, '/')[|JoinAll(segs, '/')| - 1];
      DropSlashesOf(d, k);
    }
  }

  // --- Whole URLs -----------------------------------------------------------------------

  function PortText(port: Option<nat>): string
  {
    if port.None? then "" else ":" + Decimal(port.value)
  }

  /** What an accepted input names. */
  datatype Target = Target(host: string, port: Option<nat>, segments: seq<string>)

  ghost predicate ValidTarget(t: Target)
  {
    && (exists labels :: HostForm(t.host, labels)) && (t.port.Some? ==> 1 <= t.port.value <= 65535)
    && forall s :: s in t.segments ==> Segment(s)
  }

  function Url(t: Target): string
  {
    SCHEME + (t.host + (PortText(t.port) + PathText(t.segments)))
  }

  /** `:443` goes without saying. */
  function Plain(t: Target): Target
  {
    if t.port == Some(443) then t.(port := None) else t
  }

  /**
   Which inputs are accepted and what they become: a target between boundary
   spaces, with any number of slashes behind it, becomes the target alone.
   */
  lemma NormalizedExactly(raw: string, url: string)
    ensures Normalize(raw) == Some(url) <==>
      exists t: Target, k: nat :: ValidTarget(t) && Strip(raw) == Url(t) + Slashes(k) && url == Url(Plain(t))
  {
    hide Strip, Url, Plain, ValidTarget, Slashes;
    if Normalize(raw) == Some(url) {
      var t, k := AcceptedHasTarget(raw);
    }
    forall t: Target, k: nat | ValidTarget(t) && Strip(raw) == Url(t) + Slashes(k) && url == Url(Plain(t))
      ensures Normalize(raw) == Some(url)
    {
      TargetIsAccepted(raw, t, k);
    }
  }

  lemma Assembled(t: Target, k: nat)
    ensures Url(t) + Slashes(k) == SCHEME + (t.host + (PortText(t.port) + (PathText(t.segments) + Slashes(k))))
  {
  }

  /** The parts that the pattern sees. */
  function PartsOf(t: Target, k: nat): Parts
  {
    Parts(t.host, if t.port.None? then None else Some(Decimal(t.port.value)), PathText(t.segments) + Slashes(k))
  }

  lemma PartsAreTheTarget(t: Target, k: nat)
    ensures Spell(PartsOf(t, k)) == Url(t) + Slashes(k)
  {
    Assembled(t, k);
  }

  lemma CanonicalIsPlain(t: Target, k: nat)
    requires forall s :: s in t.segments ==> Segment(s)
    ensures Spell(Canonical(PartsOf(t, k))) == Url(Plain(t))
  {
    hide Segment, Decimal, PathText, DropSlashes, Slashes;
    SegmentsAreAPath(t.segments, k);
    Port443(t.port);
  }

  lemma Port443(port: Option<nat>)
    ensures port.Some? ==> (Decimal(port.value) == "443" <==> port.value == 443)
  {
    hide Decimal;
    var s := "443";
    assert s[..2] == "44" && s[..2][..1] == "4" && s[..2][..1][..0] == "";
    assert NatOf("4") == 4;
    assert NatOf("44") == 44;
    assert NatOf(s) == 443;
    DecimalOnly(s);
  }

  lemma AcceptedHasTarget(raw: string) returns (t: Target, k: nat)
    requires Normalize(raw).Some?
    ensures ValidTarget(t) && Strip(raw) == Url(t) + Slashes(k) && Normalize(raw) == Some(Url(Plain(t)))
  {
    hide Strip, Match, Spell, Url, Plain, Slashes, PathText, ValidHost, ValidPort, HostForm, IsPath, PlainPath, Decimal,
      Segment;
    MatchIsSpelled(Strip(raw));
    var p := Match(Strip(raw)).value;
    HostExactly(p.host);
    var segs;
    segs, k := PathHasSegments(p.path);
    var port := None;
    if p.port.Some? {
      PortExactly(p.port.value);
      var n: nat :| 1 <= n <= 65535 && p.port.value == Decimal(n);
      port := Some(n);
    }
    t := Target(p.host, port, segs);
    assert PartsOf(t, k) == p;
    PartsAreTheTarget(t, k);
    CanonicalIsPlain(t, k);
  }

  lemma TargetIsAccepted(raw: string, t: Target, k: nat)
    requires ValidTarget(t) && Strip(raw) == Url(t) + Slashes(k)
    ensures Normalize(raw) == Some(Url(Plain(t)))
  {
    hide Strip, Match, Spell, Url, Plain, Slashes, PathText, ValidHost, ValidPort, HostForm, IsPath, PlainPath, Decimal,
      Segment, AllIn;
    var p := PartsOf(t, k);
    PartsAreTheTarget(t, k);
    CanonicalIsPlain(t, k);
    HostExactly(t.host);
    HostIsHostChars(t.host);
    SegmentsAreAPath(t.segments, k);
    if t.port.Some? {
      NumberIsPort(t.port.value);
      DigitsAreDigitChars(Decimal(t.port.value));
    }
    assert PlainPath(DropSlashes(p.path));
    SpelledIsMatched(p);
  }

  lemma DigitsAreDigitChars(s: string)
    requires AllDigits(s)
    ensures AllIn(s, DigitChars)
  {
  }

  lemma HostIsHostChars(host: string)
    requires ValidHost(host)
    ensures host != "" && AllIn(host, HostChars)
  {
    hide Split;
    JoinSplit(host, '.');
    LabelChars(Split(host, '.'));
  }

  lemma {:induction false} LabelChars(labels: seq<string>)
    requires labels != [] && forall l :: l in labels ==> IsLabel(l)
    ensures AllIn(JoinAll(labels, '.'), HostChars)
  {
    assert IsLabel(labels[0]);
    if |labels| > 1 {
      LabelChars(labels[1..]);
    }
  }

  /** What boundary spaces are: `Strip` drops them at both ends, and stops at anything else. */
  lemma StripExactly(raw: string, y: string)
    ensures Strip(raw) == y <==>
      exists a: string, b: string ::
        && raw == a + y + b && (forall c :: c in a + b ==> c in " \t\r\n")
        && (y != "" ==> y[0] !in " \t\r\n" && y[|y| - 1] !in " \t\r\n")
  {
    if Strip(raw) == y {
      var a, b := TrimSplits(raw, BoundarySpace);
      assert raw == a + y + b;
    }
    forall a: string, b: string |
      && raw == a + y + b && (forall c :: c in a + b ==> c in " \t\r\n")
      && (y != "" ==> y[0] !in " \t\r\n" && y[|y| - 1] !in " \t\r\n")
      ensures Strip(raw) == y
    {
      forall k | 0 <= k < |a|
        ensures BoundarySpace(a[k])
      {
        assert a[k] in a + b;
      }
      forall k | 0 <= k < |b|
        ensures BoundarySpace(b[k])
      {
        assert b[k] in a + b;
      }
      TrimOf(a, y, b, BoundarySpace);
    }
  }
}
