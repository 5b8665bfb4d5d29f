/**
 The three escape decoders of render.py, and what they have in common: a
 decoder that changes a text makes it shorter.
 */
module EscapeDecoders {
  import opened Wrappers
  import opened AsciiText
  import opened DecodedVariants

  function CodePoint(n: nat): char
  {
    if n < 0xD800 || 0xE000 <= n < 0x11_0000 then n as char else '\U{FFFD}'
  }

  /** The number of leading digits in the base, at most `max`. */
  function DigitRun(s: string, base: nat, max: nat): (n: nat)
    ensures n <= |s| && n <= max
    ensures forall i :: 0 <= i < n ==> HexDigit(s[i]).Some? && HexDigit(s[i]).value < base
  {
    if s == "" || max == 0 || HexDigit(s[0]).None? || HexDigit(s[0]).value >= base then 0
    else 1 + DigitRun(s[1..], base, max - 1)
  }

  function ValueOf(s: string, base: nat): nat
    requires forall i :: 0 <= i < |s| ==> HexDigit(s[i]).Some?
  {
    if s == "" then 0 else base * ValueOf(s[..|s| - 1], base) + HexDigit(s[|s| - 1]).value
  }

  function NumberAt(s: string, from: nat, digits: nat, base: nat): char
    requires from + digits <= |s|
    requires forall i :: from <= i < from + digits ==> HexDigit(s[i]).Some?
  {
    CodePoint(ValueOf(s[from..from + digits], base))
  }

  // --- Backslash escapes ------------------------------------------------------------

  /** The escape behind a backslash: how much of the text it is, and the one character it stands for. */
  function Escape(s: string): (r: (nat, char))
    requires s != ""
    ensures 1 <= r.0 <= |s|
  {
    var braced := if |s| >= 2 && s[0] == 'u' && s[1] == '{' then DigitRun(s[2..], 16, 6) else 0;
    if braced > 0 && 2 + braced < |s| && s[2 + braced] == '}' then
      (3 + braced, NumberAt(s[2..], 0, braced, 16))
    else if s[0] == 'u' && DigitRun(s[1..], 16, 4) == 4 then (5, NumberAt(s[1..], 0, 4, 16))
    else if s[0] == 'U' && DigitRun(s[1..], 16, 8) == 8 then (9, NumberAt(s[1..], 0, 8, 16))
    else if s[0] == 'x' && DigitRun(s[1..], 16, 2) == 2 then (3, NumberAt(s[1..], 0, 2, 16))
    else if DigitRun(s, 8, 3) > 0 then (DigitRun(s, 8, 3), NumberAt(s, 0, DigitRun(s, 8, 3), 8))
    else (1, s[0])
  }

  function DecodeBackslashes(s: string): string
    decreases |s|
  {
    if s == "" then ""
    else if s[0] == '\\' && |s| >= 2 then
      var (n, c) := Escape(s[1..]);
      [c] + DecodeBackslashes(s[1..][n..])
    else [s[0]] + DecodeBackslashes(s[1..])
  }

  // --- Character references -----------------------------------------------------------

  const NAMED_REFS: map<string, char> := map[
    "amp" := '&', "lt" := '<', "gt" := '>', "quot" := '"', "apos" := '\'',
    "lowbar" := '_', "UnderBar" := '_', "hyphen" := '-', "dash" := '-', "minus" := '-']

  function NameRun(s: string, max: nat): (n: nat)
    ensures n <= |s| && n <= max
  {
    if s == "" || max == 0 || !(IsLetter(s[0]) || IsDigit(s[0])) then 0 else 1 + NameRun(s[1..], max - 1)
  }

  /** The reference behind an ampersand without its semicolon: its length, and its character if it has one. */
  function Reference(s: string): (r: Option<(nat, Option<char>)>)
    ensures r.Some? ==> 2 <= r.value.0 <= |s|
  {
    if |s| < 2 then None
    else if s[0] == '#' then
      var decimal := DigitRun(s[1..], 10, 7);
      if decimal > 0 then Some((1 + decimal, Some(NumberAt(s[1..], 0, decimal, 10))))
      else if s[1] == 'x' || s[1] == 'X' then
        var hex := DigitRun(s[2..], 16, 6);
        if hex > 0 then Some((2 + hex, Some(NumberAt(s[2..], 0, hex, 16)))) else None
      else None
    else if IsLetter(s[0]) then
      var n := NameRun(s[1..], 31);
      if n == 0 then None
      else Some((1 + n, if s[..1 + n] in NAMED_REFS then Some(NAMED_REFS[s[..1 + n]]) else None))
    else None
  }

  function DecodeCharRefs(s: string): string
    decreases |s|
  {
    if s == "" then ""
    else
      var ref := if s[0] == '&' then Reference(s[1..]) else None;
      if ref.None? then [s[0]] + DecodeCharRefs(s[1..])
      else
        var n := ref.value.0;
        var all := 1 + n + if 1 + n < |s| && s[1 + n] == ';' then 1 else 0;
        (if ref.value.1.Some? then [ref.value.1.value] else s[..all]) + DecodeCharRefs(s[all..])
  }

  // --- Percent-encoding ----------------------------------------------------------------

  function DecodePercent(s: string): string
    decreases |s|
  {
    if s == "" then ""
    else if s[0] == '%' && DigitRun(s[1..], 16, 2) == 2 then
      [NumberAt(s[1..], 0, 2, 16)] + DecodePercent(s[3..])
    else [s[0]] + DecodePercent(s[1..])
  }

  /** The decoders of `decoded_variants`. */
  function Read(d: Decoder, s: string): string
  {
    match d
    case Backslashes => DecodeBackslashes(s)
    case CharRefs => DecodeCharRefs(s)
    case Percent => DecodePercent(s)
  }

  // --- Decoding shortens ------------------------------------------------------------------

  predicate Shrinks(before: string, after: string)
  {
    after == before || |after| < |before|
  }

  lemma ShrinksBehind(piece: string, s: string, after: string)
    requires Shrinks(s, after)
    ensures Shrinks(piece + s, piece + after)
    ensures forall c :: |piece| > 1 ==> Shrinks(piece + s, [c] + after)
  {
  }

  lemma {:induction false} BackslashesShrink(s: string)
    ensures Shrinks(s, DecodeBackslashes(s))
    decreases |s|
  {
    hide Escape;
    if s == "" {
    } else if s[0] == '\\' && |s| >= 2 {
      BackslashesShrink(s[1..][Escape(s[1..]).0..]);
    } else {
      BackslashesShrink(s[1..]);
      ShrinksBehind([s[0]], s[1..], DecodeBackslashes(s[1..]));
      assert s == [s[0]] + s[1..];
    }
  }

  lemma {:induction false} CharRefsShrink(s: string)
    ensures Shrinks(s, DecodeCharRefs(s))
    decreases |s|
  {
    hide Reference, Shrinks;
    if s == "" {
      ShrinksAtAll();
    } else {
      var ref := if s[0] == '&' then Reference(s[1..]) else None;
      var all := if ref.None? then 1
                 else 1 + ref.value.0 + if 1 + ref.value.0 < |s| && s[1 + ref.value.0] == ';' then 1 else 0;
      CharRefsShrink(s[all..]);
      ShrinksBehind(s[..all], s[all..], DecodeCharRefs(s[all..]));
      assert s == s[..all] + s[all..] && s[..1] == [s[0]];
    }
  }

  lemma ShrinksAtAll()
    ensures Shrinks("", "")
  {
  }

  lemma {:induction false} PercentShrinks(s: string)
    ensures Shrinks(s, DecodePercent(s))
    decreases |s|
  {
    hide NumberAt;
    if s == "" {
    } else if s[0] == '%' && DigitRun(s[1..], 16, 2) == 2 {
      PercentShrinks(s[3..]);
    } else {
      PercentShrinks(s[1..]);
      ShrinksBehind([s[0]], s[1..], DecodePercent(s[1..]));
      assert s == [s[0]] + s[1..];
    }
  }

  /** Each decoder leaves a text alone or makes it shorter. */
  lemma DecodersShrink(d: Decoder, s: string)
    ensures Shrinks(s, Read(d, s))
  {
    match d
    case Backslashes => BackslashesShrink(s);
    case CharRefs => CharRefsShrink(s);
    case Percent => PercentShrinks(s);
  }

  /** So does every chain of them: all variants but the value itself are shorter than the value. */
  lemma {:induction false} ChainsShrink(v: string, ds: seq<Decoder>)
    ensures Shrinks(v, Image(Read, v, ds))
    decreases |ds|
  {
    if ds == [] {
    } else {
      ChainsShrink(v, ds[..|ds| - 1]);
      DecodersShrink(ds[|ds| - 1], Image(Read, v, ds[..|ds| - 1]));
    }
  }

  /** `decoded_variants` with the decoders it has. */
  method DecodedVariantsOf(value: string) returns (seen: seq<string>)
    ensures NoRepeats(seen) && |seen| > 0 && seen[0] == value
    ensures forall x :: x in seen <==> Within(Read, value, x, ROUNDS)
    ensures forall k :: 1 <= k < |seen| ==> |seen[k]| < |value|
  {
    seen := Variants(Read, value);
    forall k | 1 <= k < |seen|
      ensures |seen[k]| < |value|
    {
      assert seen[k] in seen && Within(Read, value, seen[k], ROUNDS);
      var ds: seq<Decoder> :| |ds| <= ROUNDS && Image(Read, value, ds) == seen[k];
      ChainsShrink(value, ds);
    }
  }
}
