/**
 The bounded decoder closure of render.py: a value as any chain of up to four
 escape decoders would read it.  What the three decoders do is a parameter.
 */
module DecodedVariants {
  import opened Wrappers

  datatype Decoder = Backslashes | CharRefs | Percent

  const DECODERS := [Backslashes, CharRefs, Percent]

  const ROUNDS := 4

  type Decode = (Decoder, string) -> string

  /** `v` read by one decoder after the other. */
  function Image(f: Decode, v: string, ds: seq<Decoder>): string
  {
    if ds == [] then v else f(ds[|ds| - 1], Image(f, v, ds[..|ds| - 1]))
  }

  /** Some chain of at most `k` decoders reads `v` as `x`. */
  ghost predicate Within(f: Decode, v: string, x: string, k: nat)
  {
    exists ds: seq<Decoder> :: |ds| <= k && Image(f, v, ds) == x
  }

  /** Every chain of at most `k` decoders ends in the list. */
  ghost predicate Complete(f: Decode, v: string, seen: seq<string>, k: nat)
  {
    forall ds: seq<Decoder> :: |ds| <= k ==> Image(f, v, ds) in seen
  }

  /** No decoder leads out of the list from any member that `open` does not hold. */
  ghost predicate Closed(f: Decode, seen: seq<string>, open: seq<string>)
  {
    forall x, d :: x in seen && x !in open ==> f(d, x) in seen
  }

  predicate NoRepeats(seen: seq<string>)
  {
    forall i, j :: 0 <= i < j < |seen| ==> seen[i] != seen[j]
  }

  lemma WithinStep(f: Decode, v: string, x: string, k: nat, d: Decoder)
    requires Within(f, v, x, k)
    ensures Within(f, v, f(d, x), k + 1) && Within(f, v, x, k + 1)
  {
    var ds: seq<Decoder> :| |ds| <= k && Image(f, v, ds) == x;
    assert (ds + [d])[..|ds|] == ds;
    assert Image(f, v, ds + [d]) == f(d, x);
  }

  /** One more round over the open members reaches one more link of every chain. */
  lemma CompleteStep(f: Decode, v: string, seen: seq<string>, open: seq<string>, next: seq<string>, k: nat)
    requires Complete(f, v, seen, k) && Closed(f, seen, open)
    requires forall x :: x in seen ==> x in next
    requires forall x, d :: x in open ==> f(d, x) in next
    ensures Complete(f, v, next, k + 1)
  {
    forall ds: seq<Decoder> | |ds| <= k + 1
      ensures Image(f, v, ds) in next
    {
      if |ds| == k + 1 {
        var y := Image(f, v, ds[..k]);
        assert y in seen;
        assert f(ds[k], y) in next;
      } else {
        assert Image(f, v, ds) in seen;
      }
    }
  }

  /** A list with nothing left open holds every chain, of whatever length. */
  lemma {:induction false} ClosedHoldsEveryChain(f: Decode, v: string, seen: seq<string>, ds: seq<Decoder>)
    requires v in seen && Closed(f, seen, [])
    ensures Image(f, v, ds) in seen
    decreases |ds|
  {
    if ds == [] {
    } else {
      ClosedHoldsEveryChain(f, v, seen, ds[..|ds| - 1]);
    }
  }

  /** The three decoders applied to one open member; what is new goes on both lists. */
  method Visit(f: Decode, x: string, all: seq<string>, next: seq<string>, ghost seen: seq<string>, ghost v: string,
               ghost k: nat)
    returns (more: seq<string>, further: seq<string>)
    requires all == seen + next && NoRepeats(all) && Within(f, v, x, k)
    requires forall y :: y in all ==> Within(f, v, y, k + 1)
    ensures more == seen + further && NoRepeats(more) && (forall y :: y in all ==> y in more)
    ensures forall y :: y in more ==> Within(f, v, y, k + 1)
    ensures forall d :: f(d, x) in more
  {
    more, further := all, next;
    var j := 0;
    while j < |DECODERS|
      invariant 0 <= j <= |DECODERS|
      invariant more == seen + further && NoRepeats(more) && (forall y :: y in all ==> y in more)
      invariant forall y :: y in more ==> Within(f, v, y, k + 1)
      invariant forall i :: 0 <= i < j ==> f(DECODERS[i], x) in more
    {
      var d := f(DECODERS[j], x);
      WithinStep(f, v, x, k, DECODERS[j]);
      if d !in more {
        assert more + [d] == seen + (further + [d]);
        more, further := more + [d], further + [d];
      }
      j := j + 1;
    }
    forall d
      ensures f(d, x) in more
    {
      assert f(DECODERS[0], x) in more && f(DECODERS[1], x) in more && f(DECODERS[2], x) in more;
      assert d == DECODERS[0] || d == DECODERS[1] || d == DECODERS[2];
    }
  }

  /** One round: everything the open members are read as that was not seen before. */
  method Round(f: Decode, seen: seq<string>, frontier: seq<string>, ghost v: string, ghost k: nat)
    returns (all: seq<string>, next: seq<string>)
    requires NoRepeats(seen) && Closed(f, seen, frontier) && Complete(f, v, seen, k)
    requires forall y :: y in seen ==> Within(f, v, y, k)
    requires forall y :: y in frontier ==> y in seen
    ensures NoRepeats(all) && all == seen + next
    ensures forall y :: y in all ==> Within(f, v, y, k + 1)
    ensures Complete(f, v, all, k + 1) && Closed(f, all, next)
  {
    all, next := seen, [];
    forall y | y in seen
      ensures Within(f, v, y, k + 1)
    {
      WithinStep(f, v, y, k, Percent);
    }
    hide Within, NoRepeats, Complete;
    var i := 0;
    while i < |frontier|
      invariant 0 <= i <= |frontier|
      invariant NoRepeats(all) && all == seen + next
      invariant forall y :: y in all ==> Within(f, v, y, k + 1)
      invariant forall y, d :: y in frontier[..i] ==> f(d, y) in all
    {
      assert frontier[i] in frontier;
      assert frontier[..i + 1] == frontier[..i] + [frontier[i]];
      var more, further := Visit(f, frontier[i], all, next, seen, v, k);
      all, next := more, further;
      i := i + 1;
    }
    assert frontier[..i] == frontier;
    CompleteStep(f, v, seen, frontier, all, k);
  }

  /**
   `decoded_variants`: without repeats, exactly what the chains of at most four
   decoders make of the value, even though each round only looks at what the
   last one found and an empty round ends it early.
   */
  method Variants(f: Decode, value: string) returns (seen: seq<string>)
    ensures NoRepeats(seen) && |seen| > 0 && seen[0] == value
    ensures forall x :: x in seen <==> Within(f, value, x, ROUNDS)
  {
    seen := [value];
    var frontier := [value];
    var k := 0;
    assert Image(f, value, []) == value;
    while k < ROUNDS
      invariant 0 <= k <= ROUNDS && NoRepeats(seen) && |seen| > 0 && seen[0] == value
      invariant forall y :: y in seen ==> Within(f, value, y, k)
      invariant forall y :: y in frontier ==> y in seen
      invariant Complete(f, value, seen, k) && Closed(f, seen, frontier)
    {
      var next;
      seen, next := Round(f, seen, frontier, value, k);
      if next == [] {
        ClosedIsComplete(f, value, seen);
        EarlyWithin(f, value, seen, k);
        return;
      }
      frontier := next;
      k := k + 1;
    }
    ExactlyWithin(f, value, seen);
  }

  lemma ClosedIsComplete(f: Decode, v: string, seen: seq<string>)
    requires v in seen && Closed(f, seen, [])
    ensures Complete(f, v, seen, ROUNDS)
  {
    forall ds: seq<Decoder> | |ds| <= ROUNDS
      ensures Image(f, v, ds) in seen
    {
      ClosedHoldsEveryChain(f, v, seen, ds);
    }
  }

  lemma EarlyWithin(f: Decode, v: string, seen: seq<string>, k: nat)
    requires k < ROUNDS && (forall y :: y in seen ==> Within(f, v, y, k + 1)) && Complete(f, v, seen, ROUNDS)
    ensures forall x :: x in seen <==> Within(f, v, x, ROUNDS)
  {
    forall y | y in seen
      ensures Within(f, v, y, ROUNDS)
    {
      var ds: seq<Decoder> :| |ds| <= k + 1 && Image(f, v, ds) == y;
      assert |ds| <= ROUNDS;
    }
    ExactlyWithin(f, v, seen);
  }

  lemma ExactlyWithin(f: Decode, v: string, seen: seq<string>)
    requires (forall y :: y in seen ==> Within(f, v, y, ROUNDS)) && Complete(f, v, seen, ROUNDS)
    ensures forall x :: x in seen <==> Within(f, v, x, ROUNDS)
  {
  }

  /** `secret_shape_in`: a shape is named exactly when some chain of at most four decoders exhibits one. */
  method SecretShapeIn(f: Decode, patterns: seq<string -> bool>, value: string) returns (r: Option<nat>)
    ensures r.Some? <==>
      exists ds: seq<Decoder>, p :: |ds| <= ROUNDS && 0 <= p < |patterns| && patterns[p](Image(f, value, ds))
    ensures r.Some? ==>
      && r.value < |patterns|
      && exists ds: seq<Decoder> :: |ds| <= ROUNDS && patterns[r.value](Image(f, value, ds))
  {
    var variants := Variants(f, value);
    var i := 0;
    while i < |variants|
      invariant 0 <= i <= |variants|
      invariant forall x, p :: x in variants[..i] && 0 <= p < |patterns| ==> !patterns[p](x)
    {
      var j := 0;
      while j < |patterns|
        invariant 0 <= j <= |patterns|
        invariant forall p :: 0 <= p < j ==> !patterns[p](variants[i])
      {
        if patterns[j](variants[i]) {
          assert Within(f, value, variants[i], ROUNDS);
          ghost var ds: seq<Decoder> :| |ds| <= ROUNDS && Image(f, value, ds) == variants[i];
          return Some(j);
        }
        j := j + 1;
      }
      assert variants[..i + 1] == variants[..i] + [variants[i]];
      i := i + 1;
    }
    assert variants[..i] == variants;
    forall ds: seq<Decoder>, p | |ds| <= ROUNDS && 0 <= p < |patterns|
      ensures !patterns[p](Image(f, value, ds))
    {
      assert Within(f, value, Image(f, value, ds), ROUNDS);
    }
    r := None;
  }
}
