/** The corruption loop of simulateTransmission. The random choices (whether to
    corrupt at all, how many bits, which ones) are an explicit list of flip
    positions supplied by the caller. */
module Corruptor {
  import opened Bits

  /** What the random draws can produce: no flip, one flip or two flips, each at a
      position `Math.floor(Math.random() * n)` inside the n-bit word; the two
      positions may coincide. */
  predicate ValidFlips(n: nat, flips: seq<nat>) {
    |flips| <= 2 && forall k :: 0 <= k < |flips| ==> flips[k] < n
  }

  /** The word after flipping the listed positions one after another. */
  function Corrupt(s: Bits, flips: seq<nat>): (r: Bits)
    requires forall k :: 0 <= k < |flips| ==> flips[k] < |s|
    ensures |r| == |s|
  {
    if flips == [] then s
    else
      var init := flips[..|flips| - 1];
      assert forall k :: 0 <= k < |init| ==> init[k] == flips[k];
      Flip(Corrupt(s, init), flips[|flips| - 1])
  }

  /** A bit arrives inverted exactly when its position was drawn an odd number of times. */
  lemma {:induction false} CorruptAt(s: Bits, flips: seq<nat>, i: nat)
    requires forall k :: 0 <= k < |flips| ==> flips[k] < |s|
    requires i < |s|
    ensures Corrupt(s, flips)[i] == (s[i] != (multiset(flips)[i] % 2 == 1))
  {
    if flips != [] {
      var init, p := flips[..|flips| - 1], flips[|flips| - 1];
      assert flips == init + [p];
      assert multiset(flips) == multiset(init) + multiset{p};
      assert forall k :: 0 <= k < |init| ==> init[k] == flips[k];
      CorruptAt(s, init, i);
    }
  }

  /** A single draw is a single flip. */
  lemma {:induction false} CorruptOne(s: Bits, p: nat)
    requires p < |s|
    ensures Corrupt(s, [p]) == Flip(s, p)
  {
    assert [p][..0] == [];
  }

  /** Two draws are two flips in turn. */
  lemma {:induction false} CorruptTwo(s: Bits, p: nat, q: nat)
    requires p < |s| && q < |s|
    ensures Corrupt(s, [p, q]) == Flip(Flip(s, p), q)
  {
    assert [p, q][..1] == [p];
    CorruptOne(s, p);
  }

  /** Drawing the same position twice leaves the word intact, although two error
      positions are recorded. */
  lemma {:induction false} CorruptSamePlace(s: Bits, p: nat)
    requires p < |s|
    ensures Corrupt(s, [p, p]) == s
  {
    CorruptTwo(s, p, p);
    assert Flip(Flip(s, p), p) == s;
  }

  /** Two distinct positions invert exactly those two bits. */
  lemma {:induction false} CorruptTwoPlaces(s: Bits, p: nat, q: nat, i: nat)
    requires p < |s| && q < |s| && p != q && i < |s|
    ensures Corrupt(s, [p, q])[i] == (s[i] != (i == p || i == q))
  {
    CorruptAt(s, [p, q], i);
    assert multiset([p, q]) == multiset{p} + multiset{q};
    assert multiset([p, q])[i] == (if i == p then 1 else 0) + (if i == q then 1 else 0);
  }

  /** simulateTransmission's loop as written: rebuild the word around each drawn
      position with the bit inverted, and record the position. */
  method SimulateTransmission(encoded: Bits, flips: seq<nat>) returns (transmitted: Bits, errorPositions: seq<nat>)
    requires ValidFlips(|encoded|, flips)
    ensures transmitted == Corrupt(encoded, flips)
    ensures errorPositions == flips
  {
    transmitted := encoded;
    errorPositions := [];
    var i := 0;
    while i < |flips|
      invariant i <= |flips| && |transmitted| == |encoded|
      invariant transmitted == Corrupt(encoded, flips[..i])
      invariant errorPositions == flips[..i]
    {
      var position := flips[i];
      var bit := transmitted[position];
      assert flips[..i + 1][..i] == flips[..i];
      transmitted := transmitted[..position] + [!bit] + transmitted[position + 1..];
      errorPositions := errorPositions + [position];
      i := i + 1;
    }
    assert flips[..i] == flips;
  }
}
