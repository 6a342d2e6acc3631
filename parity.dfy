/** Single even-parity bit (calculateEvenParity, addParityBit and the
    'parity' branch of detectErrors). */
module ParityCode {
  import opened Bits

  /** The even-parity bit of m: 1 exactly when m holds an odd number of 1s. */
  function EvenParity(m: Bits): bool {
    Ones(m) % 2 != 0
  }

  /** addParityBit: m followed by its even-parity bit. */
  function AddParityBit(m: Bits): (r: Bits)
    ensures |r| == |m| + 1 && r[..|m|] == m
    ensures Ones(r) % 2 == 0
  {
    OnesAppend(m, [EvenParity(m)]);
    assert Ones([EvenParity(m)]) == if EvenParity(m) then 1 else 0 by {
      assert [EvenParity(m)][..0] == [];
    }
    m + [EvenParity(m)]
  }

  /** The parity check of detectErrors: the last bit (`slice(-1)`) against the
      parity recomputed over the rest (`slice(0, -1)`). An empty word compares
      the empty string with '0' and is flagged. */
  function ParityDetect(t: Bits): bool {
    Last(t, 1) != [EvenParity(AllButLast(t, 1))]
  }

  /** A received word of at least one bit is flagged exactly when it holds an
      odd number of 1s. */
  lemma {:induction false} ParityDetectIff(t: Bits)
    requires |t| >= 1
    ensures ParityDetect(t) <==> Ones(t) % 2 == 1
  {
    var d, b := t[..|t| - 1], t[|t| - 1];
    assert AllButLast(t, 1) == d;
    assert Last(t, 1) == [b];
    assert Ones(t) == Ones(d) + (if b then 1 else 0);
    OddAfterBit(Ones(d), b);
  }

  lemma {:induction false} OddAfterBit(n: nat, b: bool)
    ensures (n + (if b then 1 else 0)) % 2 == 1 <==> b != (n % 2 != 0)
  {
  }

  /** A codeword that arrives unchanged is never flagged. */
  lemma {:induction false} ParityClean(m: Bits)
    ensures !ParityDetect(AddParityBit(m))
  {
    ParityDetectIff(AddParityBit(m));
  }

  /** Any single flipped bit is caught. */
  lemma {:induction false} ParitySingleFlip(m: Bits, p: nat)
    requires p <= |m|
    ensures ParityDetect(Flip(AddParityBit(m), p))
  {
    var c := AddParityBit(m);
    OnesFlip(c, p);
    ParityDetectIff(Flip(c, p));
  }

  /** Two flips at distinct positions are never caught: the blind spot of parity. */
  lemma {:induction false} ParityDoubleFlip(m: Bits, p: nat, q: nat)
    requires p <= |m| && q <= |m| && p != q
    ensures !ParityDetect(Flip(Flip(AddParityBit(m), p), q))
  {
    var c := AddParityBit(m);
    OnesFlip(c, p);
    OnesFlip(Flip(c, p), q);
    ParityDetectIff(Flip(Flip(c, p), q));
  }

  /** The worked example: 1011001 holds four 1s, so the parity bit is 0. */
  lemma {:induction false} ParityExample()
    ensures AddParityBit(FromString("1011001")) == FromString("10110010")
  {
    var m := FromString("1011001");
    assert m == [true, false, true, true, false, false, true];
    OnesAppend([true, false, true], [true, false, false, true]);
    OnesAppend([true], [false, true]);
    OnesAppend([true, false], [false, true]);
    assert Ones([true]) == 1 by { assert [true][..0] == []; }
    assert Ones([false]) == 0 by { assert [false][..0] == []; }
    OnesAppend([true], [false]);
    OnesAppend([false], [true]);
    OnesAppend([true, false], [true]);
    OnesAppend([true, false, false], [true]);
    OnesAppend([true], [false, false, true]);
    OnesAppend([false], [false, true]);
    assert [true, false, true] == [true, false] + [true];
    assert [false, false, true] == [false] + [false, true];
    assert [true, false, false, true] == [true] + [false, false, true];
    assert [true, false, true] + [true, false, false, true] == m;
    assert Ones(m) == 4;
  }
}
