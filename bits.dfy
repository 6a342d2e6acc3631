/** Bit strings and the integer helpers the codecs share.
    A bit string of the simulator ('0'/'1' characters) is a `seq<bool>`,
    with `true` standing for '1'. */
module Bits {

  type Bits = seq<bool>

  /** What the detection step of the simulator produces for a received word:
      whether an error was flagged, and what correctedMessage becomes. */
  datatype Verdict = Verdict(detected: bool, corrected: Bits)

  /** The pattern ^[01]+$ that setMessage tests a message against. */
  predicate IsBinary(s: string) {
    |s| > 0 && forall i :: 0 <= i < |s| ==> s[i] == '0' || s[i] == '1'
  }

  /** The bits written by a '0'/'1' string ('1' is true, anything else false). */
  function FromString(s: string): (b: Bits)
    ensures |b| == |s|
    ensures forall i :: 0 <= i < |s| ==> (b[i] <==> s[i] == '1')
  {
    seq(|s|, i requires 0 <= i < |s| => s[i] == '1')
  }

  function Zeros(n: nat): (z: Bits)
    ensures |z| == n && forall i :: 0 <= i < n ==> !z[i]
  {
    seq(n, i => false)
  }

  /** The number of 1s, as `split('').filter(bit => bit === '1').length`. */
  function Ones(s: Bits): nat {
    if s == [] then 0 else Ones(s[..|s| - 1]) + (if s[|s| - 1] then 1 else 0)
  }

  lemma {:induction false} OnesBound(s: Bits)
    ensures Ones(s) <= |s|
    ensures Ones(s) == 0 <==> forall i :: 0 <= i < |s| ==> !s[i]
  {
    if s != [] {
      OnesBound(s[..|s| - 1]);
      assert forall i :: 0 <= i < |s| - 1 ==> s[..|s| - 1][i] == s[i];
    }
  }

  lemma {:induction false} OnesAppend(s: Bits, t: Bits)
    ensures Ones(s + t) == Ones(s) + Ones(t)
  {
    if t != [] {
      assert (s + t)[..|s + t| - 1] == s + t[..|t| - 1];
      OnesAppend(s, t[..|t| - 1]);
    } else {
      assert s + t == s;
    }
  }

  /** The bit string with the bit at index p inverted (`bit === '0' ? '1' : '0'`). */
  function Flip(s: Bits, p: nat): (r: Bits)
    requires p < |s|
    ensures |r| == |s| && r[p] == !s[p]
  {
    s[p := !s[p]]
  }

  /** One flip changes the number of 1s by exactly one. */
  lemma {:induction false} OnesFlip(s: Bits, p: nat)
    requires p < |s|
    ensures Ones(Flip(s, p)) == if s[p] then Ones(s) - 1 else Ones(s) + 1
  {
    var f := Flip(s, p);
    assert s == s[..p] + [s[p]] + s[p + 1..];
    assert f == s[..p] + [!s[p]] + s[p + 1..];
    OnesAppend(s[..p] + [s[p]], s[p + 1..]);
    OnesAppend(s[..p], [s[p]]);
    OnesAppend(s[..p] + [!s[p]], s[p + 1..]);
    OnesAppend(s[..p], [!s[p]]);
    assert Ones([s[p]]) == if s[p] then 1 else 0 by { assert [s[p]][..0] == []; }
    assert Ones([!s[p]]) == if s[p] then 0 else 1 by { assert [!s[p]][..0] == []; }
  }

  /** JavaScript's `s.slice(-k)` for k > 0: the last k bits, or all of s when it is shorter. */
  function Last(s: Bits, k: nat): (r: Bits)
    ensures |r| == if |s| >= k then k else |s|
    ensures s == AllButLast(s, k) + r
  {
    if |s| >= k then s[|s| - k..] else s
  }

  /** JavaScript's `s.slice(0, -k)` for k > 0: all but the last k bits, empty when s is shorter. */
  function AllButLast(s: Bits, k: nat): (r: Bits)
    ensures |r| == if |s| >= k then |s| - k else 0
    ensures forall i :: 0 <= i < |r| ==> r[i] == s[i]
  {
    if |s| >= k then s[..|s| - k] else []
  }

  /** Slicing a word back apart at the width of a suffix of it. */
  lemma {:induction false} SplitAppended(a: Bits, b: Bits)
    ensures AllButLast(a + b, |b|) == a && Last(a + b, |b|) == b
  {
    assert (a + b)[..|a|] == a;
    assert (a + b)[|a|..] == b;
  }

  function Pow2(k: nat): (p: nat)
    ensures p >= 1
  {
    if k == 0 then 1 else 2 * Pow2(k - 1)
  }

  lemma {:induction false} Pow2Monotone(j: nat, k: nat)
    requires j <= k
    ensures Pow2(j) <= Pow2(k)
    ensures j < k ==> 2 * Pow2(j) <= Pow2(k)
  {
    if j < k {
      Pow2Monotone(j, k - 1);
    }
  }

  /** Bit i of x, i.e. `(x & (1 << i)) !== 0`. */
  predicate Bit(x: nat, i: nat) {
    if i == 0 then x % 2 == 1 else Bit(x / 2, i - 1)
  }

  /** No bit at or above i is set in a number below 2^i. */
  lemma {:induction false} BitBelow(x: nat, i: nat)
    requires x < Pow2(i)
    ensures !Bit(x, i)
  {
    if i > 0 {
      BitBelow(x / 2, i - 1);
    }
  }

  /** The only bit of 2^k is bit k. */
  lemma {:induction false} BitOfPow2(k: nat, i: nat)
    ensures Bit(Pow2(k), i) <==> i == k
  {
    if k > 0 && i > 0 {
      assert Pow2(k) / 2 == Pow2(k - 1);
      BitOfPow2(k - 1, i - 1);
    } else if k > 0 {
      assert Pow2(k) % 2 == 0;
    } else if i > 0 {
      assert Pow2(k) / 2 == 0;
      BitBelow(0, i - 1);
    }
  }

  /** Power-of-two test of the loop in addHammingCode, `(i & (i - 1)) === 0` for i >= 1. */
  predicate IsPow2(x: nat) {
    x == 1 || (x > 1 && x % 2 == 0 && IsPow2(x / 2))
  }

  /** `Math.log2(x) | 0` for x >= 1, computed exactly on integers. */
  function FloorLog2(x: nat): (k: nat)
    requires x >= 1
    ensures Pow2(k) <= x < 2 * Pow2(k)
  {
    if x == 1 then 0 else 1 + FloorLog2(x / 2)
  }

  /** The least k with 2^k >= x. */
  function CeilLog2(x: nat): (k: nat)
    ensures x <= Pow2(k)
    ensures k > 0 ==> Pow2(k - 1) < x
  {
    if x <= 1 then 0 else 1 + CeilLog2((x + 1) / 2)
  }

  /** A k with x <= 2^k and 2^(k-1) < x is the ceiling logarithm. */
  lemma {:induction false} CeilLog2Unique(x: nat, k: nat)
    requires x <= Pow2(k) && (k > 0 ==> Pow2(k - 1) < x)
    ensures CeilLog2(x) == k
  {
    var c := CeilLog2(x);
    if c < k {
      Pow2Monotone(c, k - 1);
    } else if k < c {
      Pow2Monotone(k, c - 1);
    }
  }

  /** A k with 2^k <= x < 2^(k+1) is the floor logarithm. */
  lemma {:induction false} FloorLog2Unique(x: nat, k: nat)
    requires Pow2(k) <= x < 2 * Pow2(k)
    ensures FloorLog2(x) == k
  {
    var f := FloorLog2(x);
    if f < k {
      Pow2Monotone(f, k);
    } else if k < f {
      Pow2Monotone(k, f);
    }
  }

  /** Going down from x to x - 1 lowers the floor logarithm exactly when x is a power of two. */
  lemma {:induction false} FloorLog2Pred(x: nat)
    requires x > 1
    ensures FloorLog2(x - 1) == if IsPow2(x) then FloorLog2(x) - 1 else FloorLog2(x)
  {
    var k := FloorLog2(x);
    IsPow2Exact(x);
    if IsPow2(x) {
      assert k >= 1 && Pow2(k) == 2 * Pow2(k - 1);
      FloorLog2Unique(x - 1, k - 1);
    } else {
      FloorLog2Unique(x - 1, k);
    }
  }

  lemma {:induction false} IsPow2OfPow2(k: nat)
    ensures IsPow2(Pow2(k))
  {
    if k > 0 {
      assert Pow2(k) / 2 == Pow2(k - 1);
      IsPow2OfPow2(k - 1);
    }
  }

  /** A power of two according to the loop test is 2 to its floor logarithm. */
  lemma {:induction false} IsPow2Exact(x: nat)
    requires x >= 1
    ensures IsPow2(x) <==> x == Pow2(FloorLog2(x))
  {
    if x > 1 {
      IsPow2Exact(x / 2);
      if x == Pow2(FloorLog2(x)) {
        IsPow2OfPow2(FloorLog2(x));
      }
    }
  }

  /** Sum over i < k of (bit i of x) * 2^i: the value a syndrome takes when check i
      fails exactly for the bits i set in x. */
  function LowBits(x: nat, k: nat): nat {
    if k == 0 then 0 else LowBits(x, k - 1) + (if Bit(x, k - 1) then Pow2(k - 1) else 0)
  }

  lemma {:induction false} LowBitsShift(x: nat, k: nat)
    ensures LowBits(x, k + 1) == x % 2 + 2 * LowBits(x / 2, k)
  {
    if k > 0 {
      LowBitsShift(x, k - 1);
    }
  }

  /** The low k bits of a number below 2^k are the number itself. */
  lemma {:induction false} LowBitsOfSmall(x: nat, k: nat)
    requires x < Pow2(k)
    ensures LowBits(x, k) == x
  {
    if k > 0 {
      LowBitsShift(x, k - 1);
      LowBitsOfSmall(x / 2, k - 1);
    }
  }

  /** The low bits of 2^j below bit j are all zero. */
  lemma {:induction false} LowBitsOfPow2(j: nat, k: nat)
    requires k <= j
    ensures LowBits(Pow2(j), k) == 0
  {
    if k > 0 {
      LowBitsOfPow2(j, k - 1);
      BitOfPow2(j, k - 1);
    }
  }

  /** Below bit k, a number with top bit k is the number less 2^k. */
  lemma {:induction false} LowBitsBelowTop(x: nat, k: nat)
    requires Pow2(k) <= x < 2 * Pow2(k)
    ensures LowBits(x, k) == x - Pow2(k)
  {
    if k > 0 {
      LowBitsShift(x, k - 1);
      assert Pow2(k) == 2 * Pow2(k - 1);
      LowBitsBelowTop(x / 2, k - 1);
    }
  }

  /** A sum of distinct powers 2^i with i < k stays below 2^k. */
  lemma {:induction false} LowBitsBound(x: nat, k: nat)
    ensures LowBits(x, k) < Pow2(k)
  {
    if k > 0 {
      LowBitsBound(x, k - 1);
    }
  }
}
