/** Hamming code with parity bits at the power-of-two positions (addHammingCode
    and the 'hamming' branch of detectErrors). Positions are 1-indexed in the
    comments and in Bit/IsPow2 arguments, 0-indexed in sequences. */
module HammingCode {
  import opened Bits

  lemma {:induction false} Pow2AtLeastDouble(r: nat)
    requires r >= 1
    ensures Pow2(r) >= 2 * r
  {
    if r > 1 {
      Pow2AtLeastDouble(r - 1);
    }
  }

  /** The search of the `while ((1 << r) < m + r + 1) r++` loop, resumed at r. */
  function CountFrom(m: nat, r: nat): nat
    decreases m + 1 - r
  {
    if Pow2(r) >= m + r + 1 then r
    else
      assert r < m + 1 by {
        if r >= 1 {
          Pow2AtLeastDouble(r);
        }
      }
      CountFrom(m, r + 1)
  }

  /** Resumed at a candidate whose predecessor failed the test, the search stops at
      the first candidate that passes it. */
  lemma {:induction false} CountFromBounds(m: nat, r: nat)
    requires r > 0 ==> Pow2(r - 1) < m + r
    ensures var k := CountFrom(m, r); r <= k && Pow2(k) >= m + k + 1 && (k > 0 ==> Pow2(k - 1) < m + k)
    decreases m + 1 - r
  {
    if Pow2(r) < m + r + 1 {
      if r >= 1 {
        Pow2AtLeastDouble(r);
      }
      CountFromBounds(m, r + 1);
    }
  }

  /** The number of parity bits for an m-bit message. */
  function ParityBitCount(m: nat): nat {
    CountFrom(m, 0)
  }

  /** The length of the codeword of an m-bit message. */
  function CodeLength(m: nat): nat {
    m + ParityBitCount(m)
  }

  /** The parity bit count is the least r with 2^r >= m + r + 1 (r - 1 fails the test,
      which is monotone in r), so the codeword length n sits just below 2^r:
      2^(r-1) < n < 2^r. */
  lemma {:induction false} CodeLengthBounds(m: nat)
    ensures var r, n := ParityBitCount(m), CodeLength(m);
      Pow2(r) >= m + r + 1 && (r > 0 ==> Pow2(r - 1) < m + r)
      && n < Pow2(r) && (r > 0 ==> Pow2(r - 1) < n)
  {
    CountFromBounds(m, 0);
  }

  lemma {:induction false} Pow2Gap(j: nat, k: nat)
    requires j <= k
    ensures Pow2(k) - Pow2(j) >= k - j
  {
    if j < k {
      Pow2Gap(j, k - 1);
    }
  }

  /** No smaller count passes the test of the loop: r is the least with 2^r >= m + r + 1. */
  lemma {:induction false} ParityBitCountLeast(m: nat, j: nat)
    requires j < ParityBitCount(m)
    ensures Pow2(j) < m + j + 1
  {
    CodeLengthBounds(m);
    Pow2Gap(j, ParityBitCount(m) - 1);
  }

  /** The number of data (non-power-of-two) positions among 1..p. */
  function DataCount(p: nat): nat {
    if p == 0 then 0 else DataCount(p - 1) + (if IsPow2(p) then 0 else 1)
  }

  /** Among 1..p exactly FloorLog2(p) + 1 positions are powers of two. */
  lemma {:induction false} DataCountExact(p: nat)
    requires p >= 1
    ensures DataCount(p) == p - 1 - FloorLog2(p)
  {
    if p > 1 {
      DataCountExact(p - 1);
      FloorLog2Pred(p);
    }
  }

  lemma {:induction false} DataCountMonotone(a: nat, b: nat)
    requires a <= b
    ensures DataCount(a) <= DataCount(b)
  {
    if a < b {
      DataCountMonotone(a, b - 1);
    }
  }

  /** The data positions of the codeword are exactly enough for the message. */
  lemma {:induction false} DataCountOfCode(m: nat)
    ensures DataCount(CodeLength(m)) == m
  {
    var r, n := ParityBitCount(m), CodeLength(m);
    if n > 0 {
      CodeLengthBounds(m);
      FloorLog2Unique(n, r - 1);
      DataCountExact(n);
    }
  }

  /** The 1-indexed position p of a codeword holds a parity bit exactly when p is 2^k with k < r. */
  lemma {:induction false} ParityPositions(m: nat, p: nat)
    requires 1 <= p <= CodeLength(m)
    ensures IsPow2(p) ==> FloorLog2(p) < ParityBitCount(m) && p == Pow2(FloorLog2(p))
  {
    var r := ParityBitCount(m);
    IsPow2Exact(p);
    CodeLengthBounds(m);
    if FloorLog2(p) >= r {
      Pow2Monotone(r, FloorLog2(p));
    }
  }

  /** Slot q (0-indexed) of the codeword once the data bits are placed and before any
      parity bit is computed: the next message bit at a data position, the
      placeholder (which never reads as '1') at a parity position. */
  function LayoutBit(msg: Bits, q: nat): bool
    requires q < CodeLength(|msg|)
  {
    if IsPow2(q + 1) then false
    else
      assert 1 <= DataCount(q + 1) <= |msg| by {
        DataCountMonotone(q + 1, CodeLength(|msg|));
        DataCountOfCode(|msg|);
      }
      msg[DataCount(q + 1) - 1]
  }

  function Layout(msg: Bits): (l: Bits)
    ensures |l| == CodeLength(|msg|)
  {
    seq(CodeLength(|msg|), q requires 0 <= q < CodeLength(|msg|) => LayoutBit(msg, q))
  }

  /** Parity check i over a word: the XOR of the bits at the positions whose bit i is set. */
  function Coverage(w: Bits, i: nat): bool {
    if w == [] then false else Coverage(w[..|w| - 1], i) != (Bit(|w|, i) && w[|w| - 1])
  }

  /** Flipping the bit at 0-indexed p toggles check i exactly when bit i of p + 1 is set. */
  lemma {:induction false} CoverageFlip(w: Bits, p: nat, i: nat)
    requires p < |w|
    ensures Coverage(Flip(w, p), i) == (Coverage(w, i) != Bit(p + 1, i))
  {
    var n := |w| - 1;
    var f := Flip(w, p);
    if p == n {
      assert f[..n] == w[..n];
    } else {
      assert f[..n] == Flip(w[..n], p);
      CoverageFlip(w[..n], p, i);
    }
  }

  /** No check fails on an all-zero word. */
  lemma {:induction false} CoverageZeros(n: nat, i: nat)
    ensures !Coverage(Zeros(n), i)
  {
    if n > 0 {
      assert Zeros(n)[..n - 1] == Zeros(n - 1);
      CoverageZeros(n - 1, i);
    }
  }

  /** Check i only looks at the positions whose bit i is set. */
  lemma {:induction false} CoverageAgree(u: Bits, v: Bits, i: nat)
    requires |u| == |v|
    requires forall j :: 0 <= j < |u| && Bit(j + 1, i) ==> u[j] == v[j]
    ensures Coverage(u, i) == Coverage(v, i)
  {
    if u != [] {
      var n := |u| - 1;
      CoverageAgree(u[..n], v[..n], i);
    }
  }

  /** A word shorter than 2^i has no position with bit i set. */
  lemma {:induction false} CoverageShort(w: Bits, i: nat)
    requires |w| < Pow2(i)
    ensures !Coverage(w, i)
  {
    if w != [] {
      BitBelow(|w|, i);
      CoverageShort(w[..|w| - 1], i);
    }
  }

  /** Slot q (0-indexed) is one of the parity slots 2^k - 1 with k < i. */
  predicate FilledSlot(q: nat, i: nat) {
    IsPow2(q + 1) && FloorLog2(q + 1) < i
  }

  /** The parity loop of addHammingCode after its first i rounds: round k sets slot
      2^k - 1 to check k over the word as it stands. */
  function FillParity(l: Bits, i: nat): (w: Bits)
    ensures |w| == |l|
  {
    if i == 0 then l
    else
      var w := FillParity(l, i - 1);
      var pos := Pow2(i - 1) - 1;
      if pos < |w| then w[pos := Coverage(w, i - 1)] else w
  }

  /** One more parity round on a word whose parity slot for it lies inside the word. */
  lemma {:induction false} FillParityStep(l: Bits, i: nat, w: Bits)
    requires w == FillParity(l, i) && Pow2(i) - 1 < |l|
    ensures FillParity(l, i + 1) == w[Pow2(i) - 1 := Coverage(w, i)]
  {
  }

  /** addHammingCode: the data bits placed in the layout, then the r parity rounds. */
  function HammingEncode(msg: Bits): (c: Bits)
    ensures |c| == |msg| + ParityBitCount(|msg|)
  {
    FillParity(Layout(msg), ParityBitCount(|msg|))
  }

  /** Slot 2^k - 1 is the parity slot of check k. */
  lemma {:induction false} SlotOfPow2(k: nat)
    ensures IsPow2(Pow2(k)) && FloorLog2(Pow2(k)) == k
  {
    IsPow2OfPow2(k);
    FloorLog2Unique(Pow2(k), k);
  }

  /** The parity rounds leave every slot other than the parity slots filled so far alone. */
  lemma {:induction false} FillParityKeeps(l: Bits, i: nat, q: nat)
    requires q < |l| && !FilledSlot(q, i)
    ensures FillParity(l, i)[q] == l[q]
  {
    if i > 0 {
      SlotOfPow2(i - 1);
      FillParityKeeps(l, i - 1, q);
    }
  }

  /** Check k with k >= i reads no slot filled in the first i rounds. */
  lemma {:induction false} FillParityCoverage(l: Bits, i: nat, k: nat)
    requires i <= k
    ensures Coverage(FillParity(l, i), k) == Coverage(l, k)
  {
    forall j | 0 <= j < |l| && Bit(j + 1, k)
      ensures FillParity(l, i)[j] == l[j]
    {
      if FilledSlot(j, i) {
        IsPow2Exact(j + 1);
        BitOfPow2(FloorLog2(j + 1), k);
      }
      FillParityKeeps(l, i, j);
    }
    CoverageAgree(FillParity(l, i), l, k);
  }

  /** After round k the parity slot of check k holds check k over the layout, and later rounds keep it. */
  lemma {:induction false} FillParitySlot(l: Bits, i: nat, k: nat)
    requires k < i && Pow2(k) - 1 < |l|
    ensures FillParity(l, i)[Pow2(k) - 1] == Coverage(l, k)
  {
    var w := FillParity(l, i - 1);
    if k == i - 1 {
      FillParityStep(l, k, w);
      FillParityCoverage(l, k, k);
    } else {
      FillParitySlot(l, i - 1, k);
      Pow2Monotone(k, i - 1);
      assert FillParity(l, i)[Pow2(k) - 1] == w[Pow2(k) - 1];
    }
  }

  /** The codeword slot by slot: a data slot holds the placed message bit, the
      parity slot 2^k - 1 holds check k over the layout. */
  lemma {:induction false} EncodedBit(msg: Bits, q: nat)
    requires q < |HammingEncode(msg)|
    ensures HammingEncode(msg)[q] == if IsPow2(q + 1) then Coverage(Layout(msg), FloorLog2(q + 1)) else Layout(msg)[q]
  {
    var l, r := Layout(msg), ParityBitCount(|msg|);
    if IsPow2(q + 1) {
      ParityPositions(|msg|, q + 1);
      FillParitySlot(l, r, FloorLog2(q + 1));
    } else {
      FillParityKeeps(l, r, q);
    }
  }

  /** The data positions of the codeword carry the message bits in order: the
      non-power-of-two position p holds message bit DataCount(p) - 1. */
  lemma {:induction false} HammingDataBits(msg: Bits, q: nat)
    requires q < |HammingEncode(msg)| && !IsPow2(q + 1)
    ensures 1 <= DataCount(q + 1) <= |msg|
    ensures HammingEncode(msg)[q] == msg[DataCount(q + 1) - 1]
  {
    DataCountMonotone(q + 1, CodeLength(|msg|));
    DataCountOfCode(|msg|);
    EncodedBit(msg, q);
  }

  /** Putting the value of check i over l at its parity slot 2^i - 1 (a slot l leaves
      clear), while keeping the other bits check i covers, makes check i pass. */
  lemma {:induction false} ParityBitFixesCheck(l: Bits, c: Bits, i: nat)
    requires |c| == |l| && Pow2(i) - 1 < |l| && !l[Pow2(i) - 1]
    requires c[Pow2(i) - 1] == Coverage(l, i)
    requires forall j :: 0 <= j < |l| && Bit(j + 1, i) && j != Pow2(i) - 1 ==> c[j] == l[j]
    ensures !Coverage(c, i)
  {
    var pos := Pow2(i) - 1;
    BitOfPow2(i, i);
    if Coverage(l, i) {
      CoverageFlip(l, pos, i);
      CoverageAgree(c, Flip(l, pos), i);
    } else {
      CoverageAgree(c, l, i);
    }
  }

  /** Check i covers no parity slot of the codeword other than its own. */
  lemma {:induction false} CoveredSlotKept(msg: Bits, i: nat, j: nat)
    requires j < CodeLength(|msg|) && Bit(j + 1, i) && j != Pow2(i) - 1
    ensures HammingEncode(msg)[j] == Layout(msg)[j]
  {
    if IsPow2(j + 1) {
      IsPow2Exact(j + 1);
      BitOfPow2(FloorLog2(j + 1), i);
    }
    FillParityKeeps(Layout(msg), ParityBitCount(|msg|), j);
  }

  /** Every check passes on a codeword: parity bit i makes check i even, whatever the number of checks. */
  lemma {:induction false} HammingCodewordChecks(msg: Bits, i: nat)
    ensures !Coverage(HammingEncode(msg), i)
  {
    var c, l, r := HammingEncode(msg), Layout(msg), ParityBitCount(|msg|);
    if |c| < Pow2(i) {
      CoverageShort(c, i);
    } else {
      CodeLengthBounds(|msg|);
      if r <= i {
        Pow2Monotone(r, i);
      }
      FillParitySlot(l, r, i);
      SlotOfPow2(i);
      forall j | 0 <= j < |l| && Bit(j + 1, i) && j != Pow2(i) - 1
        ensures c[j] == l[j]
      {
        CoveredSlotKept(msg, i, j);
      }
      ParityBitFixesCheck(l, c, i);
    }
  }

  /** The syndrome over the first k checks: 2^i for every failing check i. */
  function Syndrome(w: Bits, k: nat): (s: nat)
    ensures s < Pow2(k)
  {
    if k == 0 then 0 else Syndrome(w, k - 1) + (if Coverage(w, k - 1) then Pow2(k - 1) else 0)
  }

  /** A codeword has syndrome 0 for any number of checks. */
  lemma {:induction false} HammingCleanSyndrome(msg: Bits, k: nat)
    ensures Syndrome(HammingEncode(msg), k) == 0
  {
    if k > 0 {
      HammingCleanSyndrome(msg, k - 1);
      HammingCodewordChecks(msg, k - 1);
    }
  }

  /** With one flip at 0-indexed p, the syndrome over k checks is the low k bits of p + 1. */
  lemma {:induction false} HammingFlipSyndrome(msg: Bits, p: nat, k: nat)
    requires p < |HammingEncode(msg)|
    ensures Syndrome(Flip(HammingEncode(msg), p), k) == LowBits(p + 1, k)
  {
    if k > 0 {
      HammingFlipSyndrome(msg, p, k - 1);
      HammingCodewordChecks(msg, k - 1);
      CoverageFlip(HammingEncode(msg), p, k - 1);
    }
  }

  /** The end of the 'hamming' branch of detectErrors: a non-zero syndrome is an
      error, and the bit at 0-indexed syndrome - 1 is flipped when it lies in the
      word (otherwise the word is left as it is). */
  function CorrectAt(t: Bits, s: nat): (v: Verdict)
    ensures v.detected <==> s != 0
    ensures |v.corrected| == |t|
  {
    if s == 0 then Verdict(false, t)
    else if s - 1 < |t| then Verdict(true, Flip(t, s - 1))
    else Verdict(true, t)
  }

  /** Syndrome decoding of a received word with the given number of checks. */
  function HammingDecode(t: Bits, checks: nat): Verdict {
    CorrectAt(t, Syndrome(t, checks))
  }

  /** A received word with syndrome 0 passes unflagged and unchanged. */
  lemma {:induction false} DecodeSyndromeZero(t: Bits, checks: nat)
    requires Syndrome(t, checks) == 0
    ensures HammingDecode(t, checks) == Verdict(false, t)
  {
  }

  /** A received word whose syndrome points at one of its bits is flagged and that bit is flipped back. */
  lemma {:induction false} DecodeSyndromeAt(t: Bits, checks: nat, p: nat)
    requires p < |t| && Syndrome(t, checks) == p + 1
    ensures HammingDecode(t, checks) == Verdict(true, Flip(t, p))
  {
  }

  /** The number of checks detectErrors uses as written: `Math.log2(len + 1) | 0`. */
  function AsWrittenChecks(len: nat): nat {
    FloorLog2(len + 1)
  }

  /** The number of checks the decoder needs: the least k with 2^k >= len + 1,
      which is the encoder's parity bit count for every codeword length. */
  function CorrectedChecks(len: nat): nat {
    CeilLog2(len + 1)
  }

  /** The corrected check count recovers the encoder's r from the codeword length. */
  lemma {:induction false} CorrectedChecksOfCode(m: nat)
    ensures CorrectedChecks(CodeLength(m)) == ParityBitCount(m)
  {
    CodeLengthBounds(m);
    CeilLog2Unique(CodeLength(m) + 1, ParityBitCount(m));
  }

  /** The codeword of any message passes the check unflagged and unchanged,
      with either number of checks. */
  lemma {:induction false} HammingClean(msg: Bits, checks: nat)
    ensures HammingDecode(HammingEncode(msg), checks) == Verdict(false, HammingEncode(msg))
  {
    HammingCleanSyndrome(msg, checks);
  }

  /** With the corrected check count every single flip is located (syndrome p + 1)
      and undone, so correctedMessage is the codeword that was sent. */
  lemma {:induction false} HammingCorrectsSingleFlip(msg: Bits, p: nat)
    requires p < |HammingEncode(msg)|
    ensures Syndrome(Flip(HammingEncode(msg), p), CorrectedChecks(|HammingEncode(msg)|)) == p + 1
    ensures HammingDecode(Flip(HammingEncode(msg), p), CorrectedChecks(|HammingEncode(msg)|))
         == Verdict(true, HammingEncode(msg))
  {
    var c := HammingEncode(msg);
    var r := ParityBitCount(|msg|);
    CorrectedChecksOfCode(|msg|);
    HammingFlipSyndrome(msg, p, r);
    CodeLengthBounds(|msg|);
    LowBitsOfSmall(p + 1, r);
    DecodeSyndromeAt(Flip(c, p), CorrectedChecks(|c|), p);
    assert Flip(Flip(c, p), p) == c;
  }

  /** The as-written check count equals the encoder's r exactly when the codeword
      length plus one is a power of two (message lengths 1, 4, 11, 26, ...);
      otherwise it is one short. */
  lemma {:induction false} AsWrittenChecksOfCode(m: nat)
    ensures var r, n := ParityBitCount(m), CodeLength(m);
      (AsWrittenChecks(n) == r <==> n + 1 == Pow2(r))
      && (n + 1 != Pow2(r) ==> r >= 1 && AsWrittenChecks(n) == r - 1)
  {
    CodeLengthBounds(m);
    FloorLog2BelowPow2(CodeLength(m) + 1, ParityBitCount(m));
  }

  /** For 2^(r-1) + 1 < x <= 2^r the floor logarithm of x is r when x is 2^r and r - 1 otherwise. */
  lemma {:induction false} FloorLog2BelowPow2(x: nat, r: nat)
    requires 1 <= x <= Pow2(r) && (r > 0 ==> Pow2(r - 1) + 1 < x)
    ensures FloorLog2(x) == r <==> x == Pow2(r)
    ensures x != Pow2(r) ==> r >= 1 && FloorLog2(x) == r - 1
  {
    if x == Pow2(r) {
      FloorLog2Unique(x, r);
    } else {
      assert r >= 1 && Pow2(r) == 2 * Pow2(r - 1);
      FloorLog2Unique(x, r - 1);
    }
  }

  /** For those message lengths the as-written decoder corrects every single flip. */
  lemma {:induction false} AsWrittenCorrectsPerfectLengths(msg: Bits, p: nat)
    requires CodeLength(|msg|) + 1 == Pow2(ParityBitCount(|msg|))
    requires p < |HammingEncode(msg)|
    ensures HammingDecode(Flip(HammingEncode(msg), p), AsWrittenChecks(|HammingEncode(msg)|))
         == Verdict(true, HammingEncode(msg))
  {
    AsWrittenChecksOfCode(|msg|);
    CorrectedChecksOfCode(|msg|);
    HammingCorrectsSingleFlip(msg, p);
  }

  /** For every other length the as-written decoder skips the top check, so a flip
      of the top parity bit (0-indexed 2^(r-1) - 1) gives syndrome 0 and passes unflagged. */
  lemma {:induction false} AsWrittenMissesTopParity(msg: Bits)
    requires CodeLength(|msg|) + 1 != Pow2(ParityBitCount(|msg|))
    ensures var c, r := HammingEncode(msg), ParityBitCount(|msg|);
      r >= 1 && Pow2(r - 1) - 1 < |c|
      && HammingDecode(Flip(c, Pow2(r - 1) - 1), AsWrittenChecks(|c|)) == Verdict(false, Flip(c, Pow2(r - 1) - 1))
  {
    var c, r := HammingEncode(msg), ParityBitCount(|msg|);
    AsWrittenChecksOfCode(|msg|);
    CodeLengthBounds(|msg|);
    TopParityFlipSyndrome(msg, r, Pow2(r - 1) - 1);
    DecodeSyndromeZero(Flip(c, Pow2(r - 1) - 1), r - 1);
  }

  /** A flip of parity bit r - 1 is invisible to the checks below it. */
  lemma {:induction false} TopParityFlipSyndrome(msg: Bits, r: nat, pos: nat)
    requires r >= 1 && pos == Pow2(r - 1) - 1 && pos < |HammingEncode(msg)|
    ensures Syndrome(Flip(HammingEncode(msg), pos), r - 1) == 0
  {
    HammingFlipSyndrome(msg, pos, r - 1);
    LowBitsOfPow2(r - 1, r - 1);
  }

  /** The flip the as-written decoder cannot see in the codeword of an m-bit
      message: when m + r + 1 is not a power of two, a flip of the top parity bit
      (1-indexed position 2^(r-1)). */
  predicate TopParityBlind(m: nat, p: nat) {
    CodeLength(m) + 1 != Pow2(ParityBitCount(m)) && ParityBitCount(m) >= 1 && p + 1 == Pow2(ParityBitCount(m) - 1)
  }

  /** The flips the as-written decoder locates: every flip when m + r + 1 is a
      power of two, and otherwise those below the top parity bit. */
  predicate AsWrittenLocates(m: nat, p: nat) {
    CodeLength(m) + 1 == Pow2(ParityBitCount(m)) || (ParityBitCount(m) >= 1 && p + 1 < Pow2(ParityBitCount(m) - 1))
  }

  /** What the as-written decoder does with one flip at p. It flags the flip unless
      p is the top parity bit of a length it checks short, and it undoes the flip
      exactly when it locates it. A flip above the top parity bit is "corrected"
      at p - 2^(r-1), so two bits then differ from the codeword. */
  lemma {:induction false} AsWrittenSingleFlip(msg: Bits, p: nat)
    requires p < |HammingEncode(msg)|
    ensures var c, r := HammingEncode(msg), ParityBitCount(|msg|);
      var v := HammingDecode(Flip(c, p), AsWrittenChecks(|c|));
      (v.detected <==> !TopParityBlind(|msg|, p))
      && (v.corrected == c <==> AsWrittenLocates(|msg|, p))
      && (TopParityBlind(|msg|, p) ==> v.corrected == Flip(c, p))
      && (!TopParityBlind(|msg|, p) && !AsWrittenLocates(|msg|, p) ==>
            r >= 1 && Pow2(r - 1) <= p && v.corrected == Flip(Flip(c, p), p - Pow2(r - 1)))
  {
    var c := HammingEncode(msg);
    var s := Syndrome(Flip(c, p), AsWrittenChecks(|c|));
    AsWrittenFlipSyndrome(msg, p);
    CorrectAtFlip(c, p, s);
  }

  /** The as-written syndrome of one flip at p: p + 1 where the decoder locates
      it, 0 for the top parity bit it does not check, and p + 1 - 2^(r-1) above it. */
  lemma {:induction false} AsWrittenFlipSyndrome(msg: Bits, p: nat)
    requires p < |HammingEncode(msg)|
    ensures var c, r := HammingEncode(msg), ParityBitCount(|msg|);
      var s := Syndrome(Flip(c, p), AsWrittenChecks(|c|));
      s <= |c|
      && (AsWrittenLocates(|msg|, p) ==> !TopParityBlind(|msg|, p) && s == p + 1)
      && (TopParityBlind(|msg|, p) ==> s == 0)
      && (!TopParityBlind(|msg|, p) && !AsWrittenLocates(|msg|, p) ==>
            r >= 1 && Pow2(r - 1) < p + 1 && s == p + 1 - Pow2(r - 1))
  {
    var r, n := ParityBitCount(|msg|), CodeLength(|msg|);
    var k := AsWrittenChecks(n);
    AsWrittenChecksOfCode(|msg|);
    CodeLengthBounds(|msg|);
    HammingFlipSyndrome(msg, p, k);
    LowBitsOfPosition(p + 1, n, r, k);
  }

  /** The low k bits of a 1-indexed position x of an n-bit codeword with r parity
      bits, where k is r or, when n + 1 is not 2^r, r - 1. */
  lemma {:induction false} LowBitsOfPosition(x: nat, n: nat, r: nat, k: nat)
    requires 1 <= x <= n < Pow2(r) && (r > 0 ==> Pow2(r - 1) < n)
    requires k == if n + 1 == Pow2(r) then r else r - 1
    ensures LowBits(x, k) <= x
    ensures n + 1 == Pow2(r) || (r >= 1 && x < Pow2(r - 1)) ==> LowBits(x, k) == x
    ensures n + 1 != Pow2(r) && r >= 1 && x == Pow2(r - 1) ==> LowBits(x, k) == 0
    ensures n + 1 != Pow2(r) && r >= 1 && x > Pow2(r - 1) ==> LowBits(x, k) == x - Pow2(r - 1)
  {
    if n + 1 == Pow2(r) {
      LowBitsOfSmall(x, r);
    } else {
      assert r >= 1 by { assert Pow2(0) == 1; }
      var top := Pow2(r - 1);
      assert Pow2(r) == 2 * top;
      if x < top {
        LowBitsOfSmall(x, k);
      } else if x == top {
        LowBitsOfPow2(r - 1, k);
      } else {
        LowBitsBelowTop(x, k);
      }
    }
  }

  /** Decoding a word with one flip at p from a syndrome s inside the word: flagged
      iff s is non-zero, and the codeword comes back iff s points at p. */
  lemma {:induction false} CorrectAtFlip(c: Bits, p: nat, s: nat)
    requires p < |c| && s <= |c|
    ensures var v := CorrectAt(Flip(c, p), s);
      (v.detected <==> s != 0) && (s == 0 ==> v.corrected == Flip(c, p))
      && (s != 0 ==> v.corrected == Flip(Flip(c, p), s - 1))
      && (v.corrected == c <==> s == p + 1)
  {
    var t := Flip(c, p);
    assert t[p] != c[p];
    if s != 0 && s != p + 1 {
      assert Flip(t, s - 1)[p] != c[p];
    }
    if s == p + 1 {
      assert Flip(t, p) == c;
    }
  }

  /** The as-written decoder's syndrome never points past the word: the fallback
      branch for an out-of-range position cannot be taken. */
  lemma {:induction false} AsWrittenSyndromeInRange(t: Bits)
    ensures Syndrome(t, AsWrittenChecks(|t|)) <= |t|
  {
  }

  /** The corrected decoder can point past the word on a double error: flips at
      0-indexed 2 and 3 of the 6-bit codeword of 101 give syndrome 7. */
  lemma {:induction false} CorrectedOutOfRangeExample()
    ensures var t := Flip(Flip(HammingEncode([true, false, true]), 2), 3);
      Syndrome(t, CorrectedChecks(|t|)) == 7 && HammingDecode(t, CorrectedChecks(|t|)) == Verdict(true, t)
  {
    var msg := [true, false, true];
    var c := HammingEncode(msg);
    assert ParityBitCount(3) == 3;
    CorrectedChecksOfCode(3);
    HammingFlipSyndrome(msg, 2, 3);
    var t := Flip(Flip(c, 2), 3);
    forall i | i < 3
      ensures Coverage(t, i) == (Bit(3, i) != Bit(4, i))
    {
      CoverageFlip(Flip(c, 2), 3, i);
      CoverageFlip(c, 2, i);
      HammingCodewordChecks(msg, i);
    }
    assert Bit(3, 0) && Bit(3, 1) && !Bit(3, 2);
    assert !Bit(4, 0) && !Bit(4, 1) && Bit(4, 2);
  }

  /** The inner parity loop of addHammingCode and detectErrors: XOR of the bits at
      the positions j + 1 with bit i set, scanning from `start`. Positions below
      2^i have no bit i set, so starting anywhere up to slot 2^i - 1 computes check i. */
  method CheckParity(w: Bits, i: nat, start: nat) returns (parity: bool)
    requires start <= |w| && start <= Pow2(i) - 1
    ensures parity == Coverage(w, i)
  {
    parity := false;
    CoverageShort(w[..start], i);
    var j := start;
    while j < |w|
      invariant start <= j <= |w|
      invariant parity == Coverage(w[..j], i)
    {
      assert w[..j + 1][..j] == w[..j];
      if Bit(j + 1, i) && w[j] {
        parity := !parity;
      }
      j := j + 1;
    }
    assert w[..j] == w;
  }

  /** The parity loop of addHammingCode: r rounds over the word in place, round i
      scanning from slot 2^i - 1 and writing check i there. */
  method FillParityRounds(encoded: array<bool>, r: nat, ghost l: Bits)
    requires encoded[..] == l && (r > 0 ==> Pow2(r - 1) < |l|)
    modifies encoded
    ensures encoded[..] == FillParity(l, r)
  {
    var i := 0;
    while i < r
      invariant 0 <= i <= r
      invariant encoded[..] == FillParity(l, i)
    {
      var parityPosition := Pow2(i) - 1;
      assert parityPosition < encoded.Length by {
        Pow2Monotone(i, r - 1);
      }
      ghost var w := encoded[..];
      var parity := CheckParity(encoded[..], i, parityPosition);
      FillParityStep(l, i, w);
      encoded[parityPosition] := parity;
      assert encoded[..] == w[parityPosition := parity];
      i := i + 1;
    }
  }

  /** The data loop of addHammingCode: a fresh word of m + r placeholders (which never
      compare equal to '1') with the message bits written, in order, to the slots
      whose 1-indexed position is not a power of two. */
  method PlaceDataBits(message: Bits, r: nat) returns (encoded: array<bool>)
    requires r == ParityBitCount(|message|)
    ensures fresh(encoded) && encoded[..] == Layout(message)
  {
    var m := |message|;
    var n := m + r;
    ghost var l := Layout(message);
    encoded := new bool[n](_ => false);
    var dataIndex := 0;
    var i := 1;
    while i < encoded.Length + 1
      invariant 1 <= i <= n + 1
      invariant dataIndex == DataCount(i - 1)
      invariant forall q :: 0 <= q < i - 1 ==> encoded[q] == l[q]
      invariant forall q :: i - 1 <= q < n ==> !encoded[q]
    {
      if !IsPow2(i) {
        DataCountMonotone(i, n);
        DataCountOfCode(m);
        encoded[i - 1] := message[dataIndex];
        dataIndex := dataIndex + 1;
      }
      i := i + 1;
    }
    assert encoded[..] == l;
  }

  /** addHammingCode as written: search r, place the data bits, then fill in
      each parity bit from the bits its check covers. */
  method AddHammingCode(message: Bits) returns (code: Bits)
    ensures code == HammingEncode(message)
  {
    var m := |message|;
    var r := 0;
    while Pow2(r) < m + r + 1
      invariant CountFrom(m, r) == ParityBitCount(m)
      decreases m + 1 - r
    {
      if r >= 1 {
        Pow2AtLeastDouble(r);
      }
      r := r + 1;
    }
    var encoded := PlaceDataBits(message, r);
    CodeLengthBounds(m);
    FillParityRounds(encoded, r, Layout(message));
    code := encoded[..];
  }

  /** The check of detectErrors as written for a given number of checks: the
      syndrome loop over all checks and all positions, then CorrectAt. */
  method HammingCheck(t: Bits, checks: nat) returns (detected: bool, corrected: Bits)
    ensures Verdict(detected, corrected) == HammingDecode(t, checks)
  {
    var syndrome := 0;
    var i := 0;
    while i < checks
      invariant i <= checks
      invariant syndrome == Syndrome(t, i)
    {
      var parity := CheckParity(t, i, 0);
      // `syndrome |= 1 << i`: bit i of syndrome is still clear, so this adds 2^i
      if parity {
        syndrome := syndrome + Pow2(i);
      }
      i := i + 1;
    }
    detected := false;
    corrected := t;
    if syndrome != 0 {
      detected := true;
      var errorPosition := syndrome - 1;
      if errorPosition < |t| {
        corrected := Flip(t, errorPosition);
      }
    }
  }

  /** The layout of 1011: data bits at positions 3, 5, 6 and 7. */
  lemma {:induction false} LayoutOf1011()
    ensures Layout([true, false, true, true]) == [false, false, true, false, false, true, true]
  {
    assert ParityBitCount(4) == 3;
    assert IsPow2(1) && IsPow2(2) && !IsPow2(3) && IsPow2(4) && !IsPow2(5) && !IsPow2(6) && !IsPow2(7);
    assert DataCount(3) == 1 && DataCount(5) == 2 && DataCount(6) == 3 && DataCount(7) == 4;
  }

  /** The layout of 101: data bits at positions 3, 5 and 6. */
  lemma {:induction false} LayoutOf101()
    ensures Layout([true, false, true]) == [false, false, true, false, false, true]
  {
    assert ParityBitCount(3) == 3;
    assert IsPow2(1) && IsPow2(2) && !IsPow2(3) && IsPow2(4) && !IsPow2(5) && !IsPow2(6);
    assert DataCount(3) == 1 && DataCount(5) == 2 && DataCount(6) == 3;
  }

  /** The checks over the layout of 1011, whose 1s sit at positions 3, 6 and 7. */
  lemma {:induction false} CoverageOfLayout1011()
    ensures var l := [false, false, true, false, false, true, true];
      !Coverage(l, 0) && Coverage(l, 1) && !Coverage(l, 2)
  {
    var z := Zeros(7);
    var a, b := Flip(z, 2), Flip(Flip(z, 2), 5);
    assert [false, false, true, false, false, true, true] == Flip(b, 6);
    CoverageZeros(7, 0);
    CoverageZeros(7, 1);
    CoverageZeros(7, 2);
    CoverageFlip(z, 2, 0);
    CoverageFlip(z, 2, 1);
    CoverageFlip(z, 2, 2);
    CoverageFlip(a, 5, 0);
    CoverageFlip(a, 5, 1);
    CoverageFlip(a, 5, 2);
    CoverageFlip(b, 6, 0);
    CoverageFlip(b, 6, 1);
    CoverageFlip(b, 6, 2);
  }

  /** The checks over the layout of 101, whose 1s sit at positions 3 and 6. */
  lemma {:induction false} CoverageOfLayout101()
    ensures var l := [false, false, true, false, false, true];
      Coverage(l, 0) && !Coverage(l, 1) && Coverage(l, 2)
  {
    var z := Zeros(6);
    var a := Flip(z, 2);
    assert [false, false, true, false, false, true] == Flip(a, 5);
    CoverageZeros(6, 0);
    CoverageZeros(6, 1);
    CoverageZeros(6, 2);
    CoverageFlip(z, 2, 0);
    CoverageFlip(z, 2, 1);
    CoverageFlip(z, 2, 2);
    CoverageFlip(a, 5, 0);
    CoverageFlip(a, 5, 1);
    CoverageFlip(a, 5, 2);
  }

  /** The grid of the worked example: 1011 encodes to 0110011. */
  lemma {:induction false} HammingExample()
    ensures HammingEncode(FromString("1011")) == FromString("0110011")
  {
    assert FromString("1011") == [true, false, true, true];
    assert FromString("0110011") == [false, true, true, false, false, true, true];
    var l := [false, false, true, false, false, true, true];
    LayoutOf1011();
    CoverageOfLayout1011();
    assert ParityBitCount(4) == 3;
    assert HammingEncode([true, false, true, true]) == FillParity(l, 3);
    FillParityStep(l, 0, l);
    var w1 := l[0 := false];
    FillParityStep(l, 1, w1);
    FillParityCoverage(l, 1, 1);
    var w2 := w1[1 := true];
    FillParityStep(l, 2, w2);
    FillParityCoverage(l, 2, 2);
  }

  /** The 3-bit message 101 encodes to 101101. */
  lemma {:induction false} HammingExampleShort()
    ensures HammingEncode(FromString("101")) == FromString("101101")
  {
    assert FromString("101") == [true, false, true];
    assert FromString("101101") == [true, false, true, true, false, true];
    var l := [false, false, true, false, false, true];
    LayoutOf101();
    CoverageOfLayout101();
    assert ParityBitCount(3) == 3;
    assert HammingEncode([true, false, true]) == FillParity(l, 3);
    FillParityStep(l, 0, l);
    var w1 := l[0 := true];
    FillParityStep(l, 1, w1);
    FillParityCoverage(l, 1, 1);
    var w2 := w1[1 := false];
    FillParityStep(l, 2, w2);
    FillParityCoverage(l, 2, 2);
  }

  /** The counterexample of the finding: with a flip at 0-indexed 3 (the parity bit
      at position 4) of the codeword 101101, the as-written decoder reports no
      error, while the corrected decoder restores the codeword. */
  lemma {:induction false} AsWrittenCounterexample()
    ensures var c := FromString("101101");
      HammingDecode(Flip(c, 3), AsWrittenChecks(6)) == Verdict(false, Flip(c, 3))
      && HammingDecode(Flip(c, 3), CorrectedChecks(6)) == Verdict(true, c)
  {
    var msg := FromString("101");
    assert |msg| == 3;
    HammingExampleShort();
    assert ParityBitCount(3) == 3;
    assert CodeLength(3) + 1 != Pow2(3);
    assert Pow2(2) - 1 == 3;
    AsWrittenMissesTopParity(msg);
    HammingCorrectsSingleFlip(msg, 3);
  }
}
