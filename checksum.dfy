/** 8-bit one's-complement checksum over left-zero-padded 8-bit blocks
    (calculateChecksum, addChecksum and the 'checksum' branch of detectErrors). */
module ChecksumCode {
  import opened Bits

  /** `parseInt(chunk, 2)`: the value of a bit string, most significant bit first. */
  function Value(b: Bits): nat {
    if b == [] then 0 else 2 * Value(b[..|b| - 1]) + (if b[|b| - 1] then 1 else 0)
  }

  lemma {:induction false} ValueBound(b: Bits)
    ensures Value(b) < Pow2(|b|)
  {
    if b != [] {
      ValueBound(b[..|b| - 1]);
    }
  }

  /** `v.toString(2).padStart(w, '0')` for v < 2^w: v in exactly w bits, most significant first. */
  function ToBinary(v: nat, w: nat): (b: Bits)
    ensures |b| == w
  {
    if w == 0 then [] else ToBinary(v / 2, w - 1) + [v % 2 == 1]
  }

  /** Reading back what ToBinary wrote gives the number again. */
  lemma {:induction false} ValueOfToBinary(v: nat, w: nat)
    requires v < Pow2(w)
    ensures Value(ToBinary(v, w)) == v
  {
    if w > 0 {
      ValueOfToBinary(v / 2, w - 1);
      var b := ToBinary(v, w);
      assert b[..|b| - 1] == ToBinary(v / 2, w - 1);
    }
  }

  /** Flipping bit q of b moves its value by 2^(|b|-1-q), down if the bit was 1, up if it was 0. */
  lemma {:induction false} ValueFlip(b: Bits, q: nat)
    requires q < |b|
    ensures Value(Flip(b, q)) == if b[q] then Value(b) - Pow2(|b| - 1 - q) else Value(b) + Pow2(|b| - 1 - q)
  {
    var f := Flip(b, q);
    var n := |b| - 1;
    if q == n {
      assert f[..n] == b[..n];
    } else {
      assert f[..n] == Flip(b[..n], q);
      ValueFlip(b[..n], q);
    }
  }

  /** How many zeros calculateChecksum puts in front of an n-bit message: none when n
      is a multiple of 8, otherwise up to `Math.ceil(n / 8) * 8` bits. */
  function PadLength(n: nat): (z: nat)
    ensures z < 8 && (n + z) % 8 == 0
  {
    if n % 8 == 0 then 0 else (n + 7) / 8 * 8 - n
  }

  /** The left-zero-padded message whose 8-bit blocks are summed. */
  function PadToBlocks(m: Bits): (p: Bits)
    ensures |p| % 8 == 0 && |p| == |m| + PadLength(|m|)
  {
    Zeros(PadLength(|m|)) + m
  }

  /** Flipping a message bit flips the same bit of the padded message. */
  lemma {:induction false} PadFlip(m: Bits, p: nat)
    requires p < |m|
    ensures PadToBlocks(m)[PadLength(|m|) + p] == m[p]
    ensures PadToBlocks(Flip(m, p)) == Flip(PadToBlocks(m), PadLength(|m|) + p)
  {
  }

  /** The 8-bit chunks `message.slice(i, i + 8)` for i = 0, 8, 16, ... of a
      block-aligned message. */
  function Chunks(s: Bits): (cs: seq<Bits>)
    requires |s| % 8 == 0
    ensures |cs| == |s| / 8
  {
    if s == [] then [] else [s[..8]] + Chunks(s[8..])
  }

  /** The sum of `parseInt(chunk, 2)` over the chunks. */
  function SumValues(cs: seq<Bits>): nat {
    if cs == [] then 0 else Value(cs[0]) + SumValues(cs[1..])
  }

  /** The sum of the 8-bit blocks of the padded message, before reduction mod 256. */
  function BlockSum(m: Bits): nat {
    SumValues(Chunks(PadToBlocks(m)))
  }

  /** calculateChecksum: the one's complement of the block sum mod 256, as 8 bits. */
  function Checksum(m: Bits): (c: Bits)
    ensures |c| == 8
  {
    ToBinary(255 - BlockSum(m) % 256, 8)
  }

  /** The checksum field holds the one's complement of the block sum: added to the
      block sum it makes all eight bits 1 (modulo 256). */
  lemma {:induction false} ChecksumComplements(m: Bits)
    ensures Value(Checksum(m)) == 255 - BlockSum(m) % 256
    ensures (BlockSum(m) + Value(Checksum(m))) % 256 == 255
  {
    var r := BlockSum(m) % 256;
    assert Pow2(8) == 256;
    ValueOfToBinary(255 - r, 8);
    assert BlockSum(m) == 256 * (BlockSum(m) / 256) + r;
  }

  /** addChecksum: the unpadded message followed by its 8-bit checksum. */
  function AddChecksum(m: Bits): (r: Bits)
    ensures |r| == |m| + 8
    ensures AllButLast(r, 8) == m && Last(r, 8) == Checksum(m)
  {
    SplitAppended(m, Checksum(m));
    m + Checksum(m)
  }

  /** The checksum branch of detectErrors: the last 8 bits (`slice(-8)`) against the
      checksum recomputed over the rest (`slice(0, -8)`). */
  function ChecksumDetect(t: Bits): bool {
    Last(t, 8) != Checksum(AllButLast(t, 8))
  }

  /** Cutting one more block off the end of an aligned prefix adds one chunk. */
  lemma {:induction false} ChunksSnoc(s: Bits, b: Bits)
    requires |s| % 8 == 0 && |b| == 8
    ensures Chunks(s + b) == Chunks(s) + [b]
  {
    if s == [] {
      assert [] + b == b && b[..8] == b && b[8..] == [];
    } else {
      assert (s + b)[..8] == s[..8];
      assert (s + b)[8..] == s[8..] + b;
      ChunksSnoc(s[8..], b);
    }
  }

  lemma {:induction false} SumValuesSnoc(cs: seq<Bits>, c: Bits)
    ensures SumValues(cs + [c]) == SumValues(cs) + Value(c)
  {
    if cs == [] {
      assert [] + [c] == [c];
    } else {
      assert (cs + [c])[1..] == cs[1..] + [c];
      SumValuesSnoc(cs[1..], c);
    }
  }

  /** One round of the chunking loop. */
  lemma {:induction false} ChunkRound(msg: Bits, i: nat)
    requires i % 8 == 0 && i + 8 <= |msg|
    ensures Chunks(msg[..i + 8]) == Chunks(msg[..i]) + [msg[i..i + 8]]
  {
    assert msg[..i + 8] == msg[..i] + msg[i..i + 8];
    ChunksSnoc(msg[..i], msg[i..i + 8]);
  }

  /** One round of the summing loop. */
  lemma {:induction false} SumRound(chunks: seq<Bits>, k: nat)
    requires k < |chunks|
    ensures SumValues(chunks[..k + 1]) == SumValues(chunks[..k]) + Value(chunks[k])
  {
    assert chunks[..k + 1] == chunks[..k] + [chunks[k]];
    SumValuesSnoc(chunks[..k], chunks[k]);
  }

  /** calculateChecksum as written: pad, cut into chunks, sum, complement. */
  method CalculateChecksum(message: Bits) returns (checksum: Bits)
    ensures checksum == Checksum(message)
  {
    var msg := message;
    if |msg| % 8 != 0 {
      msg := Zeros((|msg| + 7) / 8 * 8 - |msg|) + msg;
    }
    assert msg == PadToBlocks(message);
    var chunks: seq<Bits> := [];
    var i := 0;
    while i < |msg|
      invariant i % 8 == 0 && i <= |msg|
      invariant chunks == Chunks(msg[..i])
    {
      ChunkRound(msg, i);
      chunks := chunks + [msg[i..i + 8]];
      i := i + 8;
    }
    assert msg[..i] == msg;
    assert chunks == Chunks(PadToBlocks(message));
    var sum := 0;
    var k := 0;
    while k < |chunks|
      invariant k <= |chunks|
      invariant sum == SumValues(chunks[..k])
    {
      SumRound(chunks, k);
      sum := sum + Value(chunks[k]);
      k := k + 1;
    }
    assert chunks[..k] == chunks;
    assert sum == BlockSum(message);
    sum := sum % 256;
    checksum := ToBinary(255 - sum, 8);
  }

  /** Flipping one bit of a block-aligned word moves the sum of its blocks by a
      power of two between 1 and 128. */
  lemma {:induction false} BlockSumFlip(s: Bits, q: nat)
    requires |s| % 8 == 0 && q < |s|
    ensures SumValues(Chunks(Flip(s, q))) ==
      if s[q] then SumValues(Chunks(s)) - Pow2(7 - q % 8) else SumValues(Chunks(s)) + Pow2(7 - q % 8)
  {
    var f := Flip(s, q);
    SumFront(s);
    SumFront(f);
    if q < 8 {
      FlipInHead(s, q);
      ValueFlip(s[..8], q);
    } else {
      FlipInRest(s, q);
      BlockSumFlip(s[8..], q - 8);
    }
  }

  /** The block sum is the first block plus the sum of the rest. */
  lemma {:induction false} SumFront(s: Bits)
    requires |s| % 8 == 0 && s != []
    ensures SumValues(Chunks(s)) == Value(s[..8]) + SumValues(Chunks(s[8..]))
  {
  }

  /** A flip in the first block. */
  lemma {:induction false} FlipInHead(s: Bits, q: nat)
    requires q < 8 <= |s|
    ensures Flip(s, q)[..8] == Flip(s[..8], q) && Flip(s, q)[8..] == s[8..]
    ensures s[..8][q] == s[q] && q % 8 == q
  {
  }

  /** A flip behind the first block. */
  lemma {:induction false} FlipInRest(s: Bits, q: nat)
    requires 8 <= q < |s|
    ensures Flip(s, q)[..8] == s[..8] && Flip(s, q)[8..] == Flip(s[8..], q - 8)
    ensures s[8..][q - 8] == s[q] && (q - 8) % 8 == q % 8
  {
  }

  /** Moving a number by a positive amount below 256 changes it mod 256. */
  lemma {:induction false} ShiftChangesByte(a: nat, d: nat)
    requires 0 < d < 256
    ensures (a + d) % 256 != a % 256
  {
    var k := (a + d) / 256 - a / 256;
    assert d == 256 * k + (a + d) % 256 - a % 256;
  }

  /** Distinct 8-bit values give distinct checksum fields. */
  lemma {:induction false} ToBinaryInjective(u: nat, v: nat)
    requires u < 256 && v < 256 && u != v
    ensures ToBinary(u, 8) != ToBinary(v, 8)
  {
    ValueOfToBinary(u, 8);
    ValueOfToBinary(v, 8);
  }

  /** One flipped data bit always changes the checksum of the data. */
  lemma {:induction false} ChecksumSensitive(m: Bits, p: nat)
    requires p < |m|
    ensures Checksum(Flip(m, p)) != Checksum(m)
  {
    SumMoves(m, p);
    ToBinaryInjective(255 - BlockSum(m) % 256, 255 - BlockSum(Flip(m, p)) % 256);
  }

  /** One flipped data bit moves the block sum by 1 to 128, which changes it mod 256. */
  lemma {:induction false} SumMoves(m: Bits, p: nat)
    requires p < |m|
    ensures BlockSum(Flip(m, p)) % 256 != BlockSum(m) % 256
  {
    var q := PadLength(|m|) + p;
    PadFlip(m, p);
    BlockSumFlip(PadToBlocks(m), q);
    var i := 7 - q % 8;
    Pow2Monotone(i, 7);
    assert Pow2(7) == 128;
    ByteMoves(BlockSum(m), BlockSum(Flip(m, p)), Pow2(i));
  }

  /** Two numbers a positive distance below 256 apart differ mod 256. */
  lemma {:induction false} ByteMoves(a: nat, b: nat, d: nat)
    requires 0 < d < 256 && (b == a + d || a == b + d)
    ensures a % 256 != b % 256
  {
    if b == a + d {
      ShiftChangesByte(a, d);
    } else {
      ShiftChangesByte(b, d);
    }
  }

  /** A codeword that arrives unchanged is never flagged. */
  lemma {:induction false} ChecksumClean(m: Bits)
    ensures !ChecksumDetect(AddChecksum(m))
  {
  }

  /** Any single flip, in the data or in the checksum field, is flagged. */
  lemma {:induction false} ChecksumSingleFlip(m: Bits, p: nat)
    requires p < |m| + 8
    ensures ChecksumDetect(Flip(AddChecksum(m), p))
  {
    var c := Checksum(m);
    var t := Flip(AddChecksum(m), p);
    if p < |m| {
      assert t == Flip(m, p) + c;
      SplitAppended(Flip(m, p), c);
      ChecksumSensitive(m, p);
    } else {
      assert t == m + Flip(c, p - |m|);
      SplitAppended(m, Flip(c, p - |m|));
    }
  }

  /** Flipping a bit in front of c leaves c alone. */
  lemma {:induction false} FlipInFront(a: Bits, c: Bits, p: nat)
    requires p < |a|
    ensures Flip(a + c, p) == Flip(a, p) + c
  {
  }

  /** Position q and position q + 8 sit at the same place of their blocks. */
  lemma {:induction false} NextBlockPlace(q: nat)
    ensures (q + 8) % 8 == q % 8
  {
  }

  /** Taking 2^i off one block and putting 2^i on the next leaves the block sum alone. */
  lemma {:induction false} CancellingSum(m: Bits, p: nat)
    requires p + 8 < |m| && m[p] && !m[p + 8]
    ensures BlockSum(Flip(Flip(m, p), p + 8)) == BlockSum(m)
  {
    var z := PadLength(|m|);
    var m1 := Flip(m, p);
    PadFlip(m, p);
    PadFlip(m1, p + 8);
    BlockSumFlip(PadToBlocks(m), z + p);
    BlockSumFlip(PadToBlocks(m1), z + p + 8);
    NextBlockPlace(z + p);
  }

  /** The additive sum is blind to some double errors: turning a 1 into a 0 in one
      block and the bit at the same place of the next block from 0 into 1 leaves
      the sum, and so the checksum, unchanged. */
  lemma {:induction false} ChecksumCancellingFlips(m: Bits, p: nat)
    requires p + 8 < |m| && m[p] && !m[p + 8]
    ensures !ChecksumDetect(Flip(Flip(AddChecksum(m), p), p + 8))
  {
    var c := Checksum(m);
    var m2 := Flip(Flip(m, p), p + 8);
    FlipInFront(m, c, p);
    FlipInFront(Flip(m, p), c, p + 8);
    CancellingSum(m, p);
    assert Checksum(m2) == c;
    SplitAppended(m2, c);
  }

  /** The two blocks 10110011 and 01101100 are 179 and 108, which sum to 287. */
  lemma {:induction false} BlockSumExample()
    ensures BlockSum(FromString("1011001101101100")) == 287
  {
    var a := [true, false, true, true, false, false, true, true];
    var b := [false, true, true, false, true, true, false, false];
    var m := FromString("1011001101101100");
    assert m == a + b;
    assert PadToBlocks(m) == m by { assert Zeros(0) == []; }
    ChunksSnoc([], a);
    ChunksSnoc(a, b);
    assert Chunks(m) == [a, b];
    ValueOfToBinary(179, 8);
    ValueOfToBinary(108, 8);
    ToBinaryOf179();
    ToBinaryOf108();
    var last: seq<Bits> := [b];
    var none: seq<Bits> := [];
    assert [a, b][1..] == last;
    assert last[1..] == none;
  }

  /** calculateChecksum keeps only the sum modulo 256, 31 here, so the checksum of
      10110011 01101100 is 255 - 31 = 224, that is 11100000. */
  lemma {:induction false} ChecksumExample()
    ensures AddChecksum(FromString("1011001101101100")) == FromString("101100110110110011100000")
  {
    var m := FromString("1011001101101100");
    var s := BlockSum(m);
    BlockSumExample();
    assert 255 - s % 256 == 224;
    ToBinaryOf224();
    var c := [true, true, true, false, false, false, false, false];
    assert Checksum(m) == c;
    var w := FromString("101100110110110011100000");
    assert w[..16] == m;
    assert w[16..] == c;
    assert w == w[..16] + w[16..];
  }

  lemma {:induction false} ToBinaryOf179()
    ensures ToBinary(179, 8) == [true, false, true, true, false, false, true, true]
  {
    assert ToBinary(1, 1) == [true];
    assert ToBinary(2, 2) == [true, false];
    assert ToBinary(5, 3) == [true, false, true];
    assert ToBinary(11, 4) == [true, false, true, true];
    assert ToBinary(22, 5) == [true, false, true, true, false];
    assert ToBinary(44, 6) == [true, false, true, true, false, false];
    assert ToBinary(89, 7) == [true, false, true, true, false, false, true];
    assert ToBinary(179, 8) == [true, false, true, true, false, false, true, true];
  }

  lemma {:induction false} ToBinaryOf108()
    ensures ToBinary(108, 8) == [false, true, true, false, true, true, false, false]
  {
    assert ToBinary(0, 1) == [false];
    assert ToBinary(1, 2) == [false, true];
    assert ToBinary(3, 3) == [false, true, true];
    assert ToBinary(6, 4) == [false, true, true, false];
    assert ToBinary(13, 5) == [false, true, true, false, true];
    assert ToBinary(27, 6) == [false, true, true, false, true, true];
    assert ToBinary(54, 7) == [false, true, true, false, true, true, false];
    assert ToBinary(108, 8) == [false, true, true, false, true, true, false, false];
  }

  lemma {:induction false} ToBinaryOf224()
    ensures ToBinary(224, 8) == [true, true, true, false, false, false, false, false]
  {
    assert ToBinary(1, 1) == [true];
    assert ToBinary(3, 2) == [true, true];
    assert ToBinary(7, 3) == [true, true, true];
    assert ToBinary(14, 4) == [true, true, true, false];
    assert ToBinary(28, 5) == [true, true, true, false, false];
    assert ToBinary(56, 6) == [true, true, true, false, false, false];
    assert ToBinary(112, 7) == [true, true, true, false, false, false, false];
    assert ToBinary(224, 8) == [true, true, true, false, false, false, false, false];
  }
}
