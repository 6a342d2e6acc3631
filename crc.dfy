/** Cyclic redundancy check with the generator 1011 (x^3 + x + 1): addCRC and the
    'crc' branch of detectErrors. The long division keeps a 3-bit running
    remainder, appends the next bit and subtracts (XORs) the generator whenever
    the leading bit is 1. */
module CrcCode {
  import opened Bits

  /** The generator polynomial '1011', most significant coefficient first. */
  const Generator: Bits := [true, false, true, true]

  /** One division step on a 4-bit window: XOR the generator in when the leading
      bit is 1, otherwise just drop the leading 0; the leading bit is discarded. */
  function Step(w: Bits): (r: Bits)
    requires |w| == 4
    ensures |r| == 3
  {
    if w[0] then [w[1] != Generator[1], w[2] != Generator[2], w[3] != Generator[3]] else w[1..]
  }

  /** The 3-bit remainder after feeding the bits of s, one at a time, into the
      division that starts from remainder R. */
  function Divide(R: Bits, s: Bits): (r: Bits)
    requires |R| == 3
    ensures |r| == 3
  {
    if s == [] then R else Step(Divide(R, s[..|s| - 1]) + [s[|s| - 1]])
  }

  /** Bitwise XOR of two 3-bit words. */
  function Xor3(a: Bits, b: Bits): (r: Bits)
    requires |a| == 3 && |b| == 3
    ensures |r| == 3 && forall k :: 0 <= k < 3 ==> r[k] == (a[k] != b[k])
  {
    [a[0] != b[0], a[1] != b[1], a[2] != b[2]]
  }

  /** The CRC of m: the remainder of m followed by three zeros, divided by the generator. */
  function CrcRemainder(m: Bits): (r: Bits)
    ensures |r| == 3
  {
    Divide(Zeros(3), m + Zeros(3))
  }

  /** addCRC: the message followed by its 3-bit remainder. */
  function CrcEncode(m: Bits): (r: Bits)
    ensures |r| == |m| + 3
    ensures AllButLast(r, 3) == m && Last(r, 3) == CrcRemainder(m)
  {
    SplitAppended(m, CrcRemainder(m));
    m + CrcRemainder(m)
  }

  /** The CRC branch of detectErrors: the CRC recomputed over all but the last three
      bits (`slice(0, -3)`) against the last three (`slice(-3)`). */
  function CrcDetect(t: Bits): bool {
    Last(CrcEncode(AllButLast(t, 3)), 3) != Last(t, 3)
  }

  /** Bringing bit b down next to remainder w: with a leading 1 the generator 1011
      inverts the last two places, with a leading 0 nothing changes. */
  lemma {:induction false} StepSnoc(w: Bits, b: bool)
    requires |w| == 3
    ensures Step(w + [b]) == if w[0] then [w[1], !w[2], !b] else [w[1], w[2], b]
  {
    var v := w + [b];
    assert v[1] == w[1] && v[2] == w[2] && v[3] == b;
    if !w[0] {
      assert v[1..] == [w[1], w[2], b];
    }
  }

  /** Feeding one more bit is one more step. */
  lemma {:induction false} DivideSnoc(R: Bits, s: Bits, b: bool)
    requires |R| == 3
    ensures Divide(R, s + [b]) == Step(Divide(R, s) + [b])
  {
    assert (s + [b])[..|s|] == s;
  }

  /** Dividing a + b is dividing a, then carrying on with b. */
  lemma {:induction false} DivideAppend(R: Bits, a: Bits, b: Bits)
    requires |R| == 3
    ensures Divide(R, a + b) == Divide(Divide(R, a), b)
  {
    if b == [] {
      assert a + b == a;
    } else {
      var b' := b[..|b| - 1];
      assert a + b == (a + b') + [b[|b| - 1]];
      assert b == b' + [b[|b| - 1]];
      DivideSnoc(R, a + b', b[|b| - 1]);
      DivideSnoc(Divide(R, a), b', b[|b| - 1]);
      DivideAppend(R, a, b');
    }
  }

  /** Three bits fed one at a time. */
  lemma {:induction false} DivideThree(R: Bits, x: bool, y: bool, z: bool)
    requires |R| == 3
    ensures Divide(R, [x, y, z]) == Step(Step(Step(R + [x]) + [y]) + [z])
  {
    var a := Step(R + [x]);
    assert Divide(R, [x]) == a by {
      assert [] + [x] == [x];
      DivideSnoc(R, [], x);
    }
    var b := Step(a + [y]);
    assert Divide(R, [x, y]) == b by {
      assert [x] + [y] == [x, y];
      DivideSnoc(R, [x], y);
    }
    assert [x, y] + [z] == [x, y, z];
    DivideSnoc(R, [x, y], z);
  }

  /** Feeding three bits into the division from the zero remainder just loads them. */
  lemma {:induction false} DivideLoads(s: Bits)
    requires |s| == 3
    ensures Divide(Zeros(3), s) == s
  {
    var f := false;
    assert Zeros(3) == [f, f, f];
    assert s == [s[0], s[1], s[2]];
    DivideThree([f, f, f], s[0], s[1], s[2]);
    assert Step([f, f, f] + [s[0]]) == [f, f, s[0]] by { StepSnoc([f, f, f], s[0]); }
    assert Step([f, f, s[0]] + [s[1]]) == [f, s[0], s[1]] by { StepSnoc([f, f, s[0]], s[1]); }
    StepSnoc([f, s[0], s[1]], s[2]);
  }

  /** One step is linear in the remainder: XORing d (whose leading bit is 0) into
      the remainder and bit e into the incoming bit XORs [d1, d2, e] into the result. */
  lemma {:induction false} StepLinear(u: Bits, b: bool, d: Bits, e: bool)
    requires |u| == 3 && |d| == 3 && !d[0]
    ensures Step(Xor3(u, d) + [b != e]) == Xor3(Step(u + [b]), [d[1], d[2], e])
  {
    StepSnoc(u, b);
    StepSnoc(Xor3(u, d), b != e);
  }

  /** Three more bits XOR straight into the remainder: the division is linear in them. */
  lemma {:induction false} DivideLinear(R: Bits, x: bool, y: bool, z: bool)
    requires |R| == 3
    ensures Divide(R, [x, y, z]) == Xor3(Divide(R, [false, false, false]), [x, y, z])
  {
    var f := false;
    DivideThree(R, x, y, z);
    DivideThree(R, f, f, f);
    var Z := [f, f, f];
    assert Xor3(R, Z) == R;
    var a0 := Step(R + [f]);
    StepLinear(R, f, Z, x);
    var a := Step(R + [x]);
    assert a == Xor3(a0, [f, f, x]);
    var b0 := Step(a0 + [f]);
    StepLinear(a0, f, [f, f, x], y);
    var b := Step(a + [y]);
    assert b == Xor3(b0, [f, x, y]);
    StepLinear(b0, f, [f, x, y], z);
  }

  /** The remainder of a + r, for r of three bits, is the CRC of a XOR r. */
  lemma {:induction false} DivideTail(a: Bits, r: Bits)
    requires |r| == 3
    ensures Divide(Zeros(3), a + r) == Xor3(CrcRemainder(a), r)
  {
    var f := false;
    var D := Divide(Zeros(3), a);
    DivideAppend(Zeros(3), a, Zeros(3));
    DivideAppend(Zeros(3), a, r);
    assert Zeros(3) == [f, f, f];
    assert r == [r[0], r[1], r[2]];
    DivideLinear(D, r[0], r[1], r[2]);
  }

  /** The whole codeword divides evenly: its remainder is 000. */
  lemma {:induction false} CrcCodewordDivides(m: Bits)
    ensures Divide(Zeros(3), CrcEncode(m)) == Zeros(3)
  {
    DivideTail(m, CrcRemainder(m));
  }

  /** The XOR of two 3-bit words is 000 exactly when they are equal. */
  lemma {:induction false} Xor3Zero(a: Bits, b: Bits)
    requires |a| == 3 && |b| == 3
    ensures Xor3(a, b) == Zeros(3) <==> a == b
  {
    if a != b {
      var k :| 0 <= k < 3 && a[k] != b[k];
      assert Xor3(a, b)[k];
    } else {
      assert Xor3(a, b) == [false, false, false];
    }
  }

  /** For a word of at least three bits the check flags exactly the words that do
      not divide evenly: the comparison of detectErrors is a divisibility test. */
  lemma {:induction false} CrcDetectIff(t: Bits)
    requires |t| >= 3
    ensures CrcDetect(t) <==> Divide(Zeros(3), t) != Zeros(3)
  {
    var d, r := AllButLast(t, 3), Last(t, 3);
    assert t == d + r;
    DivideTail(d, r);
    Xor3Zero(CrcRemainder(d), r);
  }

  /** A word shorter than three bits is always flagged: the 3-bit CRC of the empty
      data is compared with the whole, shorter word. */
  lemma {:induction false} CrcDetectShort(t: Bits)
    requires |t| < 3
    ensures CrcDetect(t)
  {
  }

  /** A codeword that arrives unchanged is never flagged. */
  lemma {:induction false} CrcClean(m: Bits)
    ensures !CrcDetect(CrcEncode(m))
  {
  }

  /** Different remainders stay different whatever bits follow. */
  lemma {:induction false} DivideInjective(R: Bits, R': Bits, s: Bits)
    requires |R| == 3 && |R'| == 3 && R != R'
    ensures Divide(R, s) != Divide(R', s)
  {
    if s != [] {
      var s', b := s[..|s| - 1], s[|s| - 1];
      assert s == s' + [b];
      DivideInjective(R, R', s');
      var u, v := Divide(R, s'), Divide(R', s');
      DivideSnoc(R, s', b);
      DivideSnoc(R', s', b);
      StepSnoc(u, b);
      StepSnoc(v, b);
      if u[0] == v[0] {
        assert u[1] != v[1] || u[2] != v[2] by {
          assert u == [u[0], u[1], u[2]] && v == [v[0], v[1], v[2]];
        }
      }
    }
  }

  /** Any single flipped bit, in the data or in the CRC field, is flagged. */
  lemma {:induction false} CrcSingleFlip(m: Bits, p: nat)
    requires p < |m| + 3
    ensures CrcDetect(Flip(CrcEncode(m), p))
  {
    var c := CrcEncode(m);
    var t := Flip(c, p);
    var a, b := c[..p], c[p + 1..];
    assert c == (a + [c[p]]) + b;
    assert t == (a + [!c[p]]) + b;
    var D := Divide(Zeros(3), a);
    DivideAppend(Zeros(3), a + [c[p]], b);
    DivideAppend(Zeros(3), a + [!c[p]], b);
    DivideSnoc(Zeros(3), a, c[p]);
    DivideSnoc(Zeros(3), a, !c[p]);
    StepSnoc(D, c[p]);
    StepSnoc(D, !c[p]);
    DivideInjective(Step(D + [c[p]]), Step(D + [!c[p]]), b);
    CrcCodewordDivides(m);
    CrcDetectIff(t);
  }

  /** The division of the worked example: 1101000 leaves 001. */
  lemma {:induction false} CrcRemainderOf1101()
    ensures CrcRemainder([true, true, false, true]) == [false, false, true]
  {
    var z := false;
    var o := true;
    assert [o, o, z, o] + Zeros(3) == [o, o, z] + [o, z, z, z];
    DivideLoads([o, o, z]);
    DivideAppend(Zeros(3), [o, o, z], [o, z, z, z]);
    assert [] + [o] == [o] && [o] + [z] == [o, z] && [o, z] + [z] == [o, z, z] && [o, z, z] + [z] == [o, z, z, z];
    DivideSnoc([o, o, z], [], o);
    StepSnoc([o, o, z], o);
    DivideSnoc([o, o, z], [o], z);
    StepSnoc([o, o, z], z);
    DivideSnoc([o, o, z], [o, z], z);
    StepSnoc([o, o, o], z);
    DivideSnoc([o, o, z], [o, z, z], z);
    StepSnoc([o, z, o], z);
  }

  /** The worked example: 1101 gets the CRC 001. */
  lemma {:induction false} CrcExample()
    ensures CrcEncode(FromString("1101")) == FromString("1101001")
  {
    assert FromString("1101") == [true, true, false, true];
    assert FromString("1101001") == [true, true, false, true] + [false, false, true];
    CrcRemainderOf1101();
  }

  /** addCRC as written: take the first four bits of the zero-extended message as
      the running window and, for each further position, divide one step and bring
      the next bit down. */
  method AddCRC(message: Bits) returns (code: Bits)
    ensures code == CrcEncode(message)
  {
    var messageWithZeros := message + [false, false, false];
    var L := |messageWithZeros|;
    ghost var Z := Zeros(3);
    var remainder := if L >= 4 then messageWithZeros[..4] else messageWithZeros;
    DivideLoads(messageWithZeros[..3]);
    if L >= 4 {
      assert messageWithZeros[..4] == messageWithZeros[..3] + [messageWithZeros[3]];
    } else {
      assert messageWithZeros[..3] == messageWithZeros;
    }
    var i := 4;
    while i <= L
      invariant 4 <= i <= L + 1 || (L == 3 && i == 4)
      invariant i <= L ==> remainder == Divide(Z, messageWithZeros[..i - 1]) + [messageWithZeros[i - 1]]
      invariant i == L + 1 ==> remainder == Divide(Z, messageWithZeros)
      invariant L == 3 ==> remainder == Divide(Z, messageWithZeros)
    {
      var next := if i < L then [messageWithZeros[i]] else [];
      var stepped;
      if remainder[0] {
        stepped := XorGenerator(remainder);
      } else {
        stepped := remainder[1..];
      }
      assert Divide(Z, messageWithZeros[..i]) == stepped by {
        assert messageWithZeros[..i] == messageWithZeros[..i - 1] + [messageWithZeros[i - 1]];
        DivideSnoc(Z, messageWithZeros[..i - 1], messageWithZeros[i - 1]);
      }
      remainder := stepped + next;
      if i == L {
        assert messageWithZeros[..i] == messageWithZeros;
      }
      i := i + 1;
    }
    assert messageWithZeros == message + Zeros(3);
    code := message + remainder;
  }

  /** The inner loop of addCRC: XOR the window with the generator, place by place
      after the leading 1, which drops out. */
  method XorGenerator(remainder: Bits) returns (xorResult: Bits)
    requires |remainder| == 4 && remainder[0]
    ensures xorResult == Step(remainder)
  {
    xorResult := [];
    var j := 1;
    while j < |Generator|
      invariant 1 <= j <= 4 && |xorResult| == j - 1
      invariant forall k :: 0 <= k < j - 1 ==> xorResult[k] == (remainder[k + 1] != Generator[k + 1])
    {
      xorResult := xorResult + [remainder[j] != Generator[j]];
      j := j + 1;
    }
    assert xorResult == [xorResult[0], xorResult[1], xorResult[2]];
  }
}
