/** Triple repetition code: addRepetitionCode and the 'repetition' branch of
    detectErrors, which decodes every group of three bits by majority vote. */
module RepetitionCode {
  import opened Bits

  /** A bit written three times (`bit.repeat(3)`). */
  function Triple(b: bool): (r: Bits)
    ensures |r| == 3 && r[0] == b && r[1] == b && r[2] == b
  {
    [b, b, b]
  }

  /** addRepetitionCode: every message bit repeated three times. */
  function RepetitionEncode(m: Bits): (r: Bits)
    ensures |r| == 3 * |m|
  {
    if m == [] then [] else Triple(m[0]) + RepetitionEncode(m[1..])
  }

  /** The group `t.slice(i, i + 3)` at the front of t: three bits, or fewer at the end. */
  function Group(t: Bits): (g: Bits)
    ensures |g| == if |t| >= 3 then 3 else |t|
  {
    if |t| >= 3 then t[..3] else t
  }

  /** What is left after the front group. */
  function AfterGroup(t: Bits): (r: Bits)
    ensures |r| == |t| - |Group(t)|
  {
    if |t| >= 3 then t[3..] else []
  }

  /** The majority vote `ones >= 2 ? '1' : '0'`. */
  function Majority(g: Bits): bool {
    Ones(g) >= 2
  }

  /** A group is reported when it is not three copies of its majority bit,
      which a short final group never is. */
  predicate BadGroup(g: Bits) {
    g != Triple(Majority(g))
  }

  /** correctedMessage: one majority bit per group. */
  function RepetitionDecode(t: Bits): Bits
    decreases |t|
  {
    if t == [] then [] else [Majority(Group(t))] + RepetitionDecode(AfterGroup(t))
  }

  /** One decoded bit per group: |t| / 3 rounded up. */
  lemma {:induction false} RepetitionDecodeLength(t: Bits)
    ensures |RepetitionDecode(t)| == (|t| + 2) / 3
    decreases |t|
  {
    if t != [] {
      RepetitionDecodeLength(AfterGroup(t));
    }
  }

  /** A word of 3n bits decodes to n bits. */
  lemma {:induction false} RepetitionDecodeLengthExact(t: Bits, n: nat)
    requires |t| == 3 * n
    ensures |RepetitionDecode(t)| == n
  {
    if n > 0 {
      assert AfterGroup(t) == t[3..];
      RepetitionDecodeLengthExact(t[3..], n - 1);
    }
  }

  /** detectedError: some group is not a clean triple. */
  predicate RepetitionDetect(t: Bits)
    decreases |t|
  {
    t != [] && (BadGroup(Group(t)) || RepetitionDetect(AfterGroup(t)))
  }

  /** Bit k of the codeword is message bit k / 3. */
  lemma {:induction false} RepetitionEncodeBits(m: Bits, k: nat)
    requires k < 3 * |m|
    ensures RepetitionEncode(m)[k] == m[k / 3]
  {
    if k >= 3 {
      RepetitionEncodeBits(m[1..], k - 3);
    }
  }

  /** A group equals the triple of b when at most one of its bits differs from b. */
  predicate NearTriple(g: Bits, b: bool) {
    g == Triple(b) || exists q :: 0 <= q < 3 && g == Flip(Triple(b), q)
  }

  /** t is the codeword of m with at most one bit changed in every group. */
  predicate NearCodeword(t: Bits, m: Bits)
    decreases |m|
  {
    |t| == 3 * |m| && (m != [] ==> NearTriple(t[..3], m[0]) && NearCodeword(t[3..], m[1..]))
  }

  /** Majority vote undoes one flipped bit of a triple, and the group is reported
      exactly when a bit was flipped. */
  lemma {:induction false} MajorityOfNear(g: Bits, b: bool)
    requires NearTriple(g, b)
    ensures Majority(g) == b
    ensures BadGroup(g) <==> g != Triple(b)
  {
    assert g == [g[0], g[1], g[2]];
    OnesAppend([g[0], g[1]], [g[2]]);
    OnesAppend([g[0]], [g[1]]);
    assert [g[0]] + [g[1]] == [g[0], g[1]] && [g[0], g[1]] + [g[2]] == g;
    assert Ones([g[0]]) == (if g[0] then 1 else 0) by { assert [g[0]][..0] == []; }
    assert Ones([g[1]]) == (if g[1] then 1 else 0) by { assert [g[1]][..0] == []; }
    assert Ones([g[2]]) == (if g[2] then 1 else 0) by { assert [g[2]][..0] == []; }
  }

  /** Up to one error per group is corrected, and reported exactly when there was one. */
  lemma {:induction false} RepetitionCorrectsNear(t: Bits, m: Bits)
    requires NearCodeword(t, m)
    ensures RepetitionDecode(t) == m
    ensures RepetitionDetect(t) <==> t != RepetitionEncode(m)
  {
    if m != [] {
      assert Group(t) == t[..3] && AfterGroup(t) == t[3..];
      MajorityOfNear(t[..3], m[0]);
      RepetitionCorrectsNear(t[3..], m[1..]);
      assert t == t[..3] + t[3..];
      var e := RepetitionEncode(m);
      assert e[..3] == Triple(m[0]) && e[3..] == RepetitionEncode(m[1..]);
      if t != e {
        assert t[..3] != e[..3] || t[3..] != e[3..];
      }
    }
  }

  /** The codeword itself is near its message. */
  lemma {:induction false} EncodeIsNear(m: Bits)
    ensures NearCodeword(RepetitionEncode(m), m)
  {
    if m != [] {
      var e := RepetitionEncode(m);
      assert e[..3] == Triple(m[0]) && e[3..] == RepetitionEncode(m[1..]);
      EncodeIsNear(m[1..]);
    }
  }

  /** The codeword of a non-empty message is the triple of its first bit, then the rest. */
  lemma {:induction false} EncodeSplit(m: Bits)
    requires m != []
    ensures RepetitionEncode(m)[..3] == Triple(m[0])
    ensures RepetitionEncode(m)[3..] == RepetitionEncode(m[1..])
  {
  }

  /** A flip beyond the front group leaves the front group alone and moves into the rest. */
  lemma {:induction false} FlipAfterGroup(s: Bits, p: nat)
    requires 3 <= p < |s|
    ensures Flip(s, p)[..3] == s[..3] && Flip(s, p)[3..] == Flip(s[3..], p - 3)
  {
  }

  /** A flip inside the front group leaves the rest alone. */
  lemma {:induction false} FlipInGroup(s: Bits, p: nat)
    requires p < 3 <= |s|
    ensures Flip(s, p)[..3] == Flip(s[..3], p) && Flip(s, p)[3..] == s[3..]
  {
  }

  /** One flip anywhere leaves the word near its message. */
  lemma {:induction false} FlipIsNear(m: Bits, p: nat)
    requires p < 3 * |m|
    ensures NearCodeword(Flip(RepetitionEncode(m), p), m)
  {
    var e := RepetitionEncode(m);
    EncodeSplit(m);
    if p < 3 {
      FlipInGroup(e, p);
      EncodeIsNear(m[1..]);
    } else {
      FlipAfterGroup(e, p);
      FlipIsNear(m[1..], p - 3);
    }
  }

  /** A codeword that arrives unchanged decodes to its message and is not reported. */
  lemma {:induction false} RepetitionClean(m: Bits)
    ensures RepetitionDecode(RepetitionEncode(m)) == m
    ensures !RepetitionDetect(RepetitionEncode(m))
  {
    EncodeIsNear(m);
    RepetitionCorrectsNear(RepetitionEncode(m), m);
  }

  /** Any single flip is reported and corrected. */
  lemma {:induction false} RepetitionSingleFlip(m: Bits, p: nat)
    requires p < 3 * |m|
    ensures RepetitionDetect(Flip(RepetitionEncode(m), p))
    ensures RepetitionDecode(Flip(RepetitionEncode(m), p)) == m
  {
    var e := RepetitionEncode(m);
    FlipIsNear(m, p);
    RepetitionCorrectsNear(Flip(e, p), m);
    assert Flip(e, p)[p] != e[p];
  }

  /** A word whose length is not a multiple of three always ends in a short,
      reported group. */
  lemma {:induction false} RepetitionDetectsShortTail(t: Bits)
    requires |t| % 3 != 0
    ensures RepetitionDetect(t)
    decreases |t|
  {
    if |t| >= 3 {
      assert |AfterGroup(t)| == |t| - 3;
      RepetitionDetectsShortTail(AfterGroup(t));
    }
  }

  /** Two flips of a triple outvote the bit it repeats, and leave a group that is
      still reported. */
  lemma {:induction false} TwoFlipsOutvote(b: bool, q1: nat, q2: nat)
    requires q1 < 3 && q2 < 3 && q1 != q2
    ensures Majority(Flip(Flip(Triple(b), q1), q2)) == !b
    ensures BadGroup(Flip(Flip(Triple(b), q1), q2))
  {
    var g := Flip(Flip(Triple(b), q1), q2);
    var r := 3 - q1 - q2;
    assert g == Flip(Triple(!b), r) by {
      assert g == [g[0], g[1], g[2]];
    }
    assert g[r] != Triple(!b)[r];
    MajorityOfNear(g, !b);
  }

  /** Decoded bit k of a word of 3n bits is the vote of its group k. */
  lemma {:induction false} RepetitionDecodeAt(t: Bits, n: nat, k: nat)
    requires |t| == 3 * n && k < n
    ensures |RepetitionDecode(t)| == n && RepetitionDecode(t)[k] == Majority(t[3 * k..3 * k + 3])
  {
    RepetitionDecodeLengthExact(t, n);
    var rest := t[3..];
    FrontGroup(t, t[..3], rest);
    if k > 0 {
      var k' := k - 1;
      RepetitionDecodeAt(rest, n - 1, k');
      SliceOfRest(t, 3 * k', 3 * k);
    }
  }

  /** A reported group anywhere makes the whole word reported. */
  lemma {:induction false} RepetitionDetectAt(t: Bits, n: nat, k: nat)
    requires |t| == 3 * n && k < n && BadGroup(t[3 * k..3 * k + 3])
    ensures RepetitionDetect(t)
  {
    var rest := t[3..];
    FrontGroup(t, t[..3], rest);
    if k > 0 {
      var k' := k - 1;
      SliceOfRest(t, 3 * k', 3 * k);
      RepetitionDetectAt(rest, n - 1, k');
    }
  }

  /** A word of whole groups is reported exactly when one of its groups is bad. */
  lemma {:induction false} RepetitionDetectIff(t: Bits, n: nat)
    requires |t| == 3 * n
    ensures RepetitionDetect(t) <==> exists k :: 0 <= k < n && BadGroup(t[3 * k..3 * k + 3])
  {
    if n > 0 {
      var rest := t[3..];
      FrontGroup(t, t[..3], rest);
      RepetitionDetectIff(rest, n - 1);
      if RepetitionDetect(t) {
        if BadGroup(t[..3]) {
          assert t[3 * 0..3 * 0 + 3] == t[..3];
        } else {
          var k' :| 0 <= k' < n - 1 && BadGroup(rest[3 * k'..3 * k' + 3]);
          SliceOfRest(t, 3 * k', 3 * (k' + 1));
          assert BadGroup(t[3 * (k' + 1)..3 * (k' + 1) + 3]);
        }
      } else {
        forall k | 0 <= k < n
          ensures !BadGroup(t[3 * k..3 * k + 3])
        {
          if BadGroup(t[3 * k..3 * k + 3]) {
            RepetitionDetectAt(t, n, k);
          }
        }
      }
    }
  }

  /** Group k of the codeword is the triple of message bit k. */
  lemma {:induction false} RepetitionEncodeGroup(m: Bits, k: nat)
    requires k < |m|
    ensures RepetitionEncode(m)[3 * k..3 * k + 3] == Triple(m[k])
  {
    EncodeSplit(m);
    if k > 0 {
      var k' := k - 1;
      RepetitionEncodeGroup(m[1..], k');
      SliceOfRest(RepetitionEncode(m), 3 * k', 3 * k);
    }
  }

  /** Group lo of the rest after the front group is group lo + 3 of the word. */
  lemma {:induction false} SliceOfRest(s: Bits, lo: nat, lo': nat)
    requires lo' == lo + 3 && lo' + 3 <= |s|
    ensures s[3..][lo..lo + 3] == s[lo'..lo' + 3]
  {
  }

  /** A flip inside the group starting at lo is a flip of that group. */
  lemma {:induction false} FlipInSlice(s: Bits, lo: nat, p: nat)
    requires lo <= p < lo + 3 <= |s|
    ensures Flip(s, p)[lo..lo + 3] == Flip(s[lo..lo + 3], p - lo)
  {
  }

  /** Two flips inside one group outvote the true bit: the word is still reported,
      but that group is decoded wrongly. */
  lemma {:induction false} RepetitionDoubleFlipInGroup(m: Bits, k: nat, q1: nat, q2: nat)
    requires k < |m| && q1 < 3 && q2 < 3 && q1 != q2
    ensures RepetitionDetect(Flip(Flip(RepetitionEncode(m), 3 * k + q1), 3 * k + q2))
    ensures var d := RepetitionDecode(Flip(Flip(RepetitionEncode(m), 3 * k + q1), 3 * k + q2));
      |d| == |m| && d[k] == !m[k]
  {
    var e := RepetitionEncode(m);
    var t := Flip(Flip(e, 3 * k + q1), 3 * k + q2);
    RepetitionDecodeAt(t, |m|, k);
    RepetitionEncodeGroup(m, k);
    FlipInSlice(e, 3 * k, 3 * k + q1);
    FlipInSlice(Flip(e, 3 * k + q1), 3 * k, 3 * k + q2);
    TwoFlipsOutvote(m[k], q1, q2);
    RepetitionDetectAt(t, |m|, k);
  }

  /** The worked example: 101 is sent as 111000111. */
  lemma {:induction false} RepetitionEncodeExample()
    ensures RepetitionEncode(FromString("101")) == FromString("111000111")
  {
    var o, z := true, false;
    assert FromString("101") == [o, z, o];
    assert FromString("111000111") == Triple(o) + (Triple(z) + (Triple(o) + []));
    assert [o, z, o][1..] == [z, o] && [z, o][1..] == [o] && [o][1..] == [];
  }

  /** The worked example: 101 010 011 is voted back to 101, each group having
      one flipped bit. */
  lemma {:induction false} RepetitionDecodeExample()
    ensures RepetitionDecode(FromString("101010011")) == FromString("101")
  {
    var o, z := true, false;
    assert FromString("101") == [o, z, o];
    var t := FromString("101010011");
    assert t == [o, z, o] + [z, o, z] + [z, o, o];
    assert NearTriple([o, z, o], o) by { assert [o, z, o] == Flip(Triple(o), 1); }
    assert NearTriple([z, o, z], z) by { assert [z, o, z] == Flip(Triple(z), 1); }
    assert NearTriple([z, o, o], o) by { assert [z, o, o] == Flip(Triple(o), 0); }
    assert [o, z, o][1..] == [z, o] && [z, o][1..] == [o] && [o][1..] == [];
    assert NearCodeword([z, o, o], [o]) by {
      assert [z, o, o][..3] == [z, o, o] && [z, o, o][3..] == [];
    }
    var t' := [z, o, z] + [z, o, o];
    assert NearCodeword(t', [z, o]) by {
      assert t'[..3] == [z, o, z] && t'[3..] == [z, o, o];
    }
    assert t[..3] == [o, z, o] && t[3..] == t';
    RepetitionCorrectsNear(t, [o, z, o]);
  }

  /** addRepetitionCode as written: append each bit three times. */
  method AddRepetitionCode(message: Bits) returns (encoded: Bits)
    ensures encoded == RepetitionEncode(message)
  {
    encoded := [];
    var i := 0;
    while i < |message|
      invariant i <= |message|
      invariant encoded + RepetitionEncode(message[i..]) == RepetitionEncode(message)
    {
      assert message[i..][1..] == message[i + 1..];
      encoded := encoded + Triple(message[i]);
      i := i + 1;
    }
    assert message[i..] == [];
  }

  /** The group starting at i and what follows it, as the loop of detectErrors slices them. */
  lemma {:induction false} GroupAt(t: Bits, i: nat, j: nat)
    requires i < |t| && j == (if i + 3 <= |t| then i + 3 else |t|)
    ensures RepetitionDecode(t[i..]) == [Majority(t[i..j])] + RepetitionDecode(t[j..])
    ensures RepetitionDetect(t[i..]) == (BadGroup(t[i..j]) || RepetitionDetect(t[j..]))
  {
    FrontGroup(t[i..], t[i..j], t[j..]);
  }

  /** Unfolding the decoder once, for a word split into its front group and the rest. */
  lemma {:induction false} FrontGroup(rest: Bits, g: Bits, after: Bits)
    requires rest != [] && g == Group(rest) && after == AfterGroup(rest)
    ensures RepetitionDecode(rest) == [Majority(g)] + RepetitionDecode(after)
    ensures RepetitionDetect(rest) == (BadGroup(g) || RepetitionDetect(after))
  {
  }

  /** One round of the loop of detectErrors keeps its two invariants; g is the
      group the round slices off and b its vote. */
  lemma {:induction false} CheckRound(t: Bits, i: nat, j: nat, g: Bits, b: bool, corrected: Bits, found: bool)
    requires i < |t| && j == (if i + 3 <= |t| then i + 3 else |t|) && g == t[i..j] && b == Majority(g)
    requires corrected + RepetitionDecode(t[i..]) == RepetitionDecode(t)
    requires (found || RepetitionDetect(t[i..])) == RepetitionDetect(t)
    ensures (corrected + [b]) + RepetitionDecode(t[j..]) == RepetitionDecode(t)
    ensures (found || g != Triple(b) || RepetitionDetect(t[j..])) == RepetitionDetect(t)
  {
    GroupAt(t, i, j);
    Regroup(corrected, b, RepetitionDecode(t[i..]), RepetitionDecode(t[j..]), RepetitionDecode(t));
    assert BadGroup(g) == (g != Triple(b));
  }

  /** Moving the front decoded bit from the rest onto the finished prefix. */
  lemma {:induction false} Regroup(done: Bits, b: bool, rest: Bits, after: Bits, whole: Bits)
    requires done + rest == whole && rest == [b] + after
    ensures (done + [b]) + after == whole
  {
    assert (done + [b]) + after == done + ([b] + after);
  }

  /** The repetition branch of detectErrors as written: walk the word in steps of
      three, vote, and record the start of every group that is not a clean triple. */
  method RepetitionCheck(t: Bits) returns (detected: bool, corrected: Bits)
    ensures detected == RepetitionDetect(t)
    ensures corrected == RepetitionDecode(t)
  {
    var positions: seq<nat> := [];
    corrected := [];
    var i := 0;
    while i < |t|
      invariant i <= |t|
      invariant corrected + RepetitionDecode(t[i..]) == RepetitionDecode(t)
      invariant (|positions| > 0 || RepetitionDetect(t[i..])) == RepetitionDetect(t)
      decreases |t| - i
    {
      var j := if i + 3 <= |t| then i + 3 else |t|;
      var triplet := t[i..j];
      var correctBit := Majority(triplet);
      CheckRound(t, i, j, triplet, correctBit, corrected, |positions| > 0);
      corrected := corrected + [correctBit];
      if triplet != Triple(correctBit) {
        positions := positions + [i];
      }
      i := j;
    }
    assert t[i..] == [];
    detected := |positions| > 0;
  }
}
