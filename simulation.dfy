/** The step state machine of the error simulation hook: a message is entered,
    encoded with the chosen method, transmitted (possibly corrupted), checked, and
    corrected where the method can. The random draws of the transmission are an
    explicit list of flip positions; the two delayed steps of the hook (its
    setTimeout callbacks) are kept as a list of pending timers that the caller
    fires. */
module Simulation {
  import opened Bits
  import P = ParityCode
  import C = ChecksumCode
  import H = HammingCode
  import R = CrcCode
  import Rep = RepetitionCode
  import T = Corruptor

  datatype DetectionMethod = Parity | Checksum | Hamming | Crc | Repetition

  datatype SimulationStep = Input | Encoding | Transmission | Corruption | Detection | Correction | Complete

  /** A pending setTimeout callback: the one simulateTransmission arms moves the
      simulation to 'corruption', the one correctErrors arms moves it to 'complete'. */
  datatype Timer = ToCorruption | ToComplete

  /** SimulationState without its explanation text, together with the timers
      that are still pending. */
  datatype State = State(
    originalMessage: Bits,
    encodedMessage: Bits,
    transmittedMessage: Bits,
    detectedError: bool,
    errorPositions: seq<nat>,
    correctedMessage: Bits,
    currentStep: SimulationStep,
    detectionMethod: DetectionMethod,
    timers: seq<Timer>)

  const DefaultState := State([], [], [], false, [], [], Input, Parity, [])

  /** The switch of encodeMessage. */
  function Encode(how: DetectionMethod, m: Bits): Bits {
    match how
    case Parity => P.AddParityBit(m)
    case Checksum => C.AddChecksum(m)
    case Hamming => H.HammingEncode(m)
    case Crc => R.CrcEncode(m)
    case Repetition => Rep.RepetitionEncode(m)
  }

  /** The length of the encoded message of an n-bit message. */
  function EncodedLength(how: DetectionMethod, n: nat): nat {
    match how
    case Parity => n + 1
    case Checksum => n + 8
    case Hamming => H.CodeLength(n)
    case Crc => n + 3
    case Repetition => 3 * n
  }

  /** Every method adds its redundancy to the message: one parity bit, eight
      checksum bits, the Hamming parity bits, three CRC bits, or two more copies
      of every bit. */
  lemma {:induction false} EncodeLength(how: DetectionMethod, m: Bits)
    ensures |Encode(how, m)| == EncodedLength(how, |m|)
    ensures m != [] ==> |m| < |Encode(how, m)|
  {
    if how == Hamming {
      H.CodeLengthBounds(|m|);
      assert Pow2(0) == 1;
    }
  }

  /** The switch of detectErrors: whether an error is flagged and what
      correctedMessage becomes. Only the Hamming and repetition branches change
      the received word; the Hamming branch runs `Math.log2(len + 1) | 0` checks. */
  function Detect(how: DetectionMethod, t: Bits): Verdict {
    match how
    case Parity => Verdict(P.ParityDetect(t), t)
    case Checksum => Verdict(C.ChecksumDetect(t), t)
    case Hamming => H.HammingDecode(t, H.AsWrittenChecks(|t|))
    case Crc => Verdict(R.CrcDetect(t), t)
    case Repetition => Verdict(Rep.RepetitionDetect(t), Rep.RepetitionDecode(t))
  }

  /** detectErrors as evidently intended: the Hamming branch runs as many checks
      as the encoder wrote parity bits. */
  function DetectIntended(how: DetectionMethod, t: Bits): Verdict {
    if how == Hamming then H.HammingDecode(t, H.CorrectedChecks(|t|)) else Detect(how, t)
  }

  /** What correctedMessage holds after a transmission without errors: the
      repetition decoder gives back the message itself, the others the codeword. */
  function Delivered(how: DetectionMethod, m: Bits): Bits {
    if how == Repetition then m else Encode(how, m)
  }

  /** A codeword that arrives intact is never flagged, whatever the method. */
  lemma {:induction false} DetectClean(how: DetectionMethod, m: Bits)
    ensures Detect(how, Encode(how, m)) == Verdict(false, Delivered(how, m))
  {
    match how
    case Parity => P.ParityClean(m);
    case Checksum => C.ChecksumClean(m);
    case Hamming =>
      H.HammingClean(m, H.AsWrittenChecks(|H.HammingEncode(m)|));
    case Crc => R.CrcClean(m);
    case Repetition => Rep.RepetitionClean(m);
  }

  /** One flipped bit anywhere in the codeword is flagged by every method but
      Hamming, which misses it exactly at its blind spot (the top parity bit of a
      length it checks short) and gives back the codeword exactly where it locates
      the flip. The repetition code gives back the message, and the detect-only
      methods keep the damaged word. */
  lemma {:induction false} DetectSingleFlip(how: DetectionMethod, m: Bits, p: nat)
    requires p < |Encode(how, m)|
    ensures Detect(how, Flip(Encode(how, m), p)).detected <==> !(how == Hamming && H.TopParityBlind(|m|, p))
    ensures how == Hamming ==>
      (Detect(how, Flip(Encode(how, m), p)).corrected == Encode(how, m) <==> H.AsWrittenLocates(|m|, p))
    ensures how == Repetition ==> Detect(how, Flip(Encode(how, m), p)).corrected == m
    ensures how in {Parity, Checksum, Crc} ==> Detect(how, Flip(Encode(how, m), p)).corrected == Flip(Encode(how, m), p)
  {
    match how
    case Parity => P.ParitySingleFlip(m, p);
    case Checksum => C.ChecksumSingleFlip(m, p);
    case Hamming => H.AsWrittenSingleFlip(m, p);
    case Crc => R.CrcSingleFlip(m, p);
    case Repetition => Rep.RepetitionSingleFlip(m, p);
  }

  /** With the intended Hamming check count one flipped bit is flagged by every
      method, and the Hamming code gives back the codeword that was sent. */
  lemma {:induction false} DetectIntendedSingleFlip(how: DetectionMethod, m: Bits, p: nat)
    requires p < |Encode(how, m)|
    ensures DetectIntended(how, Flip(Encode(how, m), p)).detected
    ensures DetectIntended(how, Flip(Encode(how, m), p)).corrected ==
      match how
      case Hamming => Encode(how, m)
      case Repetition => m
      case _ => Flip(Encode(how, m), p)
  {
    if how == Hamming {
      H.HammingCorrectsSingleFlip(m, p);
    } else {
      DetectSingleFlip(how, m, p);
    }
  }

  /** The order of the steps. */
  function Rank(step: SimulationStep): nat {
    match step
    case Input => 0
    case Encoding => 1
    case Transmission => 2
    case Corruption => 3
    case Detection => 4
    case Correction => 5
    case Complete => 6
  }

  /** What each step has computed so far: from 'encoding' on the encoded message
      is the codeword of the original message, from 'transmission' on the
      received word is the codeword with the drawn positions flipped, from
      'detection' on the verdict is the method's verdict on the received word,
      and 'correction' is reached only with an error flagged. */
  predicate Consistent(s: State) {
    (Rank(s.currentStep) >= 1 ==> s.encodedMessage == Encode(s.detectionMethod, s.originalMessage)) &&
    (Rank(s.currentStep) >= 2 ==>
      T.ValidFlips(|s.encodedMessage|, s.errorPositions) &&
      s.transmittedMessage == T.Corrupt(s.encodedMessage, s.errorPositions)) &&
    (Rank(s.currentStep) >= 4 ==>
      Verdict(s.detectedError, s.correctedMessage) == Detect(s.detectionMethod, s.transmittedMessage)) &&
    (s.currentStep == Correction ==> s.detectedError)
  }

  /** The timers a step is waiting for: the transmission step waits for the
      move to 'corruption', the correction step for the move to 'complete'. */
  function TimersFor(step: SimulationStep): seq<Timer> {
    if step == Transmission then [ToCorruption]
    else if step == Correction then [ToComplete]
    else []
  }

  /** A state reachable by the simulator: consistent, and no timer pending but
      the one its step waits for. */
  predicate Valid(s: State) {
    Consistent(s) && s.timers == TimersFor(s.currentStep)
  }

  /** setMessage with an accepted message: the default state with the message
      and the method filled in. */
  function Start(m: Bits, how: DetectionMethod): State {
    DefaultState.(originalMessage := m, detectionMethod := how)
  }

  /** setMessage: a message that does not match ^[01]+$ is refused (the hook
      throws) and the state is left as it was. Pending timers are cancelled. */
  function SetMessageState(s: State, message: string, how: DetectionMethod): State {
    if IsBinary(message) then Start(FromString(message), how) else s
  }

  /** resetSimulation, with the pending timers cancelled. */
  function ResetState(s: State): State {
    DefaultState
  }

  /** What nextStep demands of the random draws: in the encoding step, where it
      transmits, the drawn positions are at most two and lie inside the word. */
  predicate DrawsFit(s: State, flips: seq<nat>) {
    s.currentStep == Encoding ==> T.ValidFlips(|s.encodedMessage|, flips)
  }

  /** nextStep: encode, transmit (arming the move to 'corruption'), detect,
      correct (arming the move to 'complete' when an error was flagged, finishing
      at once otherwise) and restart. In 'transmission' it does nothing. */
  function NextState(s: State, flips: seq<nat>): State
    requires DrawsFit(s, flips)
  {
    match s.currentStep
    case Input =>
      s.(encodedMessage := Encode(s.detectionMethod, s.originalMessage), currentStep := Encoding)
    case Encoding =>
      s.(transmittedMessage := T.Corrupt(s.encodedMessage, flips), errorPositions := flips,
         currentStep := Transmission, timers := s.timers + [ToCorruption])
    case Transmission => s
    case Corruption =>
      var v := Detect(s.detectionMethod, s.transmittedMessage);
      s.(detectedError := v.detected, correctedMessage := v.corrected, currentStep := Detection)
    case Detection =>
      if !s.detectedError then s.(currentStep := Complete)
      else s.(currentStep := Correction, timers := s.timers + [ToComplete])
    case Correction => ResetState(s)
    case Complete => ResetState(s)
  }

  /** A pending timer fires: it moves the simulation to its step, whatever the
      current step is, and is no longer pending. */
  function Fire(s: State, k: nat): State
    requires k < |s.timers|
  {
    var rest := s.timers[..k] + s.timers[k + 1..];
    match s.timers[k]
    case ToCorruption => s.(currentStep := Corruption, timers := rest)
    case ToComplete => s.(currentStep := Complete, timers := rest)
  }

  lemma {:induction false} DefaultValid()
    ensures Valid(DefaultState)
  {
  }

  /** setMessage and resetSimulation lead to a valid state from any state. */
  lemma {:induction false} SetMessageValid(s: State, message: string, how: DetectionMethod)
    requires Valid(s)
    ensures Valid(SetMessageState(s, message, how))
    ensures IsBinary(message) ==> SetMessageState(s, message, how).currentStep == Input
  {
  }

  /** nextStep keeps the simulation valid. */
  lemma {:induction false} NextStepValid(s: State, flips: seq<nat>)
    requires Valid(s) && DrawsFit(s, flips)
    ensures Valid(NextState(s, flips))
  {
    if s.currentStep == Detection {
      var r := NextState(s, flips);
      assert r.currentStep == (if s.detectedError then Correction else Complete);
      assert r.(currentStep := Detection, timers := []) == s;
    }
  }

  /** In a valid state the only pending timer is the one its step waits for, and
      firing it keeps the simulation valid. */
  lemma {:induction false} FireValid(s: State, k: nat)
    requires Valid(s) && k < |s.timers|
    ensures k == 0 && s.currentStep in {Transmission, Correction}
    ensures Fire(s, k).currentStep == if s.currentStep == Transmission then Corruption else Complete
    ensures Valid(Fire(s, k))
  {
  }

  /** A transmission without errors: nothing is flagged, and correctedMessage is
      what was sent (the message itself for the repetition code). */
  lemma {:induction false} CleanOutcome(s: State)
    requires Consistent(s) && Rank(s.currentStep) >= 4 && s.errorPositions == []
    ensures !s.detectedError && s.currentStep != Correction
    ensures s.correctedMessage == Delivered(s.detectionMethod, s.originalMessage)
  {
    DetectClean(s.detectionMethod, s.originalMessage);
  }

  /** The same position drawn twice: two error positions are recorded but the word
      arrives intact, so nothing is flagged. */
  lemma {:induction false} SamePlaceOutcome(s: State, p: nat)
    requires Consistent(s) && Rank(s.currentStep) >= 4 && s.errorPositions == [p, p]
    ensures !s.detectedError && s.currentStep != Correction
    ensures s.correctedMessage == Delivered(s.detectionMethod, s.originalMessage)
  {
    T.CorruptSamePlace(s.encodedMessage, p);
    DetectClean(s.detectionMethod, s.originalMessage);
  }

  /** A single flipped bit: every method flags it, except Hamming at its blind
      spot; the Hamming code restores the codeword exactly where it locates the
      flip, and the repetition code restores the message. */
  lemma {:induction false} SingleFlipOutcome(s: State)
    requires Consistent(s) && Rank(s.currentStep) >= 4 && |s.errorPositions| == 1
    ensures s.detectedError <==> !(s.detectionMethod == Hamming && H.TopParityBlind(|s.originalMessage|, s.errorPositions[0]))
    ensures s.detectionMethod == Hamming ==>
      (s.correctedMessage == s.encodedMessage <==> H.AsWrittenLocates(|s.originalMessage|, s.errorPositions[0]))
    ensures s.detectionMethod == Repetition ==> s.correctedMessage == s.originalMessage
    ensures s.detectionMethod in {Parity, Checksum, Crc} ==> s.correctedMessage == s.transmittedMessage
  {
    var p := s.errorPositions[0];
    assert s.errorPositions == [p];
    T.CorruptOne(s.encodedMessage, p);
    DetectSingleFlip(s.detectionMethod, s.originalMessage, p);
  }

  /** The blind spot in the simulation: under Hamming, with a message length whose
      codeword length plus one is not a power of two, a flip of the top parity bit
      is not flagged, correction is skipped, and the damaged word is delivered. */
  lemma {:induction false} HammingMissOutcome(s: State)
    requires Consistent(s) && Rank(s.currentStep) >= 4 && s.detectionMethod == Hamming
    requires var n := |s.originalMessage|; var r := H.ParityBitCount(n);
      H.CodeLength(n) + 1 != Pow2(r) && r >= 1 && s.errorPositions == [Pow2(r - 1) - 1]
    ensures !s.detectedError && s.currentStep != Correction
    ensures s.correctedMessage == s.transmittedMessage != s.encodedMessage
  {
    var n := |s.originalMessage|;
    var p := Pow2(H.ParityBitCount(n) - 1) - 1;
    assert s.errorPositions[0] == p;
    H.AsWrittenMissesTopParity(s.originalMessage);
    SingleFlipOutcome(s);
    T.CorruptOne(s.encodedMessage, p);
    assert s.transmittedMessage[p] != s.encodedMessage[p];
  }

  /** Parity misses two flips at distinct places. */
  lemma {:induction false} ParityTwoFlipsOutcome(s: State, p: nat, q: nat)
    requires Consistent(s) && Rank(s.currentStep) >= 4 && s.detectionMethod == Parity
    requires s.errorPositions == [p, q] && p != q
    ensures !s.detectedError && s.currentStep != Correction
  {
    assert s.errorPositions[0] == p && s.errorPositions[1] == q;
    T.CorruptTwo(s.encodedMessage, p, q);
    P.ParityDoubleFlip(s.originalMessage, p, q);
  }

  /** The checksum misses a 1 turned into 0 together with a 0 turned into 1 at the
      same place of the next block. */
  lemma {:induction false} ChecksumCancellingOutcome(s: State, p: nat)
    requires Consistent(s) && Rank(s.currentStep) >= 4 && s.detectionMethod == Checksum
    requires s.errorPositions == [p, p + 8] && p + 8 < |s.originalMessage|
    requires s.originalMessage[p] && !s.originalMessage[p + 8]
    ensures !s.detectedError && s.currentStep != Correction
  {
    T.CorruptTwo(s.encodedMessage, p, p + 8);
    C.ChecksumCancellingFlips(s.originalMessage, p);
  }

  /** Two flips in one group of the repetition code are flagged, but the majority
      vote restores the wrong bit there. */
  lemma {:induction false} RepetitionTwoFlipsOutcome(s: State, k: nat, q1: nat, q2: nat)
    requires Consistent(s) && Rank(s.currentStep) >= 4 && s.detectionMethod == Repetition
    requires k < |s.originalMessage| && q1 < 3 && q2 < 3 && q1 != q2
    requires s.errorPositions == [3 * k + q1, 3 * k + q2]
    ensures s.detectedError
    ensures |s.correctedMessage| == |s.originalMessage| && s.correctedMessage[k] != s.originalMessage[k]
  {
    var m := s.originalMessage;
    var e := Rep.RepetitionEncode(m);
    var a, b := 3 * k + q1, 3 * k + q2;
    assert s.encodedMessage == e && |e| == 3 * |m| && a < |e| && b < |e|;
    T.CorruptTwo(e, a, b);
    var t := Flip(Flip(e, a), b);
    assert s.transmittedMessage == t;
    Rep.RepetitionDoubleFlipInGroup(m, k, q1, q2);
    var d := Rep.RepetitionDecode(t);
    assert |d| == |m| && d[k] == !m[k];
    assert Detect(Repetition, t) == Verdict(Rep.RepetitionDetect(t), d);
    assert s.detectedError == Rep.RepetitionDetect(t) && s.correctedMessage == d;
  }

  /** A whole run with an undisturbed transmission: after setMessage, encode,
      transmit, the timer, detect and correct, the simulation is complete with
      nothing flagged. */
  lemma {:induction false} CleanRun(s0: State, message: string, how: DetectionMethod)
    requires Valid(s0) && IsBinary(message)
    ensures var s1 := SetMessageState(s0, message, how);
      var s2 := NextState(s1, []);
      var s3 := NextState(s2, []);
      |s3.timers| == 1 &&
      var s4 := Fire(s3, 0);
      var s5 := NextState(s4, []);
      var s6 := NextState(s5, []);
      s6.currentStep == Complete && !s6.detectedError && Valid(s6) &&
      s6.correctedMessage == Delivered(how, FromString(message))
  {
    var s1 := SetMessageState(s0, message, how);
    var s2 := NextState(s1, []);
    NextStepValid(s1, []);
    var s3 := NextState(s2, []);
    NextStepValid(s2, []);
    var s4 := Fire(s3, 0);
    FireValid(s3, 0);
    var s5 := NextState(s4, []);
    NextStepValid(s4, []);
    CleanOutcome(s5);
    var s6 := NextState(s5, []);
    NextStepValid(s5, []);
  }

  /** A whole run with one flipped bit under the Hamming code. At the blind spot
      the simulation completes at once with nothing flagged and the damaged word
      delivered. Otherwise it goes through 'correction' and, once its timer
      fires, completes, with the codeword that was sent exactly where the
      decoder locates the flip. */
  lemma {:induction false} HammingRun(s0: State, message: string, p: nat)
    requires Valid(s0) && IsBinary(message) && p < |H.HammingEncode(FromString(message))|
    ensures var s1 := SetMessageState(s0, message, Hamming);
      var s2 := NextState(s1, []);
      var s3 := NextState(s2, [p]);
      |s3.timers| == 1 &&
      var s4 := Fire(s3, 0);
      var s5 := NextState(s4, []);
      var s6 := NextState(s5, []);
      var n, c := |FromString(message)|, H.HammingEncode(FromString(message));
      (H.TopParityBlind(n, p) ==>
        s6.currentStep == Complete && !s6.detectedError && Valid(s6) && s6.correctedMessage == Flip(c, p)) &&
      (!H.TopParityBlind(n, p) ==>
        s6.currentStep == Correction && |s6.timers| == 1 &&
        var s7 := Fire(s6, 0);
        s7.currentStep == Complete && s7.detectedError && Valid(s7) &&
        (s7.correctedMessage == c <==> H.AsWrittenLocates(n, p)))
  {
    var s1 := SetMessageState(s0, message, Hamming);
    var s2 := NextState(s1, []);
    NextStepValid(s1, []);
    var s3 := NextState(s2, [p]);
    NextStepValid(s2, [p]);
    var s4 := Fire(s3, 0);
    FireValid(s3, 0);
    var s5 := NextState(s4, []);
    NextStepValid(s4, []);
    SingleFlipOutcome(s5);
    T.CorruptOne(s5.encodedMessage, p);
    var s6 := NextState(s5, []);
    NextStepValid(s5, []);
    if !H.TopParityBlind(|FromString(message)|, p) {
      FireValid(s6, 0);
    }
  }

  /** resetSimulation as written: the default state, with the timers armed before
      it still pending. */
  function ResetAsWritten(s: State): State {
    DefaultState.(timers := s.timers)
  }

  /** setMessage as written: an accepted message starts afresh, but the timers
      armed before it stay pending. */
  function SetMessageAsWritten(s: State, message: string, how: DetectionMethod): State {
    if IsBinary(message) then Start(FromString(message), how).(timers := s.timers) else s
  }

  /** A run of 1 under parity that is reset during the transmission step. */
  function TransmittingOne(): State {
    State([true], [true, true], [true, true], false, [], [], Transmission, Parity, [ToCorruption])
  }

  /** Reset during the transmission step, as written: the pending timer still
      fires and moves the fresh simulation to 'corruption' with nothing
      transmitted, and detection then flags an error in the empty word. */
  lemma {:induction false} StaleTimerAfterReset()
    ensures Valid(TransmittingOne())
    ensures var s := Fire(ResetAsWritten(TransmittingOne()), 0);
      s.currentStep == Corruption && !Consistent(s) && NextState(s, []).detectedError
    ensures ResetState(TransmittingOne()).timers == []
  {
    var m: Bits := [true];
    assert P.AddParityBit(m) == [true, true] by {
      assert P.EvenParity(m) by {
        assert m[..0] == [];
      }
    }
    assert T.Corrupt([true, true], []) == [true, true];
    var s := Fire(ResetAsWritten(TransmittingOne()), 0);
    assert s.transmittedMessage == [] && s.encodedMessage == [];
    assert Encode(Parity, []) == [false] by {
      assert !P.EvenParity([]);
    }
    assert P.ParityDetect([]) by {
      assert Last([], 1) == [];
    }
  }

  /** A new message entered while the correction step waits, as written: its
      pending timer finishes the new simulation before it has been encoded. */
  lemma {:induction false} StaleTimerAfterSetMessage(s0: State, message: string, how: DetectionMethod)
    requires Valid(s0) && s0.currentStep == Correction && IsBinary(message)
    ensures var s := Fire(SetMessageAsWritten(s0, message, how), 0);
      s.currentStep == Complete && s.originalMessage == FromString(message) && s.encodedMessage == []
    ensures SetMessageState(s0, message, how).timers == []
  {
  }

  /** The switch of encodeMessage, running the encoders' own loops. */
  method EncodeWith(how: DetectionMethod, m: Bits) returns (encoded: Bits)
    ensures encoded == Encode(how, m)
  {
    match how
    case Parity => encoded := P.AddParityBit(m);
    case Checksum =>
      var checksum := C.CalculateChecksum(m);
      encoded := m + checksum;
    case Hamming => encoded := H.AddHammingCode(m);
    case Crc => encoded := R.AddCRC(m);
    case Repetition => encoded := Rep.AddRepetitionCode(m);
  }

  /** The switch of detectErrors, running the checkers' own loops;
      correctedMessage starts out as the received word. */
  method DetectWith(how: DetectionMethod, t: Bits) returns (detected: bool, corrected: Bits)
    ensures Verdict(detected, corrected) == Detect(how, t)
  {
    corrected := t;
    match how
    case Parity => detected := P.ParityDetect(t);
    case Checksum =>
      var calculated := C.CalculateChecksum(AllButLast(t, 8));
      detected := Last(t, 8) != calculated;
    case Hamming => detected, corrected := H.HammingCheck(t, H.AsWrittenChecks(|t|));
    case Crc =>
      var code := R.AddCRC(AllButLast(t, 3));
      detected := Last(code, 3) != Last(t, 3);
    case Repetition => detected, corrected := Rep.RepetitionCheck(t);
  }

  /** The hook's state as an object: nextStep, setMessage and resetSimulation
      update the fields in place; the pending timers are a field too. */
  class Simulation {
    var originalMessage: Bits
    var encodedMessage: Bits
    var transmittedMessage: Bits
    var detectedError: bool
    var errorPositions: seq<nat>
    var correctedMessage: Bits
    var currentStep: SimulationStep
    var detectionMethod: DetectionMethod
    var timers: seq<Timer>

    function Snapshot(): State
      reads this
    {
      State(originalMessage, encodedMessage, transmittedMessage, detectedError,
            errorPositions, correctedMessage, currentStep, detectionMethod, timers)
    }

    /** useState(DEFAULT_STATE). */
    constructor ()
      ensures Snapshot() == DefaultState
    {
      originalMessage, encodedMessage, transmittedMessage := [], [], [];
      detectedError, errorPositions, correctedMessage := false, [], [];
      currentStep, detectionMethod, timers := Input, Parity, [];
    }

    /** resetSimulation, cancelling the pending timers. */
    method Reset()
      modifies this
      ensures Snapshot() == ResetState(old(Snapshot()))
    {
      originalMessage, encodedMessage, transmittedMessage := [], [], [];
      detectedError, errorPositions, correctedMessage := false, [], [];
      currentStep, detectionMethod, timers := Input, Parity, [];
    }

    /** setMessage: ok is false where the hook throws, and then nothing changes. */
    method SetMessage(message: string, how: DetectionMethod) returns (ok: bool)
      modifies this
      ensures ok == IsBinary(message)
      ensures Snapshot() == SetMessageState(old(Snapshot()), message, how)
    {
      ok := IsBinary(message);
      if ok {
        Reset();
        originalMessage := FromString(message);
        detectionMethod := how;
      }
    }

    /** encodeMessage. */
    method EncodeMessage()
      modifies this
      ensures Snapshot() == old(Snapshot()).(encodedMessage := Encode(detectionMethod, originalMessage), currentStep := Encoding)
    {
      encodedMessage := EncodeWith(detectionMethod, originalMessage);
      currentStep := Encoding;
    }

    /** simulateTransmission, with the draws given; it arms the move to 'corruption'. */
    method SimulateTransmission(flips: seq<nat>)
      requires T.ValidFlips(|encodedMessage|, flips)
      modifies this
      ensures Snapshot() == old(Snapshot()).(transmittedMessage := T.Corrupt(old(encodedMessage), flips),
        errorPositions := flips, currentStep := Transmission, timers := old(timers) + [ToCorruption])
    {
      var transmitted, positions := T.SimulateTransmission(encodedMessage, flips);
      transmittedMessage, errorPositions := transmitted, positions;
      currentStep := Transmission;
      timers := timers + [ToCorruption];
    }

    /** detectErrors. */
    method DetectErrors()
      modifies this
      ensures Snapshot() == old(Snapshot()).(detectedError := Detect(detectionMethod, transmittedMessage).detected,
        correctedMessage := Detect(detectionMethod, transmittedMessage).corrected, currentStep := Detection)
    {
      detectedError, correctedMessage := DetectWith(detectionMethod, transmittedMessage);
      currentStep := Detection;
    }

    /** correctErrors: finishes at once when nothing was flagged, otherwise enters
        'correction' and arms the move to 'complete'. */
    method CorrectErrors()
      modifies this
      ensures Snapshot() == if !old(detectedError) then old(Snapshot()).(currentStep := Complete)
        else old(Snapshot()).(currentStep := Correction, timers := old(timers) + [ToComplete])
    {
      if !detectedError {
        currentStep := Complete;
        return;
      }
      currentStep := Correction;
      timers := timers + [ToComplete];
    }

    /** nextStep. */
    method NextStep(flips: seq<nat>)
      requires DrawsFit(Snapshot(), flips)
      modifies this
      ensures Snapshot() == NextState(old(Snapshot()), flips)
    {
      match currentStep
      case Input => EncodeMessage();
      case Encoding => SimulateTransmission(flips);
      case Transmission =>
      case Corruption => DetectErrors();
      case Detection => CorrectErrors();
      case Correction => Reset();
      case Complete => Reset();
    }

    /** The k-th pending timer fires. */
    method TimerFires(k: nat)
      requires k < |timers|
      modifies this
      ensures Snapshot() == Fire(old(Snapshot()), k)
    {
      var timer := timers[k];
      timers := timers[..k] + timers[k + 1..];
      match timer
      case ToCorruption => currentStep := Corruption;
      case ToComplete => currentStep := Complete;
    }
  }
}
