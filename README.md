# Error detection simulator: verified model of the simulation hook

This project models the hook behind an interactive error-detection teaching tool,
`src/hooks/use-error-simulation.ts`. It has three parts:

- **Five codecs** over bit strings:
  - even parity;
  - an 8-bit one's-complement checksum over left-zero-padded 8-bit blocks;
  - a Hamming code with parity bits at the power-of-two positions;
  - a CRC with the generator 1011 (x^3 + x + 1);
  - a triple repetition code decoded by majority vote.
- **The corruptor**, which flips zero, one or two drawn bit positions of the encoded word.
- **The step state machine** input → encoding → transmission → corruption → detection → correction/complete. `nextStep`, `setMessage` and `resetSimulation` drive it, together with two delayed (`setTimeout`) transitions.

A bit string is a `seq<bool>`, with `true` standing for '1'.

Each codec is modelled twice:

- a pure specification function;
- a method that follows the source's loops: the chunk and sum loops of the checksum, the array filling of the Hamming encoder, the remainder rewriting of the CRC, the appending loop of the repetition encoder, the syndrome loop and the triplet loop of the detector.

Each method is proved equal to its function. The properties the tool teaches are proved as lemmas about the functions:

- clean words are never flagged;
- single flips are caught or corrected, except the one flip the as-written Hamming decoder cannot see;
- the blind spots: two flips would be undetected under parity, cancelling flips under the checksum, two flips in one triple under the repetition code.

The state machine runs the detectors as the source writes them, including the Hamming decoder's short check count (see Findings); `Simulation.DetectIntended` is the corrected detector beside it. It is a value `State` with pure transition functions (`NextState`, `SetMessageState`, `ResetState`, `Fire`). An invariant `Valid` is proved preserved by every transition, and the outcome lemmas state what detection yields in valid states. The class `Simulation` has the hook's fields. Each of its methods is proved to move the fields exactly as the corresponding transition function does.

Modules, one per file:

- `Bits` (bits.dfy): shared helpers;
- `ParityCode` (parity.dfy);
- `ChecksumCode` (checksum.dfy);
- `HammingCode` (hamming.dfy);
- `CrcCode` (crc.dfy);
- `RepetitionCode` (repetition.dfy);
- `Corruptor` (corruptor.dfy);
- `Simulation` (simulation.dfy).

What is passed in as parameters:

- The random draws of `simulateTransmission` (whether to corrupt, how many bits, which ones) are an explicit list `flips` of at most two positions inside the word.
- The pending `setTimeout` callbacks are a list of timers in the state, and the caller decides when one fires.

## Model

| member | source | states |
|---|---|---|
| Bits.Flip | src/hooks/use-error-simulation.ts:238-243 | the flipped word has the same length, with bit p inverted |
| Bits.OnesFlip | src/hooks/use-error-simulation.ts:65 | a flip changes the count of 1s by exactly one |
| Bits.Last | src/hooks/use-error-simulation.ts:280 | `slice(-k)`: the last k bits, or the whole word when it is shorter |
| Bits.AllButLast | src/hooks/use-error-simulation.ts:281 | `slice(0, -k)`: all but the last k bits, or nothing when the word is shorter |
| Bits.SplitAppended | src/hooks/use-error-simulation.ts:104-107 | the two slices of a + b with \|b\| = k give back a and b |
| Bits.FloorLog2 | src/hooks/use-error-simulation.ts:306 | `Math.log2(x) \| 0` for x >= 1: the k with 2^k <= x < 2^(k+1) |
| Bits.CeilLog2Unique | src/hooks/use-error-simulation.ts:117-119 | the least k with 2^k >= x is the only k with 2^(k-1) < x <= 2^k |
| ParityCode.AddParityBit | src/hooks/use-error-simulation.ts:64-73 | the word is the message plus one bit, and holds an even number of 1s |
| ParityCode.ParityDetectIff | src/hooks/use-error-simulation.ts:278-282 | a received word of at least one bit is flagged iff it holds an odd number of 1s |
| ParityCode.ParityClean | src/hooks/use-error-simulation.ts:278-282 | an intact codeword is never flagged |
| ParityCode.ParitySingleFlip | src/hooks/use-error-simulation.ts:278-282 | any single flip is flagged |
| ParityCode.ParityDoubleFlip | src/hooks/use-error-simulation.ts:278-282 | two flips at distinct places are never flagged |
| ParityCode.ParityExample | src/pages/methods/ParityPage.tsx:73-76 | 1011001 is sent as 10110010 |
| ChecksumCode.ValueOfToBinary | src/hooks/use-error-simulation.ts:99 | `toString(2).padStart(w, '0')` read back with `parseInt(_, 2)` gives the number again, for v < 2^w |
| ChecksumCode.ValueFlip | src/hooks/use-error-simulation.ts:92 | flipping bit q moves the value by 2^(\|b\|-1-q), down from 1 and up from 0 |
| ChecksumCode.PadLength | src/hooks/use-error-simulation.ts:78-81 | fewer than 8 zeros, and the padded length is a multiple of 8 |
| ChecksumCode.PadToBlocks | src/hooks/use-error-simulation.ts:78-81 | the zeros go in front, and the padded length is a multiple of 8 |
| ChecksumCode.PadFlip | src/hooks/use-error-simulation.ts:78-81 | a flipped message bit is the same flip of the padded message, shifted by the padding |
| ChecksumCode.Chunks | src/hooks/use-error-simulation.ts:84-87 | an aligned word gives \|s\|/8 chunks |
| ChecksumCode.Checksum | src/hooks/use-error-simulation.ts:96-100 | the checksum is 8 bits |
| ChecksumCode.ChecksumComplements | src/hooks/use-error-simulation.ts:96-100 | its value is 255 minus the block sum mod 256, and added to the block sum it gives 255 mod 256 |
| ChecksumCode.AddChecksum | src/hooks/use-error-simulation.ts:104-107 | the unpadded message followed by 8 checksum bits, which `slice(0, -8)` and `slice(-8)` take apart again |
| ChecksumCode.CalculateChecksum | src/hooks/use-error-simulation.ts:77-101 | the padding, both loops and the complement compute Checksum |
| ChecksumCode.BlockSumFlip | src/hooks/use-error-simulation.ts:90-93 | one flip moves the block sum by 2^(7 - q mod 8) |
| ChecksumCode.ChecksumSensitive | src/hooks/use-error-simulation.ts:77-101 | one flipped data bit always changes the checksum |
| ChecksumCode.SumMoves | src/hooks/use-error-simulation.ts:96 | one flipped data bit changes the block sum mod 256 |
| ChecksumCode.BlockSumExample | src/hooks/use-error-simulation.ts:83-93 | the blocks 10110011 and 01101100 sum to 287 before reduction |
| ChecksumCode.ChecksumExample | src/hooks/use-error-simulation.ts:95-107 | reduced mod 256 the sum is 31, so 1011001101101100 is sent followed by 11100000 |
| ChecksumCode.ChecksumClean | src/hooks/use-error-simulation.ts:289-297 | an intact codeword is never flagged |
| ChecksumCode.ChecksumSingleFlip | src/hooks/use-error-simulation.ts:289-297 | any single flip, in the data or in the checksum field, is flagged |
| ChecksumCode.CancellingSum | src/hooks/use-error-simulation.ts:90-93 | a 1→0 flip with a 0→1 flip 8 places later leaves the block sum unchanged |
| ChecksumCode.ChecksumCancellingFlips | src/hooks/use-error-simulation.ts:289-297 | such a pair of flips is not flagged |
| HammingCode.CountFromBounds | src/hooks/use-error-simulation.ts:116-119 | the search for r stops at the least r with 2^r >= m + r + 1 |
| HammingCode.CodeLengthBounds | src/hooks/use-error-simulation.ts:116-122 | the codeword length n = m + r satisfies 2^(r-1) < n < 2^r |
| HammingCode.ParityBitCountLeast | src/hooks/use-error-simulation.ts:117 | every j below r fails the loop test |
| HammingCode.DataCountOfCode | src/hooks/use-error-simulation.ts:125-131 | the non-power-of-two positions of the codeword hold exactly the m message bits |
| HammingCode.Layout | src/hooks/use-error-simulation.ts:122-131 | the data layout has the codeword length |
| HammingCode.HammingEncode | src/hooks/use-error-simulation.ts:110-149 | the codeword has m + r bits |
| HammingCode.HammingDataBits | src/hooks/use-error-simulation.ts:125-131 | data bits fill the 1-indexed non-power-of-two positions in message order |
| HammingCode.EncodedBit | src/hooks/use-error-simulation.ts:133-146 | each codeword bit is a data bit or, at position 2^i, the parity of check i over the layout |
| HammingCode.CoverageFlip | src/hooks/use-error-simulation.ts:313-317 | flipping position p inverts exactly the checks whose bit is set in p + 1 |
| HammingCode.HammingCodewordChecks | src/hooks/use-error-simulation.ts:133-146 | every check of a codeword comes out even |
| HammingCode.Syndrome | src/hooks/use-error-simulation.ts:307-322 | a syndrome over k checks is below 2^k |
| HammingCode.HammingCleanSyndrome | src/hooks/use-error-simulation.ts:307-322 | a clean codeword has syndrome 0 for any number of checks |
| HammingCode.HammingFlipSyndrome | src/hooks/use-error-simulation.ts:307-322 | a flip at p gives the low k bits of p + 1 as syndrome |
| HammingCode.CorrectAt | src/hooks/use-error-simulation.ts:324-338 | an error is flagged iff the syndrome is non-zero, and the word keeps its length |
| HammingCode.DecodeSyndromeZero | src/hooks/use-error-simulation.ts:324 | syndrome 0: not flagged, word unchanged |
| HammingCode.DecodeSyndromeAt | src/hooks/use-error-simulation.ts:324-333 | syndrome p + 1 inside the word: flagged and bit p flipped back |
| HammingCode.CorrectedChecksOfCode | src/hooks/use-error-simulation.ts:116-119 | the corrected check count recovers the encoder's r from the codeword length |
| HammingCode.HammingClean | src/hooks/use-error-simulation.ts:304-342 | an intact codeword passes unflagged and unchanged, with either check count |
| HammingCode.HammingCorrectsSingleFlip | src/hooks/use-error-simulation.ts:304-342 | with the corrected check count, a flip at p gives syndrome p + 1 and is undone |
| HammingCode.AsWrittenChecksOfCode | src/hooks/use-error-simulation.ts:306 | the as-written count equals r iff n + 1 is a power of two; otherwise it is r - 1 |
| HammingCode.AsWrittenCorrectsPerfectLengths | src/hooks/use-error-simulation.ts:304-342 | when n + 1 = 2^r (message lengths 1, 4, 11, ...) the as-written decoder corrects every single flip |
| HammingCode.AsWrittenMissesTopParity | src/hooks/use-error-simulation.ts:306 | otherwise, a flip of the parity bit at position 2^(r-1) passes unflagged |
| HammingCode.AsWrittenFlipSyndrome | src/hooks/use-error-simulation.ts:306-322 | the as-written syndrome of one flip at p is p + 1 where the decoder locates it, 0 at the top parity bit, and p + 1 - 2^(r-1) above it |
| HammingCode.CorrectAtFlip | src/hooks/use-error-simulation.ts:324-338 | a word with one flip at p and syndrome s: flagged iff s is non-zero, bit s - 1 flipped, and the codeword back iff s = p + 1 |
| HammingCode.AsWrittenSingleFlip | src/hooks/use-error-simulation.ts:304-342 | as written, one flip is flagged iff it is not the blind spot, undone iff located, and otherwise a second bit p - 2^(r-1) is flipped |
| HammingCode.AsWrittenSyndromeInRange | src/hooks/use-error-simulation.ts:328 | the as-written syndrome never exceeds the word length, so the fallback at :336-337 is dead |
| HammingCode.CorrectedOutOfRangeExample | src/hooks/use-error-simulation.ts:336-337 | with the corrected count, two flips can point past the word (101101 flipped at 2 and 3 gives syndrome 7) |
| HammingCode.AsWrittenCounterexample | src/hooks/use-error-simulation.ts:306 | 101101 with index 3 flipped: the as-written checks pass it, the corrected checks restore 101101 |
| HammingCode.CheckParity | src/hooks/use-error-simulation.ts:139-143 | the inner XOR loop computes check i |
| HammingCode.FillParityRounds | src/hooks/use-error-simulation.ts:134-146 | the parity rounds fill the array in place as FillParity specifies |
| HammingCode.PlaceDataBits | src/hooks/use-error-simulation.ts:122-131 | the data loop builds the layout in a fresh array |
| HammingCode.AddHammingCode | src/hooks/use-error-simulation.ts:110-149 | the whole encoder computes HammingEncode |
| HammingCode.HammingCheck | src/hooks/use-error-simulation.ts:307-338 | the syndrome loop and the correction compute HammingDecode |
| HammingCode.HammingExample | src/pages/methods/HammingPage.tsx:153-160 | 1011 is sent as 0110011 |
| HammingCode.HammingExampleShort | src/hooks/use-error-simulation.ts:110-149 | 101 is sent as 101101 |
| CrcCode.Step | src/hooks/use-error-simulation.ts:161-171 | one division step maps a 4-bit window to a 3-bit remainder |
| CrcCode.StepSnoc | src/hooks/use-error-simulation.ts:160-170 | bringing bit b down: with a leading 1 the generator inverts the last two places |
| CrcCode.DivideAppend | src/hooks/use-error-simulation.ts:159-171 | dividing a + b is dividing a and carrying on with b |
| CrcCode.CrcEncode | src/hooks/use-error-simulation.ts:151-176 | exactly three remainder bits are appended, and the two slices take them apart again |
| CrcCode.CrcCodewordDivides | src/pages/methods/CRCPage.tsx:150-168 | the whole codeword divided by 1011 leaves 000 |
| CrcCode.CrcDetectIff | src/hooks/use-error-simulation.ts:344-350 | a word of at least 3 bits is flagged iff its remainder is not 000 |
| CrcCode.CrcDetectShort | src/hooks/use-error-simulation.ts:344-350 | a word shorter than 3 bits is always flagged |
| CrcCode.CrcClean | src/hooks/use-error-simulation.ts:344-350 | an intact codeword is never flagged |
| CrcCode.DivideInjective | src/hooks/use-error-simulation.ts:159-171 | different starting remainders stay different through the division |
| CrcCode.CrcSingleFlip | src/hooks/use-error-simulation.ts:344-350 | any single flip is flagged |
| CrcCode.CrcExample | src/pages/methods/CRCPage.tsx:138 | 1101 is sent as 1101001 |
| CrcCode.AddCRC | src/hooks/use-error-simulation.ts:151-176 | the remainder loop computes CrcEncode for every message length, short ones included |
| CrcCode.XorGenerator | src/hooks/use-error-simulation.ts:163-166 | the XOR loop against 1011 is one division step |
| RepetitionCode.RepetitionEncode | src/hooks/use-error-simulation.ts:179-185 | the codeword has 3·len bits |
| RepetitionCode.RepetitionEncodeBits | src/hooks/use-error-simulation.ts:179-185 | bit k of the codeword is message bit k / 3 |
| RepetitionCode.RepetitionDecodeLength | src/hooks/use-error-simulation.ts:362-368 | one decoded bit per group: (\|t\| + 2) / 3 bits |
| RepetitionCode.RepetitionDecodeAt | src/hooks/use-error-simulation.ts:362-368 | decoded bit k is the majority (at least two 1s) of group k |
| RepetitionCode.RepetitionDetectAt | src/hooks/use-error-simulation.ts:370-376 | a non-uniform group anywhere makes the word flagged |
| RepetitionCode.RepetitionDetectIff | src/hooks/use-error-simulation.ts:362-376 | a word of whole groups is flagged iff one of its groups is not a clean triple |
| RepetitionCode.RepetitionCorrectsNear | src/hooks/use-error-simulation.ts:357-377 | at most one wrong bit in every group decodes to the message |
| RepetitionCode.RepetitionClean | src/hooks/use-error-simulation.ts:357-377 | an intact codeword decodes to its message and is not flagged |
| RepetitionCode.RepetitionSingleFlip | src/hooks/use-error-simulation.ts:357-377 | any single flip is flagged and corrected |
| RepetitionCode.RepetitionDetectsShortTail | src/hooks/use-error-simulation.ts:362-374 | a length that is not a multiple of 3 ends in a short group and is always flagged |
| RepetitionCode.TwoFlipsOutvote | src/pages/methods/RepetitionPage.tsx:155-157 | two flips in a triple outvote its bit and leave the group non-uniform |
| RepetitionCode.RepetitionDoubleFlipInGroup | src/pages/methods/RepetitionPage.tsx:155-157 | two flips in group k are flagged, but bit k is decoded wrongly |
| RepetitionCode.RepetitionEncodeExample | src/pages/methods/RepetitionPage.tsx:86-108 | 101 is sent as 111000111 |
| RepetitionCode.RepetitionDecodeExample | src/pages/methods/RepetitionPage.tsx:130-143 | 101010011 decodes to 101 |
| RepetitionCode.AddRepetitionCode | src/hooks/use-error-simulation.ts:179-185 | the appending loop computes RepetitionEncode |
| RepetitionCode.CheckRound | src/hooks/use-error-simulation.ts:362-374 | one round of the triplet loop keeps both loop invariants |
| RepetitionCode.RepetitionCheck | src/hooks/use-error-simulation.ts:359-377 | the triplet loop computes RepetitionDetect and RepetitionDecode |
| Corruptor.Corrupt | src/hooks/use-error-simulation.ts:233-246 | the received word has the length of the encoded word |
| Corruptor.CorruptAt | src/hooks/use-error-simulation.ts:233-246 | bit i arrives inverted iff i was drawn an odd number of times |
| Corruptor.CorruptOne | src/hooks/use-error-simulation.ts:238-243 | one draw is one flip |
| Corruptor.CorruptSamePlace | src/hooks/use-error-simulation.ts:233-246 | the same position drawn twice leaves the word intact |
| Corruptor.CorruptTwoPlaces | src/hooks/use-error-simulation.ts:233-246 | two distinct draws invert exactly those two bits |
| Corruptor.SimulateTransmission | src/hooks/use-error-simulation.ts:230-246 | the rebuild loop computes Corrupt and records the draws as errorPositions |
| Simulation.EncodeLength | src/hooks/use-error-simulation.ts:193-213 | the encoded lengths are len+1, len+8, m+r, len+3 and 3·len, always longer than a non-empty message |
| Simulation.DetectClean | src/hooks/use-error-simulation.ts:277-382 | no method flags an intact codeword; correctedMessage is the codeword, or the message under repetition |
| Simulation.DetectSingleFlip | src/hooks/use-error-simulation.ts:277-382 | a single flip is flagged by every method except Hamming at its blind spot (exactly the top parity bit of a length it checks short); Hamming restores the codeword exactly where it locates the flip, repetition restores the message, and the rest keep the damaged word |
| Simulation.DetectIntendedSingleFlip | src/hooks/use-error-simulation.ts:304-342 | with the encoder's check count, every method flags every single flip, and Hamming restores the codeword |
| Simulation.DefaultValid | src/hooks/use-error-simulation.ts:27-37 | DEFAULT_STATE is valid |
| Simulation.SetMessageValid | src/hooks/use-error-simulation.ts:50-62 | setMessage leads to a valid state, at step input when the message is accepted |
| Simulation.NextStepValid | src/hooks/use-error-simulation.ts:456-479 | nextStep keeps the simulation valid |
| Simulation.FireValid | src/hooks/use-error-simulation.ts:259-267 | in a valid state only the timer of transmission or correction is pending; firing it moves to corruption or complete and keeps validity |
| Simulation.CleanOutcome | src/hooks/use-error-simulation.ts:401-408 | with no draws nothing is flagged, correction is skipped, and correctedMessage is what was sent |
| Simulation.SamePlaceOutcome | src/hooks/use-error-simulation.ts:233-246 | the same position drawn twice records two errors, but nothing is flagged |
| Simulation.SingleFlipOutcome | src/hooks/use-error-simulation.ts:271-395 | one draw is flagged iff it is not Hamming's blind spot; Hamming's correctedMessage is the codeword iff the decoder locates the draw; repetition's is the message; the others keep the received word |
| Simulation.HammingMissOutcome | src/hooks/use-error-simulation.ts:304-342 | under Hamming with codeword length plus one not a power of two, a draw at the top parity bit is not flagged, correction is skipped, and the damaged word is delivered |
| Simulation.ParityTwoFlipsOutcome | src/hooks/use-error-simulation.ts:278-282 | parity misses two distinct draws |
| Simulation.ChecksumCancellingOutcome | src/hooks/use-error-simulation.ts:289-297 | the checksum misses cancelling draws 8 places apart |
| Simulation.RepetitionTwoFlipsOutcome | src/hooks/use-error-simulation.ts:357-377 | two draws in one triple are flagged but decoded wrongly there |
| Simulation.CleanRun | src/hooks/use-error-simulation.ts:456-479 | setMessage, encode, transmit, timer, detect and correct end at complete with nothing flagged |
| Simulation.HammingRun | src/hooks/use-error-simulation.ts:398-453 | a Hamming run with one draw: at the blind spot it completes at once with nothing flagged and the damaged word; otherwise it goes through correction and completes flagged, with the sent codeword iff the decoder locates the draw |
| Simulation.StaleTimerAfterReset | src/hooks/use-error-simulation.ts:45-47 | as written, a timer pending at reset moves the fresh state to corruption, which is not consistent and then flags an error |
| Simulation.StaleTimerAfterSetMessage | src/hooks/use-error-simulation.ts:50-62 | as written, a timer pending at setMessage completes the new simulation before it is encoded |
| Simulation.EncodeWith | src/hooks/use-error-simulation.ts:193-217 | the encoder switch, with the encoders' loops, computes Encode |
| Simulation.DetectWith | src/hooks/use-error-simulation.ts:277-386 | the detector switch, with the checkers' loops and the Hamming check count of :306, computes Detect |
| Simulation.Simulation.constructor | src/hooks/use-error-simulation.ts:40 | the fields start as DEFAULT_STATE |
| Simulation.Simulation.Reset | src/hooks/use-error-simulation.ts:45-47 | the fields become DEFAULT_STATE, with pending timers cancelled |
| Simulation.Simulation.SetMessage | src/hooks/use-error-simulation.ts:50-62 | ok iff the message matches ^[01]+$; the fields move as SetMessageState says, and stay unchanged on refusal |
| Simulation.Simulation.EncodeMessage | src/hooks/use-error-simulation.ts:188-225 | only encodedMessage and currentStep change |
| Simulation.Simulation.SimulateTransmission | src/hooks/use-error-simulation.ts:228-268 | only the received word, errorPositions, the step and the timers change |
| Simulation.Simulation.DetectErrors | src/hooks/use-error-simulation.ts:271-395 | detectedError and correctedMessage become Detect's verdict on the received word, the step becomes detection, and nothing else changes |
| Simulation.Simulation.CorrectErrors | src/hooks/use-error-simulation.ts:398-453 | only the step changes (plus a timer when an error was flagged) |
| Simulation.Simulation.NextStep | src/hooks/use-error-simulation.ts:456-479 | the fields move as NextState says, with detection by the as-written Detect |
| Simulation.Simulation.TimerFires | src/hooks/use-error-simulation.ts:444-452 | the fields move as Fire says |

## Left out

- The React machinery (`useState`, `useCallback`, dependency arrays) is not modelled. The hook's state is the class `Simulation` and its value `State`.
- `explanationText` and every display string are not modelled: they are display text only.
- `Math.random` (:234-237) is replaced by the `flips` parameter. `ValidFlips` limits it to what the draws can produce: at most two positions, each inside the word.
- Simulation.Simulation.NextStep: the draws must lie inside the encoded word (`DrawsFit`), so the source's behaviour on an empty encoded word is not modelled. There `''[0]` is undefined, so `bit === '0' ? '1' : '0'` (:242) writes '0': one draw yields "0" and a second draw at 0 yields "1". The model allows no flips there. An empty encoded word comes only from an empty message under Hamming or repetition. That happens only when the steps run from DEFAULT_STATE without a message, because `setMessage` never accepts an empty one.
- Timing is not modelled: not the delay, not the order of real time, and not stepDelay. A pending timer fires when the caller says so, and `Fire` accepts any pending timer.
- The auto-advance effect (:482-492) is not modelled separately. It only calls `nextStep`, and its own timer is cleared by the effect's cleanup.
- Not modelled: `setAutoAdvance`, `setStepDelay` and the rendering components. They are UI only.
- The `default:` branches of the three switches (:214-216, :384-385, :433-434) are not modelled: the method is a closed datatype, so they are unreachable.
- `Math.log2(len + 1) | 0` (:306) is floating point; it is modelled as the integer `FloorLog2(len + 1)`. The two agree for every length a message can have.
- The 32-bit `1 << r` in the Hamming encoder is unbounded `Pow2` here. In the source, `r` reaches 31 once the message has 2^30 - 30 bits or more. There `1 << 31` is negative and `1 << 32` wraps to 1, so the loop `while ((1 << r) < m + r + 1)` (:117) never ends and the encoder hangs. The model gives the mathematical r instead.
- `syndrome |= 1 << i` is modelled as adding 2^i. The two are equal because bit i of the syndrome is still clear at that point.
- Simulation.ResetState and Simulation.SetMessageState cancel pending timers, which the source does not do (see Findings). `Simulation.ResetAsWritten` and `Simulation.SetMessageAsWritten` are the as-written forms.
- The checksum follows the code, not the page's worked example. The example at src/pages/methods/ChecksumPage.tsx:71-96 folds the carry of 10110011 + 01101100 back in (sum 00100000, checksum 11011111). calculateChecksum takes the sum modulo 256, as its comment at :95 says (sum 00011111, checksum 11100000), and `ChecksumCode.ChecksumExample` proves the code's value.

## Findings

| source | as written | input that shows it | evidently intended | confidence | as-written member | corrected member |
|---|---|---|---|---|---|---|
| src/hooks/use-error-simulation.ts:306 | detectErrors runs `Math.log2(len + 1) \| 0` checks, one fewer than the encoder's r (:116-119) unless len + 1 is a power of two | message 101 is sent as 101101; a flip at 0-indexed 3 (the parity bit at position 4) gives syndrome 0, so it is neither flagged nor corrected | run the encoder's r checks: the least k with 2^k >= len + 1, after which every single flip is located and undone | high (proved; not executed) | HammingCode.AsWrittenCounterexample | HammingCode.HammingCorrectsSingleFlip |
| src/hooks/use-error-simulation.ts:45-47 | resetSimulation (and setMessage, and nextStep's restart) do not cancel the setTimeout callbacks armed at :259-267 and :444-452 | at step transmission, press Reset; the pending callback then moves the new default state to 'corruption' with nothing transmitted, and the next step flags an error in the empty word | cancel the pending callbacks on reset, so a fresh simulation starts at 'input' | high (proved; not executed) | Simulation.StaleTimerAfterReset | Simulation.SetMessageValid |
