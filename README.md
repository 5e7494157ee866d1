# Voice activity detection: energy, threshold and decision history

This project models the analysis half of `VoiceActivityGraph`, a Swing panel that
samples a microphone every 50 ms and draws the waveform, its energy and a bar
chart of speech/silence decisions. Each timer firing does the following:

1. The device fills the 1280-byte `audioBuffer`.
2. `calculateRMSValue` reads that buffer as 640 little-endian signed 16-bit
   samples. It sums their squares in a `long`, divides by 640 and truncates the
   square root to an `int`.
3. `performVAD` classifies the frame as speech when that energy is strictly above
   10000. It records 1 or 0 in `vadResults`. A list that already holds 600 entries
   is cleared before the new entry goes in.

The model has four modules:

- `PcmFrame` (`pcm_frame.dfy`): Java bytes and shorts as bounded integers. It holds
  the little-endian decoding of the buffer and its inverse, with both round trips
  proved.
- `Energy` (`energy.dfy`): the sum of squares, the loop that computes it with Java
  `int`/`long` wrap-around written out, the integer floor square root, the mean
  square and the energy (RMS) of a frame. It proves that nothing overflows and
  that the result is at most 32768. It computes the energy of a silent frame and
  of a frame of constant magnitude.
- `Vad` (`vad.dfy`): the threshold rule, the 0/1 entries and the capacity-bounded
  history as functions. It includes a closed form for the history after any number
  of decisions.
- `Graph` (`voice_activity_graph.dfy`): the class `VoiceActivityGraph`. Its fields
  are the source's fields. Its methods `Read`, `CalculateRMSValue`, `PerformVAD`
  and `Tick` update them in place. A ghost field records every decision made, and
  the class invariant ties `vadResults` to `Vad.Run` of those decisions.

`Math.sqrt` followed by the `(int)` cast is modelled as the integer floor square
root `Energy.ISqrt`. The argument is a mean of squares of shorts, so it is at most
2^30. For such arguments a double holds the argument and its square root exactly
enough that the truncated result is the floor square root.

Decoding follows the code: it is little-endian. The capture line is opened with
a big-endian format (`VoiceActivityGraph.java:45`), so on a real device the bytes
of each sample are paired the other way round. The model takes the buffer's bytes
as given and decodes them as the code does.

A sample may be -32768, so a square can be 32768² = 2^30. This exceeds
32767², the square of the largest positive sample. The energy is therefore
bounded by 32768, not 32767, in the code and in the model.

## Model

| member | source | states |
|---|---|---|
| `PcmFrame.Unsigned` | src/main/java/com/voice/activity/VoiceActivityGraph.java:65 | a byte read as unsigned (`b & 0xff`) lies in 0..255 and is congruent to the byte modulo 256 |
| `PcmFrame.ShortLE` | src/main/java/com/voice/activity/VoiceActivityGraph.java:65 | the short with low byte lo and high byte hi, as a little-endian `getShort` reads it: its high byte (floor division by 256) is hi and its low 8 bits are lo read as unsigned |
| `PcmFrame.ShortRoundTrip` | src/main/java/com/voice/activity/VoiceActivityGraph.java:65 | splitting any short into its low and high byte and decoding the pair gives the short back |
| `PcmFrame.BytePairRoundTrip` | src/main/java/com/voice/activity/VoiceActivityGraph.java:65 | decoding any byte pair and splitting the result gives back the same low and high byte |
| `PcmFrame.ShortSign` | src/main/java/com/voice/activity/VoiceActivityGraph.java:65 | a decoded sample is negative iff its high byte is negative, and is zero iff both bytes are zero |
| `PcmFrame.Decode` | src/main/java/com/voice/activity/VoiceActivityGraph.java:64-65 | a buffer of n bytes yields n/2 samples; for the 1280-byte buffer that is 640 |
| `PcmFrame.Encode` | src/main/java/com/voice/activity/VoiceActivityGraph.java:65 | the inverse byte image of a sample sequence has two bytes per sample |
| `PcmFrame.EncodeAt` | src/main/java/com/voice/activity/VoiceActivityGraph.java:65 | in the byte image, bytes 2i and 2i+1 are the low and then the high byte of sample i (little-endian) |
| `PcmFrame.DecodeAt` | src/main/java/com/voice/activity/VoiceActivityGraph.java:64-65 | sample i is the little-endian short of bytes 2i (low) and 2i+1 (high), both within the buffer |
| `PcmFrame.DecodeEncode` | src/main/java/com/voice/activity/VoiceActivityGraph.java:64-65 | decoding the byte image of any sample sequence returns that sequence |
| `PcmFrame.EncodeDecode` | src/main/java/com/voice/activity/VoiceActivityGraph.java:64-65 | for an even-length buffer, the byte image of its decoded samples is the buffer itself: decoding loses nothing |
| `PcmFrame.DecodeZeros` | src/main/java/com/voice/activity/VoiceActivityGraph.java:64-65 | a buffer of zero bytes decodes to all-zero samples |
| `Energy.WrapInt` | src/main/java/com/voice/activity/VoiceActivityGraph.java:69 | Java `int` arithmetic stays in the 32-bit range, agrees with the exact value modulo 2^32, and is the exact value when that fits |
| `Energy.WrapLong` | src/main/java/com/voice/activity/VoiceActivityGraph.java:67-69 | Java `long` arithmetic stays in the 64-bit range, agrees with the exact value modulo 2^64, and is the exact value when that fits |
| `Energy.Magnitude` | src/main/java/com/voice/activity/VoiceActivityGraph.java:69 | the magnitude of a short is at most 32768 and is zero only for the zero sample |
| `Energy.Square` | src/main/java/com/voice/activity/VoiceActivityGraph.java:69 | each term `sample * sample` lies in [0, 2^30], so it fits in a Java `int`, and is zero iff the sample is |
| `Energy.SumSquares` | src/main/java/com/voice/activity/VoiceActivityGraph.java:67-70 | the sum of squares of n samples lies in [0, n·2^30] |
| `Energy.SumSquaresZero` | src/main/java/com/voice/activity/VoiceActivityGraph.java:67-70 | the sum of squares is zero iff every sample is zero |
| `Energy.SumSquaresConstant` | src/main/java/com/voice/activity/VoiceActivityGraph.java:67-70 | when every sample squares to v², the sum is exactly n·v² |
| `Energy.SumOfSquares` | src/main/java/com/voice/activity/VoiceActivityGraph.java:67-70 | the accumulation loop, run with `int` products and a `long` accumulator, computes the exact sum of squares, at most 640·2^30; neither type wraps |
| `Energy.ISqrt` | src/main/java/com/voice/activity/VoiceActivityGraph.java:72 | the result r is the floor square root: r² ≤ n < (r+1)² |
| `Energy.ISqrtUnique` | src/main/java/com/voice/activity/VoiceActivityGraph.java:72 | any r with r² ≤ n < (r+1)² is the floor square root of n, so the truncated square root is determined |
| `Energy.ISqrtAbove` | src/main/java/com/voice/activity/VoiceActivityGraph.java:72 | the floor square root of n exceeds t iff n ≥ (t+1)² |
| `Energy.MeanSquare` | src/main/java/com/voice/activity/VoiceActivityGraph.java:72 | the truncated quotient m of the sum by the sample count satisfies m·n ≤ sum < (m+1)·n, and m ≤ 2^30 |
| `Energy.RmsOf` | src/main/java/com/voice/activity/VoiceActivityGraph.java:72 | the energy is the floor square root of the truncated mean square, and is at most 32768 |
| `Energy.Rms` | src/main/java/com/voice/activity/VoiceActivityGraph.java:63-73 | the energy of any 1280-byte buffer lies in [0, 32768], so the `(int)` cast is exact |
| `Energy.RmsOfSilence` | src/main/java/com/voice/activity/VoiceActivityGraph.java:67-72 | all-zero samples give energy 0 |
| `Energy.RmsOfConstantMagnitude` | src/main/java/com/voice/activity/VoiceActivityGraph.java:67-72 | samples that all have magnitude v give energy exactly v, because the mean square is exactly v² |
| `Energy.RmsAbove` | src/main/java/com/voice/activity/VoiceActivityGraph.java:72 | the energy exceeds t iff the mean square is at least (t+1)² |
| `Energy.RmsOfZeroBuffer` | src/main/java/com/voice/activity/VoiceActivityGraph.java:63-73 | a buffer of zero bytes has energy 0 |
| `Energy.RmsOfEncodedConstantMagnitude` | src/main/java/com/voice/activity/VoiceActivityGraph.java:63-73 | the buffer holding 640 samples of magnitude v has energy exactly v |
| `Vad.IsSpeech` | src/main/java/com/voice/activity/VoiceActivityGraph.java:76 | speech iff the energy is strictly above 10000; silence iff it is at most 10000 |
| `Vad.ThresholdBoundary` | src/main/java/com/voice/activity/VoiceActivityGraph.java:76 | energy exactly 10000 is silence and 10001 is speech: the comparison is strict |
| `Vad.Entry` | src/main/java/com/voice/activity/VoiceActivityGraph.java:79 | every entry is 0 or 1, and it is 1 iff the decision is speech |
| `Vad.Entries` | src/main/java/com/voice/activity/VoiceActivityGraph.java:79 | the entries of a sequence of decisions keep its length and order |
| `Vad.Append` | src/main/java/com/voice/activity/VoiceActivityGraph.java:77-79 | after one append the history has 1 to 600 entries and the new entry is last; below capacity the length grows by one and every earlier entry is unchanged; at or above capacity only the new entry remains |
| `Vad.Run` | src/main/java/com/voice/activity/VoiceActivityGraph.java:77-79 | the history after any decisions from empty never exceeds 600 entries, holds at least one once a decision was made, and holds only 0s and 1s |
| `Vad.HistoryStart` | src/main/java/com/voice/activity/VoiceActivityGraph.java:77-79 | after n ≥ 1 decisions the current history was started (created empty or cleared) at decision `start`, with start < n ≤ start + 600 |
| `Vad.RunClosedForm` | src/main/java/com/voice/activity/VoiceActivityGraph.java:77-79 | after n ≥ 1 decisions the history is exactly the entries of decisions ⌊(n−1)/600⌋·600 onward, in chronological order (a full reset, not a sliding window) |
| `Vad.RunWithinCapacity` | src/main/java/com/voice/activity/VoiceActivityGraph.java:77-79 | up to 600 decisions from empty give a history of all of them, in order |
| `Vad.RunPastCapacity` | src/main/java/com/voice/activity/VoiceActivityGraph.java:77-79 | decision 601 from empty leaves a history holding only that decision's entry |
| `Vad.SpeechIffMeanSquare` | src/main/java/com/voice/activity/VoiceActivityGraph.java:72-76 | a buffer is speech iff its truncated mean square is at least 10001² |
| `Vad.LoudAndSilentBuffers` | src/main/java/com/voice/activity/VoiceActivityGraph.java:63-76 | the buffer alternating ±20000 has energy exactly 20000 and is speech; a zero buffer has energy 0 and is silence |
| `Graph.VoiceActivityGraph.constructor` | src/main/java/com/voice/activity/VoiceActivityGraph.java:39-42 | the panel starts with a zeroed 1280-byte buffer, energy 0, silence and an empty history |
| `Graph.VoiceActivityGraph.Read` | src/main/java/com/voice/activity/VoiceActivityGraph.java:52 | the bytes read overwrite the front of the buffer in place; after a short read the tail keeps the previous bytes |
| `Graph.VoiceActivityGraph.CalculateRMSValue` | src/main/java/com/voice/activity/VoiceActivityGraph.java:63-73 | `rmsValue` becomes the energy of the current buffer; nothing else changes |
| `Graph.VoiceActivityGraph.PerformVAD` | src/main/java/com/voice/activity/VoiceActivityGraph.java:75-80 | `isSpeechDetected` becomes "energy > 10000" and the history becomes the old one with that decision appended under the clear-when-full rule; the invariant history = Run(all decisions) is kept |
| `Graph.VoiceActivityGraph.Tick` | src/main/java/com/voice/activity/VoiceActivityGraph.java:51-56 | one timer firing reads, measures, classifies and records in that order; afterwards the history has 1 to 600 entries |

## Left out

- Audio capture (`AudioFormat`, `AudioSystem.getLine`, `open`, `start`) is a device API. The bytes a read delivers are a parameter of `Tick`. The count `line.read` returns is ignored by the code, so the model takes whatever bytes arrive, at most 1280 of them.
- The Swing `Timer` and `repaint` are event-loop plumbing. Each timer firing is one call to `Tick`, and firings do not overlap.
- The swallowed `LineUnavailableException` has no logic of its own. Without a device no tick ever runs, and the state stays as the constructor leaves it.
- `paintComponent`, `drawVADGraph` and `main` are drawing and window code. They read the state but do not change it.
- `Math.sqrt` on doubles is not modelled. The integer floor square root stands in for it, which is exact for the arguments that occur (at most 2^30).
- The division by `shortBuffer.length` is not modelled for an empty buffer. The buffer always has 1280 bytes, so the divisor is always 640.
- `paintComponent` reads the same buffer and list between ticks, on the same Swing event thread that runs the timer. The model omits the painter, which changes no state.
