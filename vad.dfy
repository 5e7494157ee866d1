/** Voice activity decisions (`performVAD`): a frame is speech when its energy is
    strictly above a fixed threshold, and each decision is recorded as 1 or 0 in a
    history that is emptied whenever it is found full. */
module Vad {
  import opened PcmFrame
  import opened Energy

  /** Energy above which a frame counts as speech. */
  const SILENCE_THRESHOLD: nat := 10000

  /** Number of entries the history holds before it is cleared. */
  const HISTORY_CAPACITY: nat := 600

  /** The decision for a frame of the given energy: strictly above the threshold is speech. */
  function IsSpeech(rms: int): (speech: bool)
    ensures !speech <==> rms <= SILENCE_THRESHOLD
  {
    rms > SILENCE_THRESHOLD
  }

  /** The threshold itself is silence; one above it is speech. */
  lemma ThresholdBoundary()
    ensures !IsSpeech(SILENCE_THRESHOLD)
    ensures IsSpeech(SILENCE_THRESHOLD + 1)
  {
  }

  /** The entry recorded for a decision: 1 for speech, 0 for silence. */
  function Entry(speech: bool): (e: int)
    ensures e == 0 || e == 1
    ensures e == 1 <==> speech
  {
    if speech then 1 else 0
  }

  /** The entries recorded for a sequence of decisions, in the same order. */
  function Entries(decisions: seq<bool>): (es: seq<int>)
    ensures |es| == |decisions|
  {
    seq(|decisions|, i requires 0 <= i < |decisions| => Entry(decisions[i]))
  }

  /** Recording one more decision adds its entry at the end. */
  lemma EntriesSnoc(decisions: seq<bool>, d: bool)
    ensures Entries(decisions + [d]) == Entries(decisions) + [Entry(d)]
  {
  }

  /** The history after recording entry `e`: a history found at or above capacity
      is cleared first, otherwise `e` goes after the entries already there. */
  function Append(history: seq<int>, e: int): (h: seq<int>)
    ensures 1 <= |h| <= HISTORY_CAPACITY
    ensures h[|h| - 1] == e
    ensures |history| < HISTORY_CAPACITY ==>
              |h| == |history| + 1 && forall i :: 0 <= i < |history| ==> h[i] == history[i]
    ensures |history| >= HISTORY_CAPACITY ==> |h| == 1
  {
    if |history| >= HISTORY_CAPACITY then [e] else history + [e]
  }

  /** The history after recording the given decisions, oldest first, starting
      from the empty history the component is created with. */
  function Run(decisions: seq<bool>): (h: seq<int>)
    ensures |h| <= HISTORY_CAPACITY
    ensures decisions != [] ==> 1 <= |h|
    ensures forall i :: 0 <= i < |h| ==> h[i] == 0 || h[i] == 1
  {
    if decisions == [] then []
    else
      var last := |decisions| - 1;
      Append(Run(decisions[..last]), Entry(decisions[last]))
  }

  /** Index of the first decision still in the history after `n >= 1` decisions:
      the current history was started (created empty or cleared) when decision
      number `start` was recorded. */
  function HistoryStart(n: nat): (start: nat)
    requires n >= 1
    ensures start < n <= start + HISTORY_CAPACITY
  {
    (n - 1) / HISTORY_CAPACITY * HISTORY_CAPACITY
  }

  /** Where the history starts when decision `m` finds it full or not. */
  lemma HistoryStartStep(m: nat)
    requires m >= 1
    ensures m % HISTORY_CAPACITY == 0 ==> HistoryStart(m) == m - HISTORY_CAPACITY && HistoryStart(m + 1) == m
    ensures m % HISTORY_CAPACITY != 0 ==> HistoryStart(m + 1) == HistoryStart(m)
  {
    var j := m / HISTORY_CAPACITY;
    if m % HISTORY_CAPACITY == 0 {
      assert m - 1 == (j - 1) * HISTORY_CAPACITY + (HISTORY_CAPACITY - 1);
    } else {
      assert m - 1 == j * HISTORY_CAPACITY + (m % HISTORY_CAPACITY - 1);
    }
  }

  /** Splitting off the newest of the decisions made since `k`. */
  lemma SplitNewest(decisions: seq<bool>, k: nat)
    requires k < |decisions|
    ensures decisions[..|decisions| - 1][k..] + [decisions[|decisions| - 1]] == decisions[k..]
  {
  }

  /** After `n >= 1` decisions the history holds exactly the entries of the
      decisions from `HistoryStart(n)` on, in the order they were made. */
  lemma {:induction false} RunClosedForm(decisions: seq<bool>)
    requires decisions != []
    ensures Run(decisions) == Entries(decisions[HistoryStart(|decisions|)..])
  {
    var m := |decisions| - 1;
    var prev := decisions[..m];
    if m == 0 {
      assert Run(prev) == [];
    } else {
      RunClosedForm(prev);
      HistoryStartStep(m);
      if m % HISTORY_CAPACITY == 0 {
        assert |Run(prev)| == HISTORY_CAPACITY;
      } else {
        var k := HistoryStart(m);
        SplitNewest(decisions, k);
        EntriesSnoc(prev[k..], decisions[m]);
      }
    }
  }

  /** Up to capacity, the history is every decision made, in order. */
  lemma RunWithinCapacity(decisions: seq<bool>)
    requires |decisions| <= HISTORY_CAPACITY
    ensures Run(decisions) == Entries(decisions)
  {
    if decisions != [] {
      RunClosedForm(decisions);
      assert decisions[0..] == decisions;
    }
  }

  /** The decision after a full history replaces it: it is the only entry left. */
  lemma RunPastCapacity(decisions: seq<bool>)
    requires |decisions| == HISTORY_CAPACITY + 1
    ensures Run(decisions) == [Entry(decisions[HISTORY_CAPACITY])]
  {
    RunClosedForm(decisions);
  }

  /** A buffer is classified as speech exactly when its mean square reaches
      10001 squared: the threshold decided without a square root. */
  lemma SpeechIffMeanSquare(buf: seq<Byte>)
    requires |buf| == BUFFER_SIZE
    ensures IsSpeech(Rms(buf)) <==> MeanSquare(Decode(buf)) >= 100020001
  {
    RmsAbove(Decode(buf), SILENCE_THRESHOLD);
  }

  /** The samples `+v, -v, +v, ...` filling one buffer. */
  function Alternating(v: nat): (samples: seq<Short>)
    requires v < 32768
    ensures |samples| == SAMPLE_COUNT
    ensures forall i :: 0 <= i < |samples| ==> Magnitude(samples[i]) == v
  {
    seq(SAMPLE_COUNT, i requires 0 <= i < SAMPLE_COUNT => if i % 2 == 0 then v as int else -(v as int))
  }

  /** A buffer alternating between `+20000` and `-20000` has energy exactly 20000
      and is speech; a buffer of zero bytes has energy 0 and is silence. */
  lemma LoudAndSilentBuffers(buf: seq<Byte>)
    requires |buf| == BUFFER_SIZE
    requires forall k :: 0 <= k < |buf| ==> buf[k] == 0
    ensures Rms(Encode(Alternating(20000))) == 20000 && IsSpeech(Rms(Encode(Alternating(20000))))
    ensures Rms(buf) == 0 && !IsSpeech(Rms(buf))
  {
    RmsOfEncodedConstantMagnitude(Alternating(20000), 20000);
    RmsOfZeroBuffer(buf);
  }
}
