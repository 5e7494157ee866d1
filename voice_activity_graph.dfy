/** The analysis state of the voice activity panel and its per-tick pipeline:
    each timer firing reads a buffer of audio, computes its energy, classifies it
    and records the decision. */
module Graph {
  import opened PcmFrame
  import opened Energy
  import opened Vad

  class VoiceActivityGraph {
    /** The capture buffer, refilled in place on every tick. */
    var audioBuffer: array<Byte>
    /** Energy of the buffer as of the last tick. */
    var rmsValue: int
    /** Decision for the buffer as of the last tick. */
    var isSpeechDetected: bool
    /** Recorded decisions, 1 for speech and 0 for silence. */
    var vadResults: seq<int>
    /** Every decision made since construction, oldest first. */
    ghost var decisions: seq<bool>

    /** The buffer has its fixed size, the energy its range, and the recorded
        history is the one the decisions so far produce. */
    ghost predicate Valid()
      reads this
    {
      audioBuffer.Length == BUFFER_SIZE &&
      0 <= rmsValue <= MAX_RMS &&
      vadResults == Run(decisions) &&
      (decisions != [] ==> isSpeechDetected == decisions[|decisions| - 1])
    }

    /** A zeroed buffer, energy 0, silence, and an empty history. */
    constructor ()
      ensures Valid() && fresh(audioBuffer)
      ensures forall k :: 0 <= k < audioBuffer.Length ==> audioBuffer[k] == 0
      ensures rmsValue == 0 && !isSpeechDetected
      ensures vadResults == [] && decisions == []
    {
      audioBuffer := new Byte[BUFFER_SIZE](_ => 0);
      rmsValue := 0;
      isSpeechDetected := false;
      vadResults := [];
      decisions := [];
    }

    /** The device read: the bytes delivered overwrite the front of the buffer;
        after a short read the rest of the buffer keeps the previous tick's bytes. */
    method Read(data: seq<Byte>)
      requires Valid()
      requires |data| <= BUFFER_SIZE
      modifies audioBuffer
      ensures Valid()
      ensures audioBuffer[..] == data + old(audioBuffer[|data|..])
    {
      for i := 0 to |data|
        invariant forall k :: 0 <= k < i ==> audioBuffer[k] == data[k]
        invariant forall k :: i <= k < audioBuffer.Length ==> audioBuffer[k] == old(audioBuffer[k])
      {
        audioBuffer[i] := data[i];
      }
      assert audioBuffer[..] == data + old(audioBuffer[|data|..]);
    }

    /** Sets `rmsValue` to the energy of the current buffer. */
    method CalculateRMSValue()
      requires Valid()
      modifies this`rmsValue
      ensures Valid()
      ensures rmsValue == Rms(audioBuffer[..])
    {
      var shortBuffer := Decode(audioBuffer[..]);
      assert |shortBuffer| == SAMPLE_COUNT;
      var sumSquared := SumOfSquares(shortBuffer);
      var mean := sumSquared / |shortBuffer|;
      assert mean == MeanSquare(shortBuffer);
      rmsValue := ISqrt(mean);
      assert rmsValue == RmsOf(shortBuffer);
    }

    /** Classifies the current energy and records the decision, clearing a
        history that is already at capacity first. */
    method PerformVAD()
      requires Valid()
      modifies this`isSpeechDetected, this`vadResults, this`decisions
      ensures Valid()
      ensures isSpeechDetected == IsSpeech(rmsValue)
      ensures decisions == old(decisions) + [isSpeechDetected]
      ensures vadResults == Append(old(vadResults), Entry(isSpeechDetected))
    {
      isSpeechDetected := IsSpeech(rmsValue);
      if |vadResults| >= HISTORY_CAPACITY {
        vadResults := [];
      }
      vadResults := vadResults + [Entry(isSpeechDetected)];
      decisions := decisions + [isSpeechDetected];
      assert decisions[..|decisions| - 1] == old(decisions);
    }

    /** One timer firing: read, measure, classify, record. */
    method Tick(data: seq<Byte>)
      requires Valid()
      requires |data| <= BUFFER_SIZE
      modifies this, audioBuffer
      ensures Valid()
      ensures audioBuffer == old(audioBuffer)
      ensures audioBuffer[..] == data + old(audioBuffer[|data|..])
      ensures rmsValue == Rms(audioBuffer[..])
      ensures isSpeechDetected == IsSpeech(rmsValue)
      ensures decisions == old(decisions) + [isSpeechDetected]
      ensures vadResults == Append(old(vadResults), Entry(isSpeechDetected))
      ensures 1 <= |vadResults| <= HISTORY_CAPACITY
    {
      Read(data);
      CalculateRMSValue();
      PerformVAD();
    }
  }
}
