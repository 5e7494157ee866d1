/** Raw audio frames: the capture buffer and its decoding into 16-bit PCM samples.
    The buffer is a Java `byte[]` and is read through a little-endian `ShortBuffer`. */
module PcmFrame {

  /** Size of the capture buffer in bytes. */
  const BUFFER_SIZE: nat := 1280
  /** Number of 16-bit samples decoded from one buffer. */
  const SAMPLE_COUNT: nat := BUFFER_SIZE / 2

  /** A Java `byte`: a signed 8-bit value. */
  type Byte = b: int | -128 <= b < 128

  /** A Java `short`: a signed 16-bit value. */
  type Short = s: int | -32768 <= s < 32768

  /** The byte as an unsigned value, as Java's `b & 0xff` gives it. */
  function Unsigned(b: Byte): (u: int)
    ensures 0 <= u < 256
    ensures (u - b) % 256 == 0
  {
    if b < 0 then b + 256 else b
  }

  /** The short whose low byte is `lo` and whose high byte is `hi`
      (what a little-endian `getShort` returns for the pair `lo, hi`). */
  function ShortLE(lo: Byte, hi: Byte): (s: Short)
    ensures s / 256 == hi
    ensures s % 256 == Unsigned(lo)
  {
    hi * 256 + Unsigned(lo)
  }

  /** Low byte of a short (its bits 0-7, as a signed byte). */
  function LowByte(s: Short): (b: Byte)
  {
    var u := s % 256;
    if u < 128 then u else u - 256
  }

  /** High byte of a short (its bits 8-15, as a signed byte). */
  function HighByte(s: Short): (b: Byte)
  {
    s / 256
  }

  /** Decoding a byte pair gives back the short that was split into it. */
  lemma ShortRoundTrip(s: Short)
    ensures ShortLE(LowByte(s), HighByte(s)) == s
  {
  }

  /** Splitting a decoded short gives back the byte pair it came from. */
  lemma BytePairRoundTrip(lo: Byte, hi: Byte)
    ensures LowByte(ShortLE(lo, hi)) == lo
    ensures HighByte(ShortLE(lo, hi)) == hi
  {
  }

  /** The sign of the decoded sample is the sign bit of the high byte, and
      the pair 0, 0 is the only one that decodes to 0. */
  lemma ShortSign(lo: Byte, hi: Byte)
    ensures ShortLE(lo, hi) < 0 <==> hi < 0
    ensures ShortLE(lo, hi) == 0 <==> lo == 0 && hi == 0
  {
  }

  /** The buffer read as consecutive little-endian shorts: sample `i` is made of
      bytes `2i` (low) and `2i+1` (high); an odd trailing byte is ignored. */
  function Decode(buf: seq<Byte>): (samples: seq<Short>)
    ensures |samples| == |buf| / 2
  {
    seq(|buf| / 2, i requires 0 <= i < |buf| / 2 => ShortLE(buf[2 * i], buf[2 * i + 1]))
  }

  /** The byte image of a sequence of shorts, two bytes each, low byte first. */
  function Encode(samples: seq<Short>): (buf: seq<Byte>)
    ensures |buf| == 2 * |samples|
  {
    if samples == [] then [] else [LowByte(samples[0]), HighByte(samples[0])] + Encode(samples[1..])
  }

  /** Bytes `2i` and `2i+1` of an encoding are the low and high byte of sample `i`. */
  lemma {:induction false} EncodeAt(samples: seq<Short>, i: nat)
    requires i < |samples|
    ensures Encode(samples)[2 * i] == LowByte(samples[i])
    ensures Encode(samples)[2 * i + 1] == HighByte(samples[i])
  {
    if i > 0 {
      EncodeAt(samples[1..], i - 1);
    }
  }

  /** Decoding an encoded sequence of shorts returns it unchanged. */
  lemma DecodeEncode(samples: seq<Short>)
    ensures Decode(Encode(samples)) == samples
  {
    var buf := Encode(samples);
    forall i | 0 <= i < |samples|
      ensures Decode(buf)[i] == samples[i]
    {
      EncodeAt(samples, i);
      ShortRoundTrip(samples[i]);
    }
  }

  /** Encoding the decoded samples of an even-length buffer gives the buffer back:
      decoding loses nothing. */
  lemma EncodeDecode(buf: seq<Byte>)
    requires |buf| % 2 == 0
    ensures Encode(Decode(buf)) == buf
  {
    var samples := Decode(buf);
    var back := Encode(samples);
    forall k | 0 <= k < |buf|
      ensures back[k] == buf[k]
    {
      var i := k / 2;
      EncodeAt(samples, i);
      BytePairRoundTrip(buf[2 * i], buf[2 * i + 1]);
    }
  }

  /** Sample `i` of a decoded buffer is the short made of bytes `2i` and `2i+1`. */
  lemma DecodeAt(buf: seq<Byte>, i: nat)
    requires i < |buf| / 2
    ensures 2 * i + 1 < |buf|
    ensures Decode(buf)[i] == ShortLE(buf[2 * i], buf[2 * i + 1])
  {
  }

  /** A buffer of zero bytes decodes to samples that are all zero. */
  lemma DecodeZeros(buf: seq<Byte>)
    requires forall k :: 0 <= k < |buf| ==> buf[k] == 0
    ensures forall i :: 0 <= i < |Decode(buf)| ==> Decode(buf)[i] == 0
  {
    forall i | 0 <= i < |Decode(buf)|
      ensures Decode(buf)[i] == 0
    {
      DecodeAt(buf, i);
    }
  }
}
