/**
  Turning a text-to-speech payload into a playable buffer: the binary string
  is copied into bytes, the bytes are read as signed 16-bit little-endian
  samples, and the interleaved samples are split into one array per channel,
  each sample scaled into [-1, 1).
 */
module Pcm {
  import opened Common

  newtype byte = x: int | 0 <= x < 256

  newtype int16 = x: int | -32768 <= x < 32768

  // ---------------------------------------------------------------------------
  // Binary string to bytes

  /**
    The bytes a `Uint8Array` holds after storing each character code of
    `binary`: storing into a `Uint8Array` keeps the code modulo 256.
   */
  function CharCodes(binary: string): (r: seq<byte>)
    ensures |r| == |binary|
    ensures forall i :: 0 <= i < |r| ==> r[i] as int == binary[i] as int % 256
  {
    if |binary| == 0 then [] else [(binary[0] as int % 256) as byte] + CharCodes(binary[1..])
  }

  /** The binary string whose character codes are `bytes`, as `atob` would produce it. */
  function BinaryString(bytes: seq<byte>): (s: string)
    ensures |s| == |bytes|
    ensures forall i :: 0 <= i < |s| ==> s[i] as int == bytes[i] as int
  {
    if |bytes| == 0 then [] else [bytes[0] as int as char] + BinaryString(bytes[1..])
  }

  /** Every character of `atob`'s output is below 256. */
  predicate IsBinaryString(s: string)
  {
    forall i :: 0 <= i < |s| ==> s[i] as int < 256
  }

  /** Copying character codes loses nothing from a binary string... */
  lemma BinaryStringOfCharCodes(binary: string)
    requires IsBinaryString(binary)
    ensures BinaryString(CharCodes(binary)) == binary
  {
    var r := BinaryString(CharCodes(binary));
    forall i | 0 <= i < |binary|
      ensures r[i] == binary[i]
    {
      assert r[i] as int == binary[i] as int;
    }
  }

  /** ...and every byte sequence is the copy of some binary string. */
  lemma CharCodesOfBinaryString(bytes: seq<byte>)
    ensures IsBinaryString(BinaryString(bytes))
    ensures CharCodes(BinaryString(bytes)) == bytes
  {
  }

  /** `decodeBase64` after `atob`: copy the character codes of `binary` into a new byte array. */
  method DecodeBase64(binary: string) returns (bytes: array<byte>)
    ensures fresh(bytes)
    ensures bytes[..] == CharCodes(binary)
  {
    bytes := new byte[|binary|](_ => 0);
    for i := 0 to |binary|
      invariant forall k :: 0 <= k < i ==> bytes[k] as int == binary[k] as int % 256
    {
      bytes[i] := (binary[i] as int % 256) as byte;
    }
  }

  // ---------------------------------------------------------------------------
  // Bytes to 16-bit samples (the Int16Array view, read little-endian)

  /** The signed 16-bit value whose little-endian bytes are `lo`, `hi`. */
  function FromLittleEndian(lo: byte, hi: byte): (r: int16)
    ensures r as int % 65536 == lo as int + 256 * hi as int
    ensures r < 0 <==> hi >= 128
  {
    var u := lo as int + 256 * hi as int;
    if u >= 32768 then (u - 65536) as int16 else u as int16
  }

  /** The little-endian bytes of a signed 16-bit value (two's complement). */
  function ToLittleEndian(s: int16): (r: (byte, byte))
  {
    var u := if s < 0 then s as int + 65536 else s as int;
    ((u % 256) as byte, (u / 256) as byte)
  }

  lemma LittleEndianRoundTrip(s: int16)
    ensures FromLittleEndian(ToLittleEndian(s).0, ToLittleEndian(s).1) == s
  {
  }

  lemma LittleEndianBytesRoundTrip(lo: byte, hi: byte)
    ensures ToLittleEndian(FromLittleEndian(lo, hi)) == (lo, hi)
  {
  }

  /** `new Int16Array(bytes.buffer)`: sample `k` is made of bytes `2k` and `2k+1`. */
  function Int16Samples(bytes: seq<byte>): (r: seq<int16>)
    requires |bytes| % 2 == 0
    ensures |r| == |bytes| / 2
    ensures forall k :: 0 <= k < |r| ==> r[k] == FromLittleEndian(bytes[2 * k], bytes[2 * k + 1])
  {
    if |bytes| == 0 then []
    else [FromLittleEndian(bytes[0], bytes[1])] + Int16Samples(bytes[2..])
  }

  /** The little-endian byte image of a sample sequence. */
  function Int16Bytes(samples: seq<int16>): (r: seq<byte>)
    ensures |r| == 2 * |samples|
  {
    if |samples| == 0 then []
    else
      var (lo, hi) := ToLittleEndian(samples[0]);
      [lo, hi] + Int16Bytes(samples[1..])
  }

  lemma {:induction false} SamplesOfBytes(samples: seq<int16>)
    ensures Int16Samples(Int16Bytes(samples)) == samples
  {
    if |samples| > 0 {
      var b := Int16Bytes(samples);
      assert b[2..] == Int16Bytes(samples[1..]);
      SamplesOfBytes(samples[1..]);
      LittleEndianRoundTrip(samples[0]);
    }
  }

  lemma {:induction false} BytesOfSamples(bytes: seq<byte>)
    requires |bytes| % 2 == 0
    ensures Int16Bytes(Int16Samples(bytes)) == bytes
  {
    if |bytes| > 0 {
      var s := Int16Samples(bytes);
      assert s[1..] == Int16Samples(bytes[2..]);
      BytesOfSamples(bytes[2..]);
      LittleEndianBytesRoundTrip(bytes[0], bytes[1]);
      assert bytes == [bytes[0], bytes[1]] + bytes[2..];
    }
  }

  // ---------------------------------------------------------------------------
  // Scaling and de-interleaving

  /** A sample scaled by 1/32768, as an exact real. */
  function Scale(s: int16): (v: real)
    ensures -1.0 <= v < 1.0
    ensures v * 32768.0 == s as real
  {
    s as real / 32768.0
  }

  /** The scale is asymmetric: the lowest sample reaches -1, the highest stops short of 1. */
  lemma ScaleEndpoints()
    ensures Scale(-32768) == -1.0
    ensures Scale(32767) == 32767.0 / 32768.0 && Scale(32767) < 1.0
    ensures Scale(0) == 0.0
  {
  }

  function ScaleAll(samples: seq<int16>): (r: seq<real>)
    ensures |r| == |samples|
    ensures forall k :: 0 <= k < |r| ==> r[k] == Scale(samples[k])
  {
    if |samples| == 0 then [] else [Scale(samples[0])] + ScaleAll(samples[1..])
  }

  lemma InterleavedIndex(i: nat, c: nat, n: nat, frames: nat)
    requires i < frames && c < n
    ensures i * n + c < frames * n
  {
    assert (i + 1) * n <= frames * n by {
      assert i + 1 <= frames;
    }
  }

  /** Channel `c` of an interleaved stream with `n` channels: frame `i` is sample `i*n + c`. */
  function Channel(samples: seq<int16>, n: nat, c: nat, frames: nat): (r: seq<real>)
    requires c < n && frames * n <= |samples|
    ensures |r| == frames
    ensures forall i :: 0 <= i < frames ==> i * n + c < |samples| && r[i] == Scale(samples[i * n + c])
  {
    assert forall i :: 0 <= i < frames ==> i * n + c < frames * n by {
      forall i | 0 <= i < frames
        ensures i * n + c < frames * n
      {
        InterleavedIndex(i, c, n, frames);
      }
    }
    seq(frames, i requires 0 <= i < frames =>
      InterleavedIndex(i, c, n, frames); Scale(samples[i * n + c]))
  }

  /** The planar buffer: one scaled sequence per channel. */
  function Deinterleave(samples: seq<int16>, n: nat, frames: nat): (r: seq<seq<real>>)
    requires frames * n <= |samples|
    ensures |r| == n && forall c :: 0 <= c < n ==> |r[c]| == frames
  {
    seq(n, c requires 0 <= c < n => Channel(samples, n, c, frames))
  }

  /** Reassemble planar channels into one interleaved stream. */
  function Interleave(channels: seq<seq<real>>, frames: nat): (r: seq<real>)
    requires forall c :: 0 <= c < |channels| ==> |channels[c]| == frames
    ensures |r| == frames * |channels|
  {
    var n := |channels|;
    seq(frames * n, k requires 0 <= k < frames * n =>
      DivModBounds(k, n, frames); channels[k % n][k / n])
  }

  lemma DivModBounds(k: nat, n: nat, frames: nat)
    requires k < frames * n
    ensures n > 0 && k % n < n && k / n < frames
    ensures (k / n) * n + k % n == k
  {
    assert n != 0;
    var q := k / n;
    assert q * n <= k;
    MulMonotone(q, frames, n);
  }

  lemma MulMonotone(a: nat, b: nat, n: nat)
    requires a * n < b * n
    ensures a < b
  {
  }

  /** De-interleaving loses and reorders nothing: interleaving the channels gives the scaled stream back. */
  lemma InterleaveDeinterleave(samples: seq<int16>, n: nat, frames: nat)
    requires frames * n == |samples|
    ensures Interleave(Deinterleave(samples, n, frames), frames) == ScaleAll(samples)
  {
    var d := Deinterleave(samples, n, frames);
    var r := Interleave(d, frames);
    forall k | 0 <= k < |samples|
      ensures r[k] == ScaleAll(samples)[k]
    {
      DivModBounds(k, n, frames);
      var i, c := k / n, k % n;
      assert r[k] == d[c][i];
      assert d[c] == Channel(samples, n, c, frames);
      assert d[c][i] == Scale(samples[i * n + c]);
    }
  }

  /** For one channel the planar buffer is the scaled stream in its own order. */
  lemma MonoDeinterleave(samples: seq<int16>)
    ensures Deinterleave(samples, 1, |samples|) == [ScaleAll(samples)]
  {
    var d := Deinterleave(samples, 1, |samples|);
    assert d[0] == ScaleAll(samples);
  }

  /** Two channels: [L0, R0, L1, R1] becomes [[L0, L1], [R0, R1]]. */
  lemma StereoDeinterleave(l0: int16, r0: int16, l1: int16, r1: int16)
    ensures Deinterleave([l0, r0, l1, r1], 2, 2)
         == [[Scale(l0), Scale(l1)], [Scale(r0), Scale(r1)]]
  {
    var d := Deinterleave([l0, r0, l1, r1], 2, 2);
    assert d[0] == [Scale(l0), Scale(l1)];
    assert d[1] == [Scale(r0), Scale(r1)];
  }

  // ---------------------------------------------------------------------------
  // The decode step

  /**
    Why a payload cannot become a buffer: the `Int16Array` view rejects an odd
    byte length, and `createBuffer` rejects zero channels and zero frames.
   */
  datatype DecodeError = OddByteLength | NoChannels | NoFrames

  /**
    The length of each channel. The division by the channel count is not
    exact in the source; `createBuffer` truncates it, so a trailing partial
    frame is dropped.
   */
  function FrameCount(byteLength: nat, numChannels: nat): (r: Result<nat, DecodeError>)
    ensures r.Ok? <==> byteLength % 2 == 0 && numChannels > 0 && byteLength / 2 >= numChannels
    ensures r == Err(OddByteLength) <==> byteLength % 2 != 0
    ensures r == Err(NoChannels) <==> byteLength % 2 == 0 && numChannels == 0
    ensures r.Ok? ==> r.value > 0
    ensures r.Ok? ==> r.value * numChannels * 2 <= byteLength < (r.value + 1) * numChannels * 2
    ensures r.Ok? && (byteLength / 2) % numChannels == 0 ==> r.value * numChannels * 2 == byteLength
  {
    if byteLength % 2 != 0 then Err(OddByteLength)
    else if numChannels == 0 then Err(NoChannels)
    else
      var frames := byteLength / 2 / numChannels;
      if frames == 0 then Err(NoFrames) else Ok(frames)
  }

  /** The platform audio buffer: `numberOfChannels` rows of `length` samples. */
  class AudioBuffer {
    const sampleRate: nat
    const numberOfChannels: nat
    const length: nat
    const data: array2<real>

    ghost predicate Valid()
      reads this
    {
      data.Length0 == numberOfChannels && data.Length1 == length
    }

    /** The channels as sequences, as `getChannelData` would show them. */
    ghost function Channels(): (r: seq<seq<real>>)
      reads this, data
      requires Valid()
    {
      seq(numberOfChannels, c requires 0 <= c < numberOfChannels reads data =>
        seq(length, i requires 0 <= i < length reads data => data[c, i]))
    }

    /** `ctx.createBuffer`: zero-filled channels. */
    constructor (numberOfChannels: nat, length: nat, sampleRate: nat)
      ensures Valid() && fresh(data)
      ensures this.numberOfChannels == numberOfChannels && this.length == length
      ensures this.sampleRate == sampleRate
      ensures forall c, i :: 0 <= c < numberOfChannels && 0 <= i < length ==> data[c, i] == 0.0
    {
      this.numberOfChannels := numberOfChannels;
      this.length := length;
      this.sampleRate := sampleRate;
      data := new real[numberOfChannels, length]((_, _) => 0.0);
    }
  }

  /**
    `decodeAudioData`: read the bytes as little-endian 16-bit samples and
    write channel `c`, frame `i` from sample `i * numChannels + c`.
   */
  method DecodeAudioData(bytes: array<byte>, sampleRate: nat, numChannels: nat)
    returns (r: Result<AudioBuffer, DecodeError>)
    ensures r.Err? <==> FrameCount(bytes.Length, numChannels).Err?
    ensures r.Err? ==> r.error == FrameCount(bytes.Length, numChannels).error
    ensures r.Ok? ==>
              && fresh(r.value) && fresh(r.value.data) && r.value.Valid()
              && r.value.sampleRate == sampleRate
              && r.value.numberOfChannels == numChannels
              && r.value.length == FrameCount(bytes.Length, numChannels).value
              && r.value.Channels()
                 == Deinterleave(Int16Samples(bytes[..]), numChannels, r.value.length)
  {
    var count := FrameCount(bytes.Length, numChannels);
    if count.Err? {
      return Err(count.error);
    }
    var frames := count.value;
    var samples := Int16Samples(bytes[..]);
    var buffer := new AudioBuffer(numChannels, frames, sampleRate);
    for channel := 0 to numChannels
      invariant forall c, i :: 0 <= c < channel && 0 <= i < frames ==>
                  buffer.data[c, i] == Channel(samples, numChannels, c, frames)[i]
    {
      for i := 0 to frames
        invariant forall c, j :: 0 <= c < channel && 0 <= j < frames ==>
                    buffer.data[c, j] == Channel(samples, numChannels, c, frames)[j]
        invariant forall j :: 0 <= j < i ==>
                    buffer.data[channel, j] == Channel(samples, numChannels, channel, frames)[j]
      {
        InterleavedIndex(i, channel, numChannels, frames);
        buffer.data[channel, i] := Scale(samples[i * numChannels + channel]);
      }
    }
    assert buffer.Channels() == Deinterleave(samples, numChannels, frames) by {
      var got := buffer.Channels();
      var want := Deinterleave(samples, numChannels, frames);
      forall c | 0 <= c < numChannels
        ensures got[c] == want[c]
      {
      }
    }
    r := Ok(buffer);
  }
}
