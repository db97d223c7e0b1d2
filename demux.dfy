/**
 * Splitting one interleaved block of 16-bit samples into one buffer per
 * channel, and the Base64 text each channel buffer becomes.
 *
 * libsndfile delivers frames interleaved: frame j of a C-channel block holds
 * the samples of channels 0..C-1 at positions j*C .. j*C+C-1. The streamer
 * copies channel i out into its own buffer of `frames_in_packet` samples,
 * reinterprets that buffer as bytes and encodes the bytes with `base64`.
 */
module Demux {
  import opened Base64

  /** A `short` sample. */
  type int16 = x: int | -32768 <= x < 32768

  /** Bytes per sample (`sample_width`). */
  const SampleWidth: nat := 2

  // ---------------------------------------------------------------------------
  // A sample as bytes
  // ---------------------------------------------------------------------------

  /** The two bytes of a sample in memory: two's complement, least significant byte first. */
  function SampleBytes(v: int16): (b: seq<byte>)
    ensures |b| == SampleWidth
  {
    var u := if v < 0 then v + 65536 else v;
    [u % 256, u / 256]
  }

  /** The sample two bytes in memory hold. */
  function SampleOf(lo: byte, hi: byte): int16 {
    var u := hi * 256 + lo;
    if u >= 32768 then u - 65536 else u
  }

  lemma SampleRoundTrip(v: int16)
    ensures var b := SampleBytes(v); SampleOf(b[0], b[1]) == v
  {
  }

  lemma BytesRoundTrip(lo: byte, hi: byte)
    ensures SampleBytes(SampleOf(lo, hi)) == [lo, hi]
  {
  }

  /** A channel buffer seen as bytes (the cast to `unsigned char*`). */
  function ChannelBytes(ch: seq<int16>): (b: seq<byte>)
    ensures |b| == SampleWidth * |ch|
  {
    if |ch| == 0 then [] else SampleBytes(ch[0]) + ChannelBytes(ch[1..])
  }

  /** Sample k of a channel occupies bytes 2k and 2k+1 of its byte image. */
  lemma {:induction false} ChannelBytesAt(ch: seq<int16>, k: nat)
    requires k < |ch|
    ensures SampleWidth * k + 1 < |ChannelBytes(ch)|
    ensures ChannelBytes(ch)[SampleWidth * k ..SampleWidth * k + 2] == SampleBytes(ch[k])
    decreases k
  {
    if k > 0 {
      ChannelBytesAt(ch[1..], k - 1);
      var b := ChannelBytes(ch);
      assert b[2..] == ChannelBytes(ch[1..]);
      assert b[2 * k..2 * k + 2] == b[2..][2 * (k - 1)..2 * (k - 1) + 2];
    }
  }

  /** The samples a byte buffer holds, pair by pair; an odd last byte holds none. */
  function ChannelSamples(b: seq<byte>): (ch: seq<int16>)
    ensures |ch| == |b| / 2
  {
    if |b| < 2 then [] else [SampleOf(b[0], b[1])] + ChannelSamples(b[2..])
  }

  /** Reading the bytes of a channel buffer back gives the channel. */
  lemma {:induction false} ChannelRoundTrip(ch: seq<int16>)
    ensures ChannelSamples(ChannelBytes(ch)) == ch
  {
    if |ch| > 0 {
      ChannelRoundTrip(ch[1..]);
      var b := ChannelBytes(ch);
      SampleRoundTrip(ch[0]);
      assert b[2..] == ChannelBytes(ch[1..]);
      assert ch == [ch[0]] + ch[1..];
    }
  }

  /** The prefix of a byte buffer covering whole samples holds the same first samples. */
  lemma {:induction false} ChannelSamplesPrefix(b: seq<byte>, extra: seq<byte>)
    requires |b| % 2 == 0
    ensures ChannelSamples(b + extra)[..|b| / 2] == ChannelSamples(b)
    decreases |b|
  {
    if |b| >= 2 {
      ChannelSamplesPrefix(b[2..], extra);
      assert (b + extra)[2..] == b[2..] + extra;
    }
  }

  // ---------------------------------------------------------------------------
  // Interleaved and per-channel layouts
  // ---------------------------------------------------------------------------

  lemma MulMono(a: nat, b: nat, c: nat)
    requires a <= b
    ensures a * c <= b * c
  {
    assert b * c == a * c + (b - a) * c;
  }

  /** Frame j, channel i sits inside a block of `frames` frames of `channels` samples. */
  lemma IndexBound(i: nat, j: nat, channels: nat, frames: nat)
    requires i < channels && j < frames
    ensures j * channels + i < frames * channels
  {
    MulMono(j + 1, frames, channels);
    assert (j + 1) * channels == j * channels + channels;
  }

  /** The channels of an interleaved block: frame j of channel i is sample j*channels + i (line 108). */
  function Deinterleaved(samples: seq<int16>, channels: nat, frames: nat): (chs: seq<seq<int16>>)
    requires |samples| == frames * channels
    ensures |chs| == channels
    ensures forall i :: 0 <= i < channels ==> |chs[i]| == frames
  {
    seq(channels, i requires 0 <= i < channels =>
      seq(frames, j requires 0 <= j < frames =>
        IndexBound(i, j, channels, frames);
        samples[j * channels + i]))
  }

  lemma DeinterleavedAt(samples: seq<int16>, channels: nat, frames: nat, i: nat, j: nat)
    requires |samples| == frames * channels && i < channels && j < frames
    ensures j * channels + i < |samples|
    ensures Deinterleaved(samples, channels, frames)[i][j] == samples[j * channels + i]
  {
    IndexBound(i, j, channels, frames);
  }

  /** Frame j of a set of channels: one sample of each, in channel order. */
  function Frame(chs: seq<seq<int16>>, j: nat): (f: seq<int16>)
    requires forall i :: 0 <= i < |chs| ==> j < |chs[i]|
    ensures |f| == |chs|
  {
    seq(|chs|, i requires 0 <= i < |chs| => chs[i][j])
  }

  /** The interleaved layout of the first `frames` frames of some channels, frame after frame. */
  function Interleave(chs: seq<seq<int16>>, frames: nat): (s: seq<int16>)
    requires forall i :: 0 <= i < |chs| ==> frames <= |chs[i]|
    ensures |s| == frames * |chs|
  {
    if frames == 0 then []
    else
      var s := Interleave(chs, frames - 1) + Frame(chs, frames - 1);
      assert |s| == (frames - 1) * |chs| + |chs|;
      s
  }

  /** The interleaved layout puts channel i of frame j at j*|chs| + i. */
  lemma {:induction false} InterleaveAt(chs: seq<seq<int16>>, frames: nat, i: nat, j: nat)
    requires forall k :: 0 <= k < |chs| ==> frames <= |chs[k]|
    requires i < |chs| && j < frames
    ensures j * |chs| + i < frames * |chs|
    ensures Interleave(chs, frames)[j * |chs| + i] == chs[i][j]
    decreases frames
  {
    IndexBound(i, j, |chs|, frames);
    var prefix := Interleave(chs, frames - 1);
    if j < frames - 1 {
      InterleaveAt(chs, frames - 1, i, j);
    } else {
      assert j * |chs| + i == |prefix| + i;
    }
  }

  /** A position inside a block of `frames` frames lies in one of its frames. */
  lemma DivBelow(k: nat, channels: nat, frames: nat)
    requires k < frames * channels
    ensures channels > 0 && k / channels < frames
  {
    assert frames * channels > 0;
    var q := k / channels;
    assert q * channels <= k;
    assert (frames - q) * channels > 0;
  }

  /** Deinterleaving an interleaved block gives back its channels. */
  lemma DeinterleaveInterleave(chs: seq<seq<int16>>, frames: nat)
    requires forall i :: 0 <= i < |chs| ==> |chs[i]| == frames
    ensures Deinterleaved(Interleave(chs, frames), |chs|, frames) == chs
  {
    var d := Deinterleaved(Interleave(chs, frames), |chs|, frames);
    forall i | 0 <= i < |chs| ensures d[i] == chs[i] {
      forall j | 0 <= j < frames ensures d[i][j] == chs[i][j] {
        InterleaveAt(chs, frames, i, j);
      }
    }
  }

  /** Interleaving the channels of a block gives back the block: no sample is lost, moved or altered. */
  lemma InterleaveDeinterleave(samples: seq<int16>, channels: nat, frames: nat)
    requires |samples| == frames * channels
    ensures Interleave(Deinterleaved(samples, channels, frames), frames) == samples
  {
    var chs := Deinterleaved(samples, channels, frames);
    var s := Interleave(chs, frames);
    forall k | 0 <= k < |samples| ensures s[k] == samples[k] {
      DivBelow(k, channels, frames);
      var j, i := k / channels, k % channels;
      assert k == j * channels + i;
      InterleaveAt(chs, frames, i, j);
      DeinterleavedAt(samples, channels, frames, i, j);
    }
  }

  /**
   * When a read delivered only n frames, the first n frames of each channel
   * come from those frames and the rest from the part of the block the read
   * did not write.
   */
  lemma DeinterleaveSplit(samples: seq<int16>, channels: nat, frames: nat, n: nat)
    requires |samples| == frames * channels && n <= frames
    ensures n * channels <= |samples|
    ensures forall i :: 0 <= i < channels ==>
              Deinterleaved(samples, channels, frames)[i][..n] ==
                Deinterleaved(samples[..n * channels], channels, n)[i]
    ensures forall i :: 0 <= i < channels ==>
              Deinterleaved(samples, channels, frames)[i][n..] ==
                Deinterleaved(samples[n * channels..], channels, frames - n)[i]
  {
    assert frames * channels == n * channels + (frames - n) * channels;
    var d := Deinterleaved(samples, channels, frames);
    var head := Deinterleaved(samples[..n * channels], channels, n);
    var tail := Deinterleaved(samples[n * channels..], channels, frames - n);
    forall i | 0 <= i < channels ensures d[i][..n] == head[i] && d[i][n..] == tail[i] {
      forall j | 0 <= j < n ensures d[i][j] == head[i][j] {
        DeinterleavedAt(samples, channels, frames, i, j);
        DeinterleavedAt(samples[..n * channels], channels, n, i, j);
      }
      forall j | 0 <= j < frames - n ensures d[i][n + j] == tail[i][j] {
        DeinterleavedAt(samples, channels, frames, i, n + j);
        DeinterleavedAt(samples[n * channels..], channels, frames - n, i, j);
        assert (n + j) * channels + i == n * channels + (j * channels + i);
      }
    }
  }

  // ---------------------------------------------------------------------------
  // Encoding the channels
  // ---------------------------------------------------------------------------

  /** The `all_channels` texts: channel i's bytes in Base64, in channel order. */
  function EncodeChannels(chs: seq<seq<int16>>): (texts: seq<string>)
    ensures |texts| == |chs|
  {
    seq(|chs|, i requires 0 <= i < |chs| => Base64Call(ChannelBytes(chs[i])).text)
  }

  /**
   * Each text encodes frames*sample_width bytes: its length depends on the
   * block size alone, never on how many frames the read delivered.
   */
  lemma ChannelTextLength(samples: seq<int16>, channels: nat, frames: nat, i: nat)
    requires |samples| == frames * channels && i < channels
    ensures |EncodeChannels(Deinterleaved(samples, channels, frames))[i]|
              == EncodePrediction(frames * SampleWidth)
  {
  }

  /** Decoding a channel's text gives back its bytes first, hence the channel itself. */
  lemma ChannelDecodes(ch: seq<int16>)
    ensures var r := Decode64Call(Base64Call(ChannelBytes(ch)).text);
            && !r.diagnostic
            && SampleWidth * |ch| <= |r.buffer|
            && ChannelSamples(r.buffer[..SampleWidth * |ch|]) == ch
  {
    var b := ChannelBytes(ch);
    Decode64OfBase64(b);
    ChannelRoundTrip(ch);
  }

  /**
   * Decoding the text of channel i gives back channel i of the block, whose
   * frame j is sample j*channels + i.
   */
  lemma ChannelTextDecodes(samples: seq<int16>, channels: nat, frames: nat, i: nat)
    requires |samples| == frames * channels && i < channels
    ensures var r := Decode64Call(EncodeChannels(Deinterleaved(samples, channels, frames))[i]);
            && !r.diagnostic
            && SampleWidth * frames <= |r.buffer|
            && ChannelSamples(r.buffer[..SampleWidth * frames]) == Deinterleaved(samples, channels, frames)[i]
  {
    ChannelDecodes(Deinterleaved(samples, channels, frames)[i]);
  }

  // ---------------------------------------------------------------------------
  // The deinterleave loop (lines 101-114)
  // ---------------------------------------------------------------------------

  /** Copies channel i of the interleaved block into a new buffer of `framesInPacket` samples (lines 106-108). */
  method CopyChannel(audioPacket: array<int16>, channels: nat, framesInPacket: nat, i: nat)
    returns (buffer: array<int16>)
    requires audioPacket.Length == framesInPacket * channels && i < channels
    ensures fresh(buffer)
    ensures buffer[..] == Deinterleaved(audioPacket[..], channels, framesInPacket)[i]
  {
    buffer := new int16[framesInPacket];
    var j := 0;
    while j < framesInPacket
      invariant 0 <= j <= framesInPacket
      invariant forall jj :: 0 <= jj < j ==>
                  buffer[jj] == Deinterleaved(audioPacket[..], channels, framesInPacket)[i][jj]
    {
      DeinterleavedAt(audioPacket[..], channels, framesInPacket, i, j);
      buffer[j] := audioPacket[j * channels + i];
      j := j + 1;
    }
  }

  /**
   * Copies each channel of the interleaved block `audioPacket` into a new
   * buffer of `framesInPacket` samples and appends that buffer's Base64 text
   * to `allChannels` (lines 101-114). All `framesInPacket` frames are copied
   * whatever the read delivered.
   */
  method Demultiplex(audioPacket: array<int16>, channels: nat, framesInPacket: nat)
    returns (channelData: seq<array<int16>>, allChannels: seq<string>)
    requires audioPacket.Length == framesInPacket * channels
    ensures |channelData| == channels
    ensures forall i :: 0 <= i < channels ==>
              channelData[i][..] == Deinterleaved(audioPacket[..], channels, framesInPacket)[i]
    ensures forall i :: 0 <= i < channels ==> channelData[i] != audioPacket
    ensures forall i, k :: 0 <= i < k < channels ==> channelData[i] != channelData[k]
    ensures allChannels == EncodeChannels(Deinterleaved(audioPacket[..], channels, framesInPacket))
  {
    ghost var chs := Deinterleaved(audioPacket[..], channels, framesInPacket);
    channelData := [];
    allChannels := [];
    var i := 0;
    while i < channels
      invariant 0 <= i <= channels
      invariant |channelData| == i
      invariant forall k :: 0 <= k < i ==> channelData[k][..] == chs[k]
      invariant forall k :: 0 <= k < i ==> channelData[k] != audioPacket
      invariant forall k, l :: 0 <= k < l < i ==> channelData[k] != channelData[l]
      invariant allChannels == EncodeChannels(chs[..i])
    {
      var buffer := CopyChannel(audioPacket, channels, framesInPacket, i);
      allChannels := allChannels + [Base64Call(ChannelBytes(buffer[..])).text];
      channelData := channelData + [buffer];
      assert chs[..i + 1] == chs[..i] + [chs[i]];
      i := i + 1;
    }
    assert chs[..channels] == chs;
  }
}
