/**
 * The JSON envelope the streamer publishes for every block (an
 * AudioInputIU-shaped record), and the identifier derived from a digest.
 */
module Packets {
  import opened Base64
  import opened Demux

  /** A JSON slot that is either a value or `null`. */
  datatype Option<T> = None | Some(value: T)

  /** The MQTT client name and `creator` field. */
  const Creator: string := "mpBeamforming"
  /** `buffer_duration`, in milliseconds. */
  const BufferDuration: int := 30
  /** `num_channels` as written into every packet. */
  const NominalChannels: int := 4
  /** `sample_rate` as written into every packet. */
  const NominalSampleRate: int := 16000
  /** Bytes of the SHA-1 digest behind `iuid`. */
  const DigestLength: nat := 20

  /** The fields of one published packet, in the order the streamer sets them. */
  datatype Envelope = Envelope(
    creator: string,
    audio: string,
    allChannels: seq<string>,
    sampleWidth: int,
    bufferDuration: int,
    numChannels: int,
    sampleRate: int,
    rms: int,
    allRms: seq<int>,
    createdAt: real,
    iuid: string,
    previousIu: Option<string>,
    groundedIn: seq<string>,
    vad: Option<bool>,
    doa: Option<int>)

  /** `iuid`: the Base64 text of a 20-byte digest, 27 alphabet characters then one `=`. */
  function Identifier(digest: seq<byte>): (id: string)
    requires |digest| == DigestLength
    ensures |id| == 28
    ensures forall k :: 0 <= k < 27 ==> IsSymbol(id[k])
    ensures id[27] == Pad
  {
    assert Groups(20) == 7 by { GroupsFormula(20); }
    assert Padding(20) == 1;
    Base64Call(digest).text
  }

  /** Distinct digests give distinct identifiers. */
  lemma IdentifierInjective(d1: seq<byte>, d2: seq<byte>)
    requires |d1| == DigestLength && |d2| == DigestLength
    requires Identifier(d1) == Identifier(d2)
    ensures d1 == d2
  {
    EncodeInjective(d1, d2);
  }

  /** Decoding an identifier gives back the digest, followed by one padding byte and the final zero. */
  lemma IdentifierDecodes(digest: seq<byte>)
    requires |digest| == DigestLength
    ensures var r := Decode64Call(Identifier(digest));
            && !r.diagnostic
            && |r.buffer| == 22
            && r.buffer[..20] == digest
            && r.buffer[20] == 0 && r.buffer[21] == 0
  {
    Decode64OfBase64(digest);
  }

  /**
   * The packet built from the per-channel texts, the clock reading that
   * becomes `created_at` and the digest of its decimal form.
   */
  function BuildEnvelope(allChannels: seq<string>, createdAt: real, digest: seq<byte>): (e: Envelope)
    requires |allChannels| > 0 && |digest| == DigestLength
    ensures e.creator == Creator
    ensures e.audio == allChannels[0]
    ensures e.allChannels == allChannels
    ensures e.sampleWidth == SampleWidth == 2 && e.bufferDuration == 30
    ensures e.numChannels == 4 && e.sampleRate == 16000
    ensures e.rms == 0 && e.allRms == [] && e.groundedIn == []
    ensures e.createdAt == createdAt
    ensures e.iuid == Identifier(digest)
    ensures |e.iuid| == 28 && e.iuid[27] == Pad
    ensures e.previousIu == None && e.vad == None && e.doa == None
  {
    Envelope(
      creator := Creator,
      audio := allChannels[0],
      allChannels := allChannels,
      sampleWidth := SampleWidth,
      bufferDuration := BufferDuration,
      numChannels := NominalChannels,
      sampleRate := NominalSampleRate,
      rms := 0,
      allRms := [],
      createdAt := createdAt,
      iuid := Identifier(digest),
      previousIu := None,
      groundedIn := [],
      vad := None,
      doa := None)
  }

  /** A packet's `iuid` decodes to the digest it was built from, and packets built from different digests have different identifiers. */
  lemma EnvelopeIdentifier(allChannels: seq<string>, createdAt: real, digest: seq<byte>, other: seq<byte>)
    requires |allChannels| > 0 && |digest| == DigestLength && |other| == DigestLength
    ensures var r := Decode64Call(BuildEnvelope(allChannels, createdAt, digest).iuid);
            && !r.diagnostic
            && r.buffer[..20] == digest
    ensures (BuildEnvelope(allChannels, createdAt, digest).iuid == BuildEnvelope(allChannels, createdAt, other).iuid)
              <==> (digest == other)
  {
    IdentifierDecodes(digest);
    if Identifier(digest) == Identifier(other) {
      IdentifierInjective(digest, other);
    }
  }

  /** Two packets differ at most in their audio, their clock reading and their identifier. */
  lemma EnvelopesAgreeOnHeader(c1: seq<string>, t1: real, d1: seq<byte>, c2: seq<string>, t2: real, d2: seq<byte>)
    requires |c1| > 0 && |d1| == DigestLength && |c2| > 0 && |d2| == DigestLength
    ensures var e1 := BuildEnvelope(c1, t1, d1);
            var e2 := BuildEnvelope(c2, t2, d2);
            e1.(audio := [], allChannels := [], createdAt := 0.0, iuid := [])
              == e2.(audio := [], allChannels := [], createdAt := 0.0, iuid := [])
  {
  }

  /** `num_channels` describes the packet's own channel list only when the file has four channels. */
  lemma NumChannelsHonest(allChannels: seq<string>, createdAt: real, digest: seq<byte>)
    requires |allChannels| > 0 && |digest| == DigestLength
    ensures (BuildEnvelope(allChannels, createdAt, digest).numChannels == |allChannels|)
              <==> (|allChannels| == 4)
  {
  }
}
