/**
 * The streamer's main loop: open the file, connect, then read a block,
 * split it into channels, build a packet, publish it and count it, until a
 * read returns no frames.
 *
 * The file, the broker and the clock are inputs: `results` lists what the
 * successive `sf_readf_short` calls would return, `stamps` the clock reading
 * and digest of each iteration, `delivered` whether each publish would
 * complete (false: it throws).
 */
module Streaming {
  import opened Base64
  import opened Demux
  import opened Packets

  /** One `sf_readf_short` call: its return value and the packet buffer's content afterwards. */
  datatype Read = Read(frames: int, block: seq<int16>)

  /** What iteration k takes from the clock: `created_at` and the SHA-1 digest of its decimal form. */
  datatype Stamp = Stamp(createdAt: real, digest: seq<byte>)

  /** How `main` ends, with the `total_packets` count where one exists. */
  datatype Outcome =
    | OpenFailed
    | ConnectFailed
    | Finished(totalPackets: nat)
    | TransportFailed(totalPackets: nat)

  /** The process exit status. */
  function ExitStatus(o: Outcome): (status: int)
    ensures status == 0 <==> o.Finished?
    ensures status == 0 || status == 1
  {
    if o.Finished? then 0 else 1
  }

  /** `frames_in_packet`: as many whole frames as fit in `bufferLength` samples, and no more. */
  function FramesInPacket(bufferLength: nat, channels: nat): (f: nat)
    requires channels > 0
    ensures f * channels <= bufferLength < (f + 1) * channels
  {
    bufferLength / channels
  }

  /** The frame counts a list of reads returned. */
  function Counts(results: seq<Read>): (c: seq<int>)
    ensures |c| == |results|
    ensures forall k :: 0 <= k < |results| ==> c[k] == results[k].frames
  {
    seq(|results|, k requires 0 <= k < |results| => results[k].frames)
  }

  /** Some read in the list returns no frames: the file runs out. */
  predicate Exhausts(counts: seq<int>) {
    exists k :: 0 <= k < |counts| && counts[k] <= 0
  }

  /** The index of the first read that returns no frames: the last iteration of the loop. */
  function Exhaustion(counts: seq<int>): (e: nat)
    requires Exhausts(counts)
    ensures e < |counts| && counts[e] <= 0
    ensures forall k :: 0 <= k < e ==> counts[k] > 0
  {
    if counts[0] <= 0 then 0
    else
      assert Exhausts(counts[1..]) by {
        var k :| 0 <= k < |counts| && counts[k] <= 0;
        assert counts[1..][k - 1] == counts[k];
      }
      1 + Exhaustion(counts[1..])
  }

  /** The index of the first publish that throws among the first `count`, or `count` when none does. */
  function FirstFailure(delivered: seq<bool>, count: nat): (k: nat)
    requires count <= |delivered|
    ensures k <= count
    ensures forall j :: 0 <= j < k ==> delivered[j]
    ensures k < count ==> !delivered[k]
  {
    if count == 0 then 0
    else
      var k := FirstFailure(delivered, count - 1);
      if k < count - 1 then k
      else if delivered[count - 1] then count
      else count - 1
  }

  /** Once a publish throws, later attempts no longer matter: it stays the first failure. */
  lemma {:induction false} FailureStops(delivered: seq<bool>, k: nat, count: nat)
    requires k < count <= |delivered|
    requires FirstFailure(delivered, k) == k && !delivered[k]
    ensures FirstFailure(delivered, count) == k
    decreases count
  {
    if count > k + 1 {
      FailureStops(delivered, k, count - 1);
    }
  }

  /** How the publish loop ends when `attempts` iterations would run if every publish completed. */
  function LoopOutcome(attempts: nat, delivered: seq<bool>): (o: Outcome)
    requires attempts <= |delivered|
    ensures o.Finished? || o.TransportFailed?
  {
    var k := FirstFailure(delivered, attempts);
    if k == attempts then Finished(attempts) else TransportFailed(k)
  }

  /** How `main` ends. */
  function Expected(fileOpen: bool, connected: bool, attempts: nat, delivered: seq<bool>): Outcome
    requires attempts <= |delivered|
  {
    if !fileOpen then OpenFailed
    else if !connected then ConnectFailed
    else LoopOutcome(attempts, delivered)
  }

  /** The packet iteration k publishes for a read and a stamp (lines 96-140). */
  function PacketFor(read: Read, channels: nat, framesInPacket: nat, stamp: Stamp): (e: Envelope)
    requires channels > 0 && |read.block| == framesInPacket * channels
    requires |stamp.digest| == DigestLength
    ensures |e.allChannels| == channels
  {
    BuildEnvelope(EncodeChannels(Deinterleaved(read.block, channels, framesInPacket)),
                  stamp.createdAt, stamp.digest)
  }

  /** Every read fills a block of the packet size, and every iteration has a 20-byte digest. */
  predicate Shaped(framesInPacket: nat, channels: nat, results: seq<Read>, stamps: seq<Stamp>) {
    && channels > 0
    && |stamps| == |results|
    && (forall k :: 0 <= k < |results| ==> |results[k].block| == framesInPacket * channels)
    && (forall k :: 0 <= k < |stamps| ==> |stamps[k].digest| == DigestLength)
  }

  /** The inputs fit the loop: well-shaped, some read exhausts the file, one publish outcome per read. */
  predicate Feasible(bufferLength: nat, channels: nat, results: seq<Read>, stamps: seq<Stamp>, delivered: seq<bool>) {
    && channels > 0
    && Shaped(FramesInPacket(bufferLength, channels), channels, results, stamps)
    && Exhausts(Counts(results))
    && |delivered| == |results|
  }

  /** The packets of the first `count` iterations, in publishing order. */
  function Published(framesInPacket: nat, channels: nat, results: seq<Read>, stamps: seq<Stamp>, count: nat): (p: seq<Envelope>)
    requires Shaped(framesInPacket, channels, results, stamps)
    requires count <= |results|
    ensures |p| == count
  {
    if count == 0 then []
    else
      Published(framesInPacket, channels, results, stamps, count - 1)
        + [PacketFor(results[count - 1], channels, framesInPacket, stamps[count - 1])]
  }

  /** Packet m of the published list is the packet for read m and stamp m. */
  lemma {:induction false} PublishedAt(framesInPacket: nat, channels: nat, results: seq<Read>, stamps: seq<Stamp>, count: nat, m: nat)
    requires Shaped(framesInPacket, channels, results, stamps)
    requires m < count <= |results|
    ensures Published(framesInPacket, channels, results, stamps, count)[m]
              == PacketFor(results[m], channels, framesInPacket, stamps[m])
    decreases count
  {
    if m < count - 1 {
      PublishedAt(framesInPacket, channels, results, stamps, count - 1, m);
    }
  }

  /**
   * One iteration's packet (lines 96-140): the read fills a fresh block, the
   * block is split into channels and the packet is built from their texts.
   */
  method BuildPacket(read: Read, channels: nat, framesInPacket: nat, stamp: Stamp) returns (packet: Envelope)
    requires channels > 0 && |read.block| == framesInPacket * channels
    requires |stamp.digest| == DigestLength
    ensures packet == PacketFor(read, channels, framesInPacket, stamp)
  {
    var audioPacket := new int16[framesInPacket * channels](k requires 0 <= k < |read.block| => read.block[k]);
    assert audioPacket[..] == read.block;
    var channelData, allChannels := Demultiplex(audioPacket, channels, framesInPacket);
    packet := BuildEnvelope(allChannels, stamp.createdAt, stamp.digest);
  }

  /**
   * The `while (n > 0)` loop (lines 95-148), from `n = 1` and
   * `total_packets = 0` (lines 58, 72). Iteration k reads `results[k]`,
   * builds its packet from the whole block and `stamps[k]`, publishes it and
   * only then counts it; the loop test comes after, so the read that returns
   * no frames is published too. A publish that throws ends the loop before
   * the count.
   */
  method PublishLoop(framesInPacket: nat, channels: nat,
                     results: seq<Read>, stamps: seq<Stamp>, delivered: seq<bool>)
    returns (outcome: Outcome, sent: seq<Envelope>)
    requires Shaped(framesInPacket, channels, results, stamps)
    requires Exhausts(Counts(results)) && |delivered| == |results|
    ensures outcome == LoopOutcome(Exhaustion(Counts(results)) + 1, delivered)
    ensures |sent| == outcome.totalPackets <= |results|
    ensures sent == Published(framesInPacket, channels, results, stamps, |sent|)
  {
    var totalPackets := 0;
    var n := 1;
    ghost var e := Exhaustion(Counts(results));
    sent := [];
    while n > 0
      invariant 0 <= totalPackets <= e + 1
      invariant n > 0 <==> totalPackets <= e
      invariant FirstFailure(delivered, totalPackets) == totalPackets
      invariant sent == Published(framesInPacket, channels, results, stamps, totalPackets)
      decreases e + 1 - totalPackets
    {
      var read := results[totalPackets];
      n := read.frames;
      assert n == Counts(results)[totalPackets];
      var packet := BuildPacket(read, channels, framesInPacket, stamps[totalPackets]);
      if !delivered[totalPackets] {
        FailureStops(delivered, totalPackets, e + 1);
        assert LoopOutcome(e + 1, delivered) == TransportFailed(totalPackets);
        return TransportFailed(totalPackets), sent;
      }
      sent := sent + [packet];
      totalPackets := totalPackets + 1;
    }
    assert totalPackets == e + 1;
    outcome := Finished(totalPackets);
  }

  /**
   * `main` (lines 57-156): open the file (a failure returns before any
   * packet), connect (a failure is caught like any MQTT error), then run the
   * publish loop with `frames_in_packet = buffer_length / channels`.
   */
  method Stream(fileOpen: bool, connected: bool, bufferLength: nat, channels: nat,
                results: seq<Read>, stamps: seq<Stamp>, delivered: seq<bool>)
    returns (outcome: Outcome, sent: seq<Envelope>)
    requires Feasible(bufferLength, channels, results, stamps, delivered)
    ensures outcome == Expected(fileOpen, connected, Exhaustion(Counts(results)) + 1, delivered)
    ensures (outcome.Finished? || outcome.TransportFailed?) ==> |sent| == outcome.totalPackets
    ensures (outcome.OpenFailed? || outcome.ConnectFailed?) ==> sent == []
    ensures |sent| <= |results|
    ensures sent == Published(FramesInPacket(bufferLength, channels), channels, results, stamps, |sent|)
  {
    if !fileOpen {
      return OpenFailed, [];
    }
    if !connected {
      return ConnectFailed, [];
    }
    var framesInPacket := bufferLength / channels;
    outcome, sent := PublishLoop(framesInPacket, channels, results, stamps, delivered);
  }

  // ---------------------------------------------------------------------------
  // The packet count
  // ---------------------------------------------------------------------------

  /** A loop that runs to the end has published and counted every read, the exhausting one included. */
  lemma FinishedCountsEveryRead(attempts: nat, delivered: seq<bool>)
    requires attempts <= |delivered|
    ensures (LoopOutcome(attempts, delivered) == Finished(attempts))
              <==> (forall j :: 0 <= j < attempts ==> delivered[j])
  {
    var k := FirstFailure(delivered, attempts);
    if k < attempts {
      assert !delivered[k];
    }
  }

  /** When publish throws on attempt K, and on no earlier one, the loop stops with K-1 packets counted. */
  lemma ThrowOnAttempt(attempts: nat, delivered: seq<bool>, K: nat)
    requires 1 <= K <= attempts <= |delivered|
    requires forall j :: 0 <= j < K - 1 ==> delivered[j]
    requires !delivered[K - 1]
    ensures LoopOutcome(attempts, delivered) == TransportFailed(K - 1)
  {
    NoFailureBefore(delivered, K - 1);
    FailureStops(delivered, K - 1, attempts);
  }

  /** Without a failed publish among the first `count`, the first failure is not among them. */
  lemma {:induction false} NoFailureBefore(delivered: seq<bool>, count: nat)
    requires count <= |delivered|
    requires forall j :: 0 <= j < count ==> delivered[j]
    ensures FirstFailure(delivered, count) == count
  {
    if count > 0 {
      NoFailureBefore(delivered, count - 1);
    }
  }

  /**
   * The counts `sf_readf_short` returns for a file of `total` frames read
   * `framesInPacket` at a time: full blocks, the remainder, then 0.
   */
  function FileCounts(total: nat, framesInPacket: nat): (c: seq<int>)
    ensures |c| > 0 && c[|c| - 1] == 0
    ensures forall k :: 0 <= k < |c| - 1 ==> 0 < c[k] <= framesInPacket
    decreases total
  {
    if total == 0 || framesInPacket == 0 then [0]
    else
      var got := if total < framesInPacket then total else framesInPacket;
      [got] + FileCounts(total - got, framesInPacket)
  }

  /** Reading a file runs the loop once per returned count: the last read is the one that returns 0. */
  lemma FileExhausts(total: nat, framesInPacket: nat)
    ensures Exhausts(FileCounts(total, framesInPacket))
    ensures Exhaustion(FileCounts(total, framesInPacket)) + 1 == |FileCounts(total, framesInPacket)|
  {
    var c := FileCounts(total, framesInPacket);
    assert c[|c| - 1] <= 0;
  }

  /** A file of `total` frames makes ceil(total / framesInPacket) + 1 reads, hence as many packets. */
  lemma {:induction false} FileCountsLength(total: nat, framesInPacket: nat)
    requires framesInPacket > 0
    ensures |FileCounts(total, framesInPacket)| == (total + framesInPacket - 1) / framesInPacket + 1
    decreases total
  {
    if total > framesInPacket {
      FileCountsLength(total - framesInPacket, framesInPacket);
      FileCountsStep(total, framesInPacket);
    } else if total > 0 {
      DivUnique(total + framesInPacket - 1, framesInPacket, 1, total - 1);
    }
  }

  /** One full block more is one read more. */
  lemma FileCountsStep(total: nat, framesInPacket: nat)
    requires 0 < framesInPacket < total
    requires |FileCounts(total - framesInPacket, framesInPacket)|
               == (total - framesInPacket + framesInPacket - 1) / framesInPacket + 1
    ensures |FileCounts(total, framesInPacket)| == (total + framesInPacket - 1) / framesInPacket + 1
  {
    var rest := total - framesInPacket;
    assert FileCounts(total, framesInPacket) == [framesInPacket] + FileCounts(rest, framesInPacket);
    assert rest + framesInPacket - 1 == total - 1;
    ShiftQuotient(total - 1, framesInPacket);
  }

  /** A multiple of a positive number strictly between its negation and itself is zero. */
  lemma ZeroMultiple(x: int, d: int, y: int)
    requires d > 0 && x * d == y && -d < y < d
    ensures x == 0
  {
    assert x >= 1 ==> x * d >= d;
    assert x <= -1 ==> x * d <= -d;
  }

  /** Quotient and remainder are unique. */
  lemma DivUnique(a: int, d: int, q: int, r: int)
    requires d > 0 && a == q * d + r && 0 <= r < d
    ensures a / d == q
  {
    var q', r' := a / d, a % d;
    assert (q - q') * d == r' - r;
    ZeroMultiple(q - q', d, r' - r);
  }

  /** Adding the divisor to the dividend adds one to the quotient. */
  lemma ShiftQuotient(a: nat, d: nat)
    requires d > 0
    ensures (a + d) / d == a / d + 1
  {
    DivUnique(a + d, d, a / d + 1, a % d);
  }

  /** A 1600-frame file read 480 frames at a time: three full blocks, 160 frames, then 0. */
  lemma ShortFileCounts()
    ensures FileCounts(1600, 480) == [480, 480, 480, 160, 0]
  {
    assert FileCounts(0, 480) == [0];
    assert FileCounts(160, 480) == [160, 0];
    assert FileCounts(640, 480) == [480, 160, 0];
    assert FileCounts(1120, 480) == [480, 480, 160, 0];
  }

  /** That file makes the loop run, and publish, five times. */
  lemma ShortFileFivePackets()
    ensures Exhausts(FileCounts(1600, 480))
    ensures Exhaustion(FileCounts(1600, 480)) + 1 == 5
  {
    ShortFileCounts();
    FileExhausts(1600, 480);
  }

  // ---------------------------------------------------------------------------
  // What a packet carries
  // ---------------------------------------------------------------------------

  /**
   * A packet carries the whole block: each channel text has the length of
   * `framesInPacket` samples whatever the read returned, decodes without a
   * diagnostic and gives back that channel of the block. `audio` is channel
   * 0's text.
   */
  lemma PacketCarriesBlock(read: Read, channels: nat, framesInPacket: nat, stamp: Stamp, i: nat)
    requires channels > 0 && |read.block| == framesInPacket * channels
    requires |stamp.digest| == DigestLength
    requires i < channels
    ensures var e := PacketFor(read, channels, framesInPacket, stamp);
            var r := Decode64Call(e.allChannels[i]);
            && e.audio == e.allChannels[0]
            && |e.allChannels[i]| == EncodePrediction(framesInPacket * SampleWidth)
            && !r.diagnostic
            && SampleWidth * framesInPacket <= |r.buffer|
            && ChannelSamples(r.buffer[..SampleWidth * framesInPacket])
                 == Deinterleaved(read.block, channels, framesInPacket)[i]
  {
    ChannelTextLength(read.block, channels, framesInPacket, i);
    ChannelTextDecodes(read.block, channels, framesInPacket, i);
  }
}
