# Multichannel audio streamer, modelled in Dafny

`stream_audio.cpp` reads a multichannel WAV file block by block. Each block holds
`frames_in_packet` interleaved frames of 16-bit samples. The program splits the block
into one buffer per channel and encodes each buffer in Base64 (`base64`, which wraps
OpenSSL's `EVP_EncodeBlock`). It wraps the texts in an AudioInputIU-shaped JSON packet
and publishes that packet over MQTT. `decode64` is the matching wrapper around
`EVP_DecodeBlock`. This project models the Base64 wrappers, the channel split, the
packet builder and the read/publish/count loop of `main`, and proves what each promises.

The model has four modules:

- `Base64` (`base64.dfy`)
  - The alphabet and padding of section 4 of RFC 4648, as `EVP_EncodeBlock` writes them.
  - A model of `EVP_DecodeBlock`'s return value and written bytes.
  - The wrappers `base64` and `decode64`, with their length predictions and their
    "Whoops" diagnostics.
  - Round trips in both directions, and injectivity.
- `Demux` (`demux.dfy`)
  - The deinterleave loop as a method over an `array` of samples. It is proved against
    the specification function `Deinterleaved`.
  - Interleaving as the inverse of the split.
  - The byte image of a channel buffer (two's complement, least significant byte
    first).
  - The channel texts and what they decode to.
- `Packets` (`packet.dfy`)
  - The envelope datatype and its builder.
  - The `iuid` derived from a 20-byte digest.
- `Streaming` (`stream.dfy`)
  - `main` as a method. The file open, the broker connection, every read, every clock
    reading with its digest, and every publish outcome are parameters.
  - The count `total_packets`, the packets published and how the program ends, proved
    against the specification functions `LoopOutcome` and `Published`.
  - The counts a file of a given length produces.

Two behaviours of the code are kept as written:

- **Packet count.** The loop tests `n > 0` only after publishing (lines 95-148), so the
  read that returns 0 frames is still sent. A 1600-frame file read 480 frames at a time
  therefore gives five packets (`Streaming.ShortFileFivePackets`).
- **Tail of a short read.** The per-channel copy takes all `frames_in_packet` frames of
  the block even after a short read. The frames past the read come from a freshly
  allocated, uninitialised `new short[...]`, so their content is arbitrary. In the model
  they are whatever `Read.block` holds beyond what was read.

## Model

| member | source | states |
|---|---|---|
| Base64.Encode | stream_audio.cpp:22 | The text is 4 characters per started 3-byte group. Every character is from the RFC 4648 alphabet, except the last `Padding(n)` (fewer than 3), which are `=`. |
| Base64.GroupsFormula | stream_audio.cpp:20 | The group count is `(length+2)/3`, the rounded-up third the wrapper computes. |
| Base64.Base64Call | stream_audio.cpp:19-25 | `base64` returns exactly `4*((length+2)/3)` characters, so its length check never reports a mismatch. |
| Base64.DecodeBlock | stream_audio.cpp:30 | Returns -1 exactly when the length is not a multiple of 4 or a character is outside the alphabet and `=`. Otherwise it returns the number of bytes written, 3 per 4 characters. Nothing is written for a bad length. |
| Base64.Decode64Call | stream_audio.cpp:27-33 | The buffer holds `3*length/4 + 1` bytes and ends in 0. The diagnostic fires exactly when the decoder refuses the text. |
| Base64.DecodeEncode | stream_audio.cpp:27-31 | Decoding an encoding writes the original bytes followed by one zero byte per `=`. It returns `3/4` of the text length. |
| Base64.Decode64OfBase64 | stream_audio.cpp:19-33 | `decode64(base64(s))` reports no mismatch. Its prediction is `3*ceil(|s|/3)`. The buffer starts with `s`, and every byte after it is 0. |
| Base64.EncodeDecode | stream_audio.cpp:30 | Unpadded alphabet text of a length that is a multiple of 4 decodes, and re-encoding the bytes gives the text back. |
| Base64.PaddingVisible | stream_audio.cpp:22 | An encoding ends in exactly `Padding(|s|)` `=` characters. |
| Base64.EncodeInjective | stream_audio.cpp:22 | Different byte strings have different encodings. |
| Base64.ValuesOfEncode | stream_audio.cpp:22 | Reading the characters of an encoding back as values gives its sextets, with `=` read as 0. |
| Base64.SextetsOfDecode | stream_audio.cpp:30 | Re-splitting decoded bytes into sextets gives back the decoded sextets. |
| Demux.SampleBytes | stream_audio.cpp:109 | A sample occupies `sample_width` (2) bytes in memory. |
| Demux.ChannelBytes | stream_audio.cpp:109-112 | The byte image of a channel buffer holds `sample_width` bytes per sample, so `frames_in_packet * sample_width` bytes in all. |
| Demux.ChannelBytesAt | stream_audio.cpp:109 | Sample k of the buffer occupies bytes 2k and 2k+1 of its byte image. |
| Demux.SampleRoundTrip | stream_audio.cpp:109 | A sample read back from its two bytes is unchanged. |
| Demux.BytesRoundTrip | stream_audio.cpp:109 | Two bytes read as a sample and written back are unchanged. |
| Demux.ChannelRoundTrip | stream_audio.cpp:109-112 | The samples of a channel buffer's byte image are the channel. |
| Demux.ChannelSamplesPrefix | stream_audio.cpp:109-112 | Extra bytes after a byte image of whole samples do not change the samples it starts with. |
| Demux.Deinterleaved | stream_audio.cpp:105-108 | The split block has `channels` channels of `frames_in_packet` samples each. |
| Demux.DeinterleavedAt | stream_audio.cpp:108 | Frame j of channel i is sample `j*channels + i` of the block, and that index is in range. |
| Demux.InterleaveAt | stream_audio.cpp:108 | Interleaving puts channel i of frame j at `j*channels + i`. |
| Demux.DeinterleaveInterleave | stream_audio.cpp:105-108 | Splitting an interleaved block gives back its channels. |
| Demux.InterleaveDeinterleave | stream_audio.cpp:105-108 | Interleaving the split channels rebuilds the block. No sample is lost, scaled, moved or duplicated. |
| Demux.DeinterleaveSplit | stream_audio.cpp:96-108 | The first n frames of each channel come from the first n frames of the block, and the rest from the remainder. |
| Demux.EncodeChannels | stream_audio.cpp:103-114 | There is one text per channel, in channel order. |
| Demux.ChannelTextLength | stream_audio.cpp:112 | Every channel text encodes `frames_in_packet * sample_width` bytes. Its length depends only on the block size, never on the frames read. |
| Demux.ChannelDecodes | stream_audio.cpp:109-113 | Decoding a channel's text reports no mismatch and gives back the channel's samples. |
| Demux.ChannelTextDecodes | stream_audio.cpp:105-113 | Decoding the text of channel i of a block gives back channel i of that block. |
| Demux.CopyChannel | stream_audio.cpp:106-108 | The inner loop fills a fresh buffer with channel i of the block. |
| Demux.Demultiplex | stream_audio.cpp:101-114 | It returns `channels` buffers, each holding its channel of the block (so, by `DeinterleavedAt`, `[i][j] == audioPacket[j*channels+i]`). The buffers are distinct from each other and from the block. The texts are `EncodeChannels` of the channels. |
| Packets.Identifier | stream_audio.cpp:133-136 | `iuid` has 28 characters: 27 from the alphabet, then one `=`. |
| Packets.IdentifierInjective | stream_audio.cpp:133-136 | Different digests give different identifiers. |
| Packets.IdentifierDecodes | stream_audio.cpp:133-136 | Decoding an identifier gives back the 20 digest bytes, then two zero bytes. |
| Packets.BuildEnvelope | stream_audio.cpp:117-140 | The exact fields listed below this table. |
| Packets.EnvelopeIdentifier | stream_audio.cpp:133-136 | A packet's `iuid` decodes to its digest. Two packets built from the same texts and clock reading have the same `iuid` exactly when their digests are equal. |
| Packets.EnvelopesAgreeOnHeader | stream_audio.cpp:117-140 | Any two packets agree on every field except `audio`, `all_channels`, `created_at` and `iuid`. |
| Packets.NumChannelsHonest | stream_audio.cpp:123 | `num_channels` equals the packet's own channel count exactly when the file has 4 channels. |
| Streaming.ExitStatus | stream_audio.cpp:150-153 | The exit status is 0 exactly for a finished run, and 1 otherwise. |
| Streaming.FramesInPacket | stream_audio.cpp:96 | `frames_in_packet` is the largest whole number of frames that fits in `buffer_length` samples. |
| Streaming.Exhaustion | stream_audio.cpp:95-98 | The first read returning `n <= 0`: every earlier read returned frames. |
| Streaming.FirstFailure | stream_audio.cpp:145-153 | The first publish that threw, or the number of attempts when none threw: every earlier publish completed. |
| Streaming.FailureStops | stream_audio.cpp:145-153 | A failed publish stays the first failure whatever the later attempts would do. |
| Streaming.LoopOutcome | stream_audio.cpp:95-153 | The loop ends either finished or on a transport error, never otherwise. |
| Streaming.PacketFor | stream_audio.cpp:96-140 | A packet has one channel text per channel of the file. |
| Streaming.Published | stream_audio.cpp:143-148 | `count` iterations publish `count` packets. |
| Streaming.PublishedAt | stream_audio.cpp:143-148 | Packet m is built from read m and clock reading m. |
| Streaming.BuildPacket | stream_audio.cpp:96-140 | One iteration's fresh block, split and envelope give `PacketFor` of its read and clock reading. |
| Streaming.PublishLoop | stream_audio.cpp:95-148 | The loop's outcome is `LoopOutcome(e+1)`, where e is the first read with `n <= 0`. The count equals the packets published, and they are `Published` in read order. |
| Streaming.Stream | stream_audio.cpp:57-156 | `main` ends by `Expected`. An open failure or a connect failure publishes nothing. Otherwise the count equals the packets published, and those are `Published` in order. |
| Streaming.FinishedCountsEveryRead | stream_audio.cpp:95-148 | The loop finishes with `total_packets` equal to the number of reads, the exhausting read included, exactly when every publish completes. |
| Streaming.ThrowOnAttempt | stream_audio.cpp:145-153 | If publish throws first on attempt K, the loop stops with `total_packets == K-1`. |
| Streaming.NoFailureBefore | stream_audio.cpp:145-148 | When every publish among the first `count` completes, all `count` are counted. |
| Streaming.FileCounts | stream_audio.cpp:98 | Reading a file returns positive counts of at most `frames_in_packet`, then 0. |
| Streaming.FileExhausts | stream_audio.cpp:95-98 | For a file, the loop runs once per returned count, ending at the read that returns 0. |
| Streaming.FileCountsLength | stream_audio.cpp:95-98 | A file of T frames makes `(T+F-1)/F + 1` reads at F frames per read, and so as many packets. |
| Streaming.ShortFileCounts | stream_audio.cpp:98 | A 1600-frame file read 480 frames at a time returns 480, 480, 480, 160, 0. |
| Streaming.ShortFileFivePackets | stream_audio.cpp:95-148 | That file is published as five packets. |
| Streaming.PacketCarriesBlock | stream_audio.cpp:96-140 | Every channel text of a packet has the block-size length and decodes without a diagnostic to its channel of the whole block. `audio` is channel 0's text. |

`Packets.BuildEnvelope` fixes these fields:

- `creator` is "mpBeamforming" and `audio` is `all_channels[0]`.
- `all_channels` is the given texts.
- `sample_width` is the `SampleWidth` constant, 2; `buffer_duration` is 30, `num_channels` is 4 and `sample_rate` is 16000.
- `rms` is 0, and `all_rms` and `grounded_in` are empty.
- `created_at` is the clock reading.
- `iuid` is `Identifier(digest)`, the Base64 text of the digest: 28 characters ending in `=`.
- `previous_iu`, `vad` and `doa` are null.

## Left out

- **libsndfile.** `sf_open`, the `SF_INFO` fields, `sf_readf_short` and `sf_close` are file
  I/O. An open failure is a boolean, and the reads are a list of returned counts, each
  with the block content after the read. That the reads of a real file follow
  `FileCounts` is stated for `FileCounts` only.
- **`buffer_length = samplerate * 0.03 * channels`.** This is double arithmetic
  truncated to `int`, so `buffer_length` is a parameter.
- **Channel count.** The file is assumed to have at least one channel. With none,
  `buffer_length / channels` divides by zero.
- **MQTT.** The client, the callback class, the connect options, `publish()->wait()`,
  `disconnect` and message QoS are out. The connection and each publish are booleans,
  and a false publish is the `mqtt::exception` caught at lines 150-153.
- **Clock and SHA-1.** `created_at` is a `real` parameter, and the SHA-1 digest of its
  decimal form is an opaque 20-byte input.
- **Output and pacing.** `sleep_for` pacing, every console message and JSON
  serialisation by `toStyledString` have no effect on the modelled values.
- **Memory.** Leaks from `new`, `calloc` and the never-freed Base64 strings are out.
  `decode64` is modelled as returning the contents of its buffer.
- **Byte order.** Reading a `short` buffer as bytes (line 109) depends on the platform.
  The model fixes little-endian two's complement.
- **Trimming in `EVP_DecodeBlock`.** The decoder skips leading spaces and tabs. It also
  drops trailing spaces, tabs, CR, LF and `-`, its end-of-data marker. The model does no
  trimming and takes the text exactly as given. So a text such as `Zm9v-`, which OpenSSL
  decodes to 3 bytes, gives -1 in the model. `base64` never produces such characters.
  OpenSSL's source is not part of this model; its decoder is modelled from its
  documented behaviour:
  - a length that is not a multiple of 4 gives -1;
  - `=` counts as a zero value;
  - any other character outside the alphabet gives -1, after the earlier groups are
    written.
- **`record_audio.py`.** The MQTT subscriber that records received packets is not part
  of this model.
- **Demux.Demultiplex.** It states the per-sample index law through `Deinterleaved` and
  `Demux.DeinterleavedAt` rather than as its own quantified postcondition.
