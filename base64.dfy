/**
 * The Base64 helpers of the streamer, `base64` and `decode64`, and beneath them
 * the OpenSSL block encoder and decoder they wrap (EVP_EncodeBlock,
 * EVP_DecodeBlock), written out to the basic alphabet with '=' padding and no
 * line breaks (section 4 of RFC 4648).
 *
 * Both directions go through 6-bit values: the encoder cuts the input into
 * sextets and spells each with the alphabet; the decoder reads each character
 * back to its value and packs four values into three bytes.
 */
module Base64 {

  /** An octet, `unsigned char` in the source. */
  type byte = x: int | 0 <= x < 256

  /** A 6-bit group: the value of one character of the alphabet. */
  type sextet = x: int | 0 <= x < 64

  const Pad: char := '='

  // ---------------------------------------------------------------------------
  // The alphabet
  // ---------------------------------------------------------------------------

  /** The characters of the basic alphabet (table 1 of RFC 4648, section 4). */
  predicate IsSymbol(c: char) {
    ('A' <= c <= 'Z') || ('a' <= c <= 'z') || ('0' <= c <= '9') || c == '+' || c == '/'
  }

  /** The character that spells the value v. */
  function Sym(v: sextet): (c: char)
    ensures IsSymbol(c)
  {
    if v < 26 then ('A' as int + v) as char
    else if v < 52 then ('a' as int + (v - 26)) as char
    else if v < 62 then ('0' as int + (v - 52)) as char
    else if v == 62 then '+'
    else '/'
  }

  /** The value of an alphabet character, and -1 for every other character. */
  function Value(c: char): (v: int)
    ensures IsSymbol(c) ==> 0 <= v < 64
    ensures !IsSymbol(c) ==> v == -1
  {
    if 'A' <= c <= 'Z' then c as int - 'A' as int
    else if 'a' <= c <= 'z' then c as int - 'a' as int + 26
    else if '0' <= c <= '9' then c as int - '0' as int + 52
    else if c == '+' then 62
    else if c == '/' then 63
    else -1
  }

  lemma ValueOfSym(v: sextet)
    ensures Value(Sym(v)) == v
  {
  }

  lemma SymOfValue(c: char)
    requires IsSymbol(c)
    ensures Sym(Value(c)) == c
  {
  }

  /** A run of n zero bytes. */
  function Zeros(n: nat): (z: seq<byte>)
    ensures |z| == n && forall i :: 0 <= i < n ==> z[i] == 0
  {
    seq(n, _ => 0)
  }

  // ---------------------------------------------------------------------------
  // Encoding (EVP_EncodeBlock)
  // ---------------------------------------------------------------------------

  /** The number of 3-byte groups n bytes occupy, a final partial group included. */
  function Groups(n: nat): (g: nat)
    ensures n <= 3 * g < n + 3
  {
    if n == 0 then 0 else if n <= 3 then 1 else 1 + Groups(n - 3)
  }

  /** How many '=' close the encoding of n bytes: the unused bytes of the last group. */
  function Padding(n: nat): (p: nat)
    ensures p < 3
  {
    3 * Groups(n) - n
  }

  /** The four sextets of the 24 bits of three bytes, most significant first. */
  function TripleSextets(x: byte, y: byte, z: byte): (q: seq<sextet>)
    ensures |q| == 4
  {
    [x / 4, (x % 4) * 16 + y / 16, (y % 16) * 4 + z / 64, z % 64]
  }

  /**
   * The sextets of s, group by group; a final group of one or two bytes is
   * filled with zero bits to a whole group.
   */
  function Sextets(s: seq<byte>): (v: seq<sextet>)
    ensures |v| == 4 * Groups(|s|) && |v| % 4 == 0
    decreases |s|
  {
    if |s| == 0 then []
    else if |s| == 1 then TripleSextets(s[0], 0, 0)
    else if |s| == 2 then TripleSextets(s[0], s[1], 0)
    else TripleSextets(s[0], s[1], s[2]) + Sextets(s[3..])
  }

  /**
   * Base64 of s: every sextet spelt with the alphabet, except that the
   * positions of a final group that carry no input bits are written as '='.
   */
  function Encode(s: seq<byte>): (r: string)
    ensures |r| == 4 * Groups(|s|)
    ensures Padding(|s|) <= |r|
    ensures forall i :: 0 <= i < |r| ==>
              if i < |r| - Padding(|s|) then IsSymbol(r[i]) else r[i] == Pad
  {
    var v := Sextets(s);
    var n := |v| - Padding(|s|);
    seq(|v|, i requires 0 <= i < |v| => if i < n then Sym(v[i]) else Pad)
  }

  // ---------------------------------------------------------------------------
  // Decoding (EVP_DecodeBlock)
  // ---------------------------------------------------------------------------

  /** The value the block decoder gives a character: '=' counts as the zero sextet, -1 marks a foreign character. */
  function DecodeValue(c: char): (v: int)
    ensures v == -1 || 0 <= v < 64
    ensures v == -1 <==> !IsSymbol(c) && c != Pad
  {
    if c == Pad then 0 else Value(c)
  }

  /** The value of every character of t. */
  function Values(t: string): (vs: seq<int>)
    ensures |vs| == |t| && forall i :: 0 <= i < |t| ==> vs[i] == DecodeValue(t[i])
  {
    seq(|t|, i requires 0 <= i < |t| => DecodeValue(t[i]))
  }

  /** The three bytes carried by four sextets. */
  function DecodeQuad(a: sextet, b: sextet, c: sextet, d: sextet): (r: seq<byte>)
    ensures |r| == 3
  {
    [a * 4 + b / 16, (b % 16) * 16 + c / 4, (c % 4) * 64 + d]
  }

  /**
   * What the block decoder leaves behind: the bytes it wrote into the output
   * buffer and the count it returns (-1 for rejected input).
   */
  datatype DecodeResult = DecodeResult(written: seq<byte>, ret: int)

  /** Values the group decoder accepts: all of them sextets. */
  predicate AllSextets(vs: seq<int>) {
    forall i :: 0 <= i < |vs| ==> 0 <= vs[i] < 64
  }

  /** Packs values group after group; a group holding a foreign character (a value that is no sextet) stops it with -1. */
  function DecodeGroups(vs: seq<int>): (r: DecodeResult)
    requires |vs| % 4 == 0
    ensures r.ret == -1 || r.ret == |r.written|
    ensures r.ret != -1 <==> AllSextets(vs)
    ensures r.ret != -1 ==> 4 * r.ret == 3 * |vs|
    ensures 4 * |r.written| <= 3 * |vs|
    decreases |vs|
  {
    if |vs| == 0 then DecodeResult([], 0)
    else if !(0 <= vs[0] < 64 && 0 <= vs[1] < 64 && 0 <= vs[2] < 64 && 0 <= vs[3] < 64) then
      DecodeResult([], -1)
    else
      var rest := DecodeGroups(vs[4..]);
      assert AllSextets(vs) <==> AllSextets(vs[4..]) by {
        if AllSextets(vs[4..]) {
          assert forall i :: 4 <= i < |vs| ==> vs[i] == vs[4..][i - 4];
        }
      }
      DecodeResult(DecodeQuad(vs[0], vs[1], vs[2], vs[3]) + rest.written,
                   if rest.ret < 0 then -1 else rest.ret + 3)
  }

  /** Input the block decoder accepts: whole groups of four, all alphabet characters or '='. */
  predicate Decodable(t: string) {
    |t| % 4 == 0 && forall i :: 0 <= i < |t| ==> DecodeValue(t[i]) >= 0
  }

  /** The block decoder: input whose length is not a multiple of four is refused before anything is written. */
  function DecodeBlock(t: string): (r: DecodeResult)
    ensures r.ret == -1 || r.ret == |r.written|
    ensures r.ret != -1 <==> Decodable(t)
    ensures r.ret != -1 ==> 4 * r.ret == 3 * |t|
    ensures 4 * |r.written| <= 3 * |t|
    ensures |t| % 4 != 0 ==> r.written == []
  {
    if |t| % 4 != 0 then DecodeResult([], -1) else DecodeGroups(Values(t))
  }

  // ---------------------------------------------------------------------------
  // The wrappers `base64` and `decode64`, with their length predictions
  // ---------------------------------------------------------------------------

  /** The output length `base64` predicts for `length` input bytes. */
  function EncodePrediction(length: nat): nat {
    4 * ((length + 2) / 3)
  }

  /** The output length `decode64` predicts for `length` input characters. */
  function DecodePrediction(length: nat): nat {
    3 * length / 4
  }

  /** The group count is the rounded-up third that `base64` computes. */
  lemma GroupsFormula(n: nat)
    ensures Groups(n) == (n + 2) / 3
  {
    var g := Groups(n);
    assert n + 2 == 3 * g + (n + 2 - 3 * g);
  }

  /** The text `base64` returns, and whether it reported a length mismatch. */
  datatype Encoded = Encoded(text: string, diagnostic: bool)

  /** `base64(input, |input|)`: its defensive length check never fires. */
  function Base64Call(input: seq<byte>): (r: Encoded)
    ensures !r.diagnostic
    ensures |r.text| == EncodePrediction(|input|)
  {
    var text := Encode(input);
    GroupsFormula(|input|);
    Encoded(text, EncodePrediction(|input|) != |text|)
  }

  /** The zero-filled buffer `decode64` returns (prediction plus one byte), and whether it reported a mismatch. */
  datatype Decoded = Decoded(buffer: seq<byte>, diagnostic: bool)

  /** `decode64(t, |t|)`: it reports a mismatch exactly for input the decoder refuses. */
  function Decode64Call(t: string): (r: Decoded)
    ensures |r.buffer| == DecodePrediction(|t|) + 1 && r.buffer[|r.buffer| - 1] == 0
    ensures r.diagnostic <==> !Decodable(t)
  {
    var pl := DecodePrediction(|t|);
    var block := DecodeBlock(t);
    Decoded(block.written + Zeros(pl + 1 - |block.written|), pl != block.ret)
  }

  // ---------------------------------------------------------------------------
  // Round trips
  // ---------------------------------------------------------------------------

  lemma TripleRoundTrip(x: byte, y: byte, z: byte)
    ensures var q := TripleSextets(x, y, z); DecodeQuad(q[0], q[1], q[2], q[3]) == [x, y, z]
  {
  }

  lemma QuadRoundTrip(a: sextet, b: sextet, c: sextet, d: sextet)
    ensures var r := DecodeQuad(a, b, c, d); TripleSextets(r[0], r[1], r[2]) == [a, b, c, d]
  {
    var x, y, z := a * 4 + b / 16, (b % 16) * 16 + c / 4, (c % 4) * 64 + d;
    assert x / 4 == a && x % 4 == b / 16;
    assert y / 16 == b % 16 && y % 16 == c / 4;
    assert z / 64 == c % 4 && z % 64 == d;
    assert (x % 4) * 16 + y / 16 == b;
    assert (y % 16) * 4 + z / 64 == c;
  }

  /** A leading whole group leaves the padding of the rest unchanged. */
  lemma PaddingStep(n: nat)
    requires n >= 3
    ensures Groups(n) == 1 + Groups(n - 3) && Padding(n) == Padding(n - 3)
  {
  }

  /** The sextets of s are those of its first three bytes, then those of the rest. */
  lemma SextetsCons(s: seq<byte>)
    requires |s| >= 3
    ensures Sextets(s) == TripleSextets(s[0], s[1], s[2]) + Sextets(s[3..])
  {
  }

  /** The positions of a final partial group that carry no input bits hold zero sextets. */
  lemma {:induction false} PaddedSextetsZero(s: seq<byte>)
    ensures forall i :: |Sextets(s)| - Padding(|s|) <= i < |Sextets(s)| ==> Sextets(s)[i] == 0
    decreases |s|
  {
    if |s| >= 3 {
      PaddedSextetsZero(s[3..]);
      var v, rest := Sextets(s), Sextets(s[3..]);
      SextetsCons(s);
      PaddingStep(|s|);
      var p := Padding(|s|);
      forall i | |v| - p <= i < |v| ensures v[i] == 0 {
        assert v[i] == rest[i - 4];
        assert |rest| - Padding(|s| - 3) <= i - 4;
      }
    }
  }

  /** The decoder reads an encoding back to the encoder's sextets, '=' as zero. */
  lemma ValuesOfEncode(s: seq<byte>)
    ensures Values(Encode(s)) == Sextets(s)
  {
    var t, v := Encode(s), Sextets(s);
    PaddedSextetsZero(s);
    forall i | 0 <= i < |t| ensures Values(t)[i] == v[i] {
      if i < |t| - Padding(|s|) {
        ValueOfSym(v[i]);
      }
    }
  }

  /** A leading group of four sextets packs to its three bytes, ahead of what the rest packs to. */
  lemma LeadingGroup(q: seq<sextet>, rest: seq<int>, w: seq<byte>, ret: int)
    requires |q| == 4 && |rest| % 4 == 0 && ret != -1
    requires DecodeGroups(rest) == DecodeResult(w, ret)
    ensures DecodeGroups(q + rest) == DecodeResult(DecodeQuad(q[0], q[1], q[2], q[3]) + w, ret + 3)
  {
    assert (q + rest)[4..] == rest;
  }

  /** The sextets of three bytes, ahead of those of the rest, pack back to those bytes. */
  lemma LeadingTriple(x: byte, y: byte, z: byte, rest: seq<int>, w: seq<byte>, ret: int)
    requires |rest| % 4 == 0 && ret != -1
    requires DecodeGroups(rest) == DecodeResult(w, ret)
    ensures DecodeGroups(TripleSextets(x, y, z) + rest) == DecodeResult([x, y, z] + w, ret + 3)
  {
    var q := TripleSextets(x, y, z);
    LeadingGroup(q, rest, w, ret);
    TripleRoundTrip(x, y, z);
  }

  /** The bytes s, filled with zero bytes to whole groups of three. */
  function Padded(s: seq<byte>): (p: seq<byte>)
    ensures |p| == 3 * Groups(|s|)
    decreases |s|
  {
    if |s| == 0 then []
    else if |s| == 1 then [s[0], 0, 0]
    else if |s| == 2 then [s[0], s[1], 0]
    else [s[0], s[1], s[2]] + Padded(s[3..])
  }

  /** The filling is one zero byte per padding position. */
  lemma {:induction false} PaddedZeros(s: seq<byte>)
    ensures Padded(s) == s + Zeros(Padding(|s|))
    decreases |s|
  {
    if 1 <= |s| < 3 {
      assert Padded(s) == s + Zeros(Padding(|s|));
    } else if |s| >= 3 {
      PaddedZeros(s[3..]);
      PaddingStep(|s|);
      var z := Zeros(Padding(|s|));
      assert s == [s[0], s[1], s[2]] + s[3..];
      assert [s[0], s[1], s[2]] + (s[3..] + z) == s + z;
    }
  }

  /** A final group of one or two bytes packs back to those bytes, filled with zeros. */
  lemma PartialGroupDecodes(s: seq<byte>)
    requires 1 <= |s| < 3
    ensures DecodeGroups(Sextets(s)) == DecodeResult(Padded(s), 3)
  {
    var y := if |s| == 2 then s[1] else 0;
    var q := TripleSextets(s[0], y, 0);
    LeadingTriple(s[0], y, 0, [], [], 0);
    assert q + [] == q;
    assert Sextets(s) == q;
  }

  /** A leading whole group: its three bytes come first, then what the rest packs to. */
  lemma DecodeSextetsStep(s: seq<byte>)
    requires |s| >= 3
    requires DecodeGroups(Sextets(s[3..])) == DecodeResult(Padded(s[3..]), 3 * Groups(|s| - 3))
    ensures DecodeGroups(Sextets(s)) == DecodeResult(Padded(s), 3 * Groups(|s|))
  {
    SextetsCons(s);
    PaddingStep(|s|);
    LeadingTriple(s[0], s[1], s[2], Sextets(s[3..]), Padded(s[3..]), 3 * Groups(|s| - 3));
  }

  /** Packing the sextets of s gives back s, filled with zero bytes to whole groups. */
  lemma {:induction false} DecodeSextets(s: seq<byte>)
    ensures DecodeGroups(Sextets(s)) == DecodeResult(Padded(s), 3 * Groups(|s|))
    decreases |s|
  {
    if 1 <= |s| < 3 {
      PartialGroupDecodes(s);
    } else if |s| >= 3 {
      DecodeSextets(s[3..]);
      DecodeSextetsStep(s);
    }
  }

  /**
   * Decoding what `Encode` produced gives back the input, followed by one zero
   * byte per '='; the decoder returns three bytes per group of four characters.
   */
  lemma DecodeEncode(s: seq<byte>)
    ensures DecodeBlock(Encode(s)) == DecodeResult(s + Zeros(Padding(|s|)), |s| + Padding(|s|))
    ensures 4 * (|s| + Padding(|s|)) == 3 * |Encode(s)|
  {
    ValuesOfEncode(s);
    DecodeSextets(s);
    PaddedZeros(s);
  }

  /** The three bytes packed from four sextets, ahead of other bytes, spell those sextets first. */
  lemma LeadingQuad(a: sextet, b: sextet, c: sextet, d: sextet, tail: seq<byte>)
    ensures Sextets(DecodeQuad(a, b, c, d) + tail) == [a, b, c, d] + Sextets(tail)
  {
    var r := DecodeQuad(a, b, c, d);
    var w := r + tail;
    SextetsCons(w);
    assert w[3..] == tail;
    assert w[0] == r[0] && w[1] == r[1] && w[2] == r[2];
    QuadRoundTrip(a, b, c, d);
  }

  lemma SplitFour(vs: seq<int>)
    requires |vs| >= 4
    ensures vs == [vs[0], vs[1], vs[2], vs[3]] + vs[4..]
  {
  }

  /** One leading group of values: the sextets of its three bytes are those values. */
  lemma SextetsOfDecodeStep(vs: seq<int>)
    requires |vs| % 4 == 0 && |vs| > 0 && AllSextets(vs)
    requires Sextets(DecodeGroups(vs[4..]).written) == vs[4..]
    ensures Sextets(DecodeGroups(vs).written) == vs
  {
    var a, b, c, d := vs[0], vs[1], vs[2], vs[3];
    var tail := DecodeGroups(vs[4..]).written;
    var w := DecodeGroups(vs).written;
    assert w == DecodeQuad(a, b, c, d) + tail;
    LeadingQuad(a, b, c, d, tail);
    SplitFour(vs);
  }

  /** Sextets of bytes that were packed from whole groups of sextets are those sextets. */
  lemma {:induction false} SextetsOfDecode(vs: seq<int>)
    requires |vs| % 4 == 0 && AllSextets(vs)
    ensures Sextets(DecodeGroups(vs).written) == vs
    decreases |vs|
  {
    if |vs| > 0 {
      var rest := vs[4..];
      assert AllSextets(rest) by {
        assert forall i :: 0 <= i < |rest| ==> rest[i] == vs[i + 4];
      }
      SextetsOfDecode(rest);
      SextetsOfDecodeStep(vs);
    }
  }

  /** A character of an encoding: a sextet spelt, or '=' where no input bits remain. */
  lemma EncodeAt(s: seq<byte>, i: int)
    requires 0 <= i < |Encode(s)|
    ensures Encode(s)[i] == if i < |Sextets(s)| - Padding(|s|) then Sym(Sextets(s)[i]) else Pad
  {
  }

  /** Encoding the bytes decoded from unpadded alphabet text gives back that text. */
  lemma EncodeDecode(t: string)
    requires |t| % 4 == 0
    requires forall i :: 0 <= i < |t| ==> IsSymbol(t[i])
    ensures Decodable(t)
    ensures Encode(DecodeBlock(t).written) == t
  {
    var vs := Values(t);
    assert AllSextets(vs);
    var w := DecodeGroups(vs).written;
    assert DecodeBlock(t).written == w;
    SextetsOfDecode(vs);
    assert 4 * |w| == 3 * |t|;
    assert Padding(|w|) == 0;
    var r := Encode(w);
    forall i | 0 <= i < |t| ensures r[i] == t[i] {
      EncodeAt(w, i);
      assert Sextets(w)[i] == Value(t[i]);
      SymOfValue(t[i]);
    }
  }

  /** The number of '=' that close t (at most two). */
  function TrailingPads(t: string): nat {
    if |t| == 0 || t[|t| - 1] != Pad then 0
    else if |t| == 1 || t[|t| - 2] != Pad then 1
    else 2
  }

  /** An encoding shows its padding: the '=' it ends with are exactly Padding(|s|). */
  lemma PaddingVisible(s: seq<byte>)
    ensures TrailingPads(Encode(s)) == Padding(|s|)
  {
    var t := Encode(s);
    if |t| > 0 {
      assert t[|t| - 1] == Pad <==> Padding(|s|) >= 1;
      assert t[|t| - 2] == Pad <==> Padding(|s|) == 2;
    }
  }

  /** Different byte strings never share an encoding. */
  lemma EncodeInjective(s1: seq<byte>, s2: seq<byte>)
    requires Encode(s1) == Encode(s2)
    ensures s1 == s2
  {
    var t := Encode(s1);
    PaddingVisible(s1);
    PaddingVisible(s2);
    DecodeEncode(s1);
    DecodeEncode(s2);
    var w := DecodeBlock(t).written;
    assert s1 == w[..|s1|];
    assert s2 == w[..|s2|];
  }

  /**
   * `decode64` of what `base64` produced reports no mismatch: the prediction
   * 3*length/4 is what the decoder returns, and the buffer starts with the
   * original bytes, the padding positions following as zero bytes.
   */
  lemma Decode64OfBase64(s: seq<byte>)
    ensures var t := Base64Call(s).text;
            var r := Decode64Call(t);
            && !r.diagnostic
            && DecodePrediction(|t|) == 3 * ((|s| + 2) / 3)
            && r.buffer[..|s|] == s
            && forall i :: |s| <= i < |r.buffer| ==> r.buffer[i] == 0
  {
    var t := Encode(s);
    DecodeEncode(s);
    GroupsFormula(|s|);
    var r := Decode64Call(t);
    assert r.buffer == s + Zeros(Padding(|s|)) + Zeros(1);
  }
}
