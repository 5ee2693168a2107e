/** The pixel loops of encode and decode (Steganography.py lines 51-69 and
    91-96) over a flat sequence of channel values: channel i (0..2) of pixel
    (x, y) of a width-wide image sits at index 3 * (y * width + x) + i. */
module Pixels {
  import opened Codec

  /** Flat index of channel i of pixel (x, y). */
  function ChannelIndex(width: nat, x: nat, y: nat, i: nat): (k: nat) {
    3 * (y * width + x) + i
  }

  /** One step of the encoder: the channel value moved by delta in {-1, 0, 1}
      so that its parity (Python's `% 2`) equals the bit. */
  function MatchParity(v: int, bit: Bit): (r: int)
    ensures r % 2 == bit
    ensures -1 <= r - v <= 1
    ensures v % 2 == bit ==> r == v
    ensures v % 2 == 0 ==> r >= v
    ensures v % 2 == 1 ==> r <= v
    ensures 0 <= v <= 255 ==> 0 <= r <= 255
  {
    var colorBit := v % 2;
    var delta := if bit == 1 && colorBit == 0 then 1
                 else if bit == 0 && colorBit == 1 then -1
                 else 0;
    v + delta
  }

  /** The channels after the encoder: channel k takes the parity of bit k
      while bits last; every later channel keeps its value. */
  function Embed(channels: seq<int>, bits: seq<Bit>): (out: seq<int>)
    ensures |out| == |channels|
    ensures forall k :: 0 <= k < |out| && k < |bits| ==> out[k] % 2 == bits[k]
    ensures forall k :: 0 <= k < |out| ==> -1 <= out[k] - channels[k] <= 1
    ensures forall k :: |bits| <= k < |out| ==> out[k] == channels[k]
    ensures forall k :: 0 <= k < |out| && channels[k] % 2 == 0 ==> out[k] >= channels[k]
    ensures forall k :: 0 <= k < |out| && channels[k] % 2 == 1 ==> out[k] <= channels[k]
    ensures forall k :: 0 <= k < |out| && 0 <= channels[k] <= 255 ==> 0 <= out[k] <= 255
  {
    seq(|channels|, k requires 0 <= k < |channels| =>
      if k < |bits| then MatchParity(channels[k], bits[k]) else channels[k])
  }

  /** The bit list the decoder reads: one bit per channel, in the flat
      visiting order, each the parity of its channel. */
  function Parities(channels: seq<int>): (bits: seq<Bit>)
    ensures |bits| == |channels|
    ensures forall k :: 0 <= k < |bits| ==> bits[k] == channels[k] % 2
  {
    seq(|channels|, k requires 0 <= k < |channels| => channels[k] % 2)
  }

  /** Visiting order: the encoder and decoder visit flat indices 0, 1, 2, ...
      in turn. The channel after (x, y, i) is (x, y, i + 1) within a pixel,
      then channel 0 of the next pixel in the row, then channel 0 of the
      first pixel of the next row, and each of these is one index further. */
  lemma NextChannel(width: nat, height: nat, x: nat, y: nat, i: nat)
    requires x < width && y < height && i < 3
    ensures ChannelIndex(width, x, y, i) < width * height * 3
    ensures i < 2 ==> ChannelIndex(width, x, y, i + 1) == ChannelIndex(width, x, y, i) + 1
    ensures i == 2 && x + 1 < width ==> ChannelIndex(width, x + 1, y, 0) == ChannelIndex(width, x, y, i) + 1
    ensures i == 2 && x + 1 == width ==> ChannelIndex(width, 0, y + 1, 0) == ChannelIndex(width, x, y, i) + 1
  {
    PixelBounds(width, height, x, y);
    assert (y + 1) * width == y * width + width;
  }

  /** Row y of a width x height image ends within the channel sequence. */
  lemma RowBounds(width: nat, height: nat, y: nat)
    requires y < height
    ensures y * width + width <= width * height
    ensures (y + 1) * width == y * width + width
  {
    assert (y + 1) * width == y * width + width;
    MulMonotone(y + 1, height, width);
  }

  lemma PixelBounds(width: nat, height: nat, x: nat, y: nat)
    requires x < width && y < height
    ensures y * width + x < width * height
  {
    RowBounds(width, height, y);
  }

  lemma MulMonotone(a: nat, b: nat, c: nat)
    requires a <= b
    ensures a * c <= b * c
  {
    assert b * c == a * c + (b - a) * c;
  }

  /** The encoder loop of lines 51-69: rows top to bottom, pixels left to
      right within a row, channels 0..2 within a pixel. */
  method EmbedBits(width: nat, height: nat, channels: seq<int>, bits: seq<Bit>) returns (out: seq<int>)
    requires |channels| == width * height * 3
    ensures out == Embed(channels, bits)
    ensures forall k :: 0 <= k < |out| && k < |bits| ==> out[k] % 2 == bits[k]
    ensures forall k :: |bits| <= k < |out| ==> out[k] == channels[k]
  {
    out := channels;
    assert out == Embed(channels, bits[..0]);
    for y := 0 to height
      invariant out == Embed(channels, bits[..Min(3 * (y * width), |bits|)])
    {
      out := EmbedRow(width, height, y, channels, bits, out);
    }
    assert 3 * (height * width) == |channels|;
    EmbedIgnoresSurplus(channels, bits);
  }

  /** The encoder over row `y`, pixels left to right. */
  method EmbedRow(width: nat, height: nat, y: nat, channels: seq<int>, bits: seq<Bit>, pixels: seq<int>)
    returns (out: seq<int>)
    requires |channels| == width * height * 3 && y < height
    requires pixels == Embed(channels, bits[..Min(3 * (y * width), |bits|)])
    ensures out == Embed(channels, bits[..Min(3 * ((y + 1) * width), |bits|)])
  {
    out := pixels;
    RowBounds(width, height, y);
    for x := 0 to width
      invariant out == Embed(channels, bits[..Min(3 * (y * width + x), |bits|)])
    {
      PixelBounds(width, height, x, y);
      out := EmbedPixel(channels, bits, ChannelIndex(width, x, y, 0), out);
    }
  }

  /** The body of the encoder for one pixel whose channels start at `base`:
      channels 0..2 in turn, stopping at the first index past the last bit
      (the `break` on IndexError). */
  method EmbedPixel(channels: seq<int>, bits: seq<Bit>, base: nat, pixels: seq<int>) returns (out: seq<int>)
    requires base + 3 <= |channels|
    requires pixels == Embed(channels, bits[..Min(base, |bits|)])
    ensures out == Embed(channels, bits[..Min(base + 3, |bits|)])
  {
    out := pixels;
    var i := 0;
    while i < 3
      invariant 0 <= i <= 3
      invariant out == Embed(channels, bits[..Min(base + i, |bits|)])
    {
      var idx := base + i;
      if idx >= |bits| {
        break;
      }
      var bit := bits[idx];
      var colorBit := out[idx] % 2;
      var delta := 0;
      if bit == 1 && colorBit == 0 {
        delta := 1;
      } else if bit == 0 && colorBit == 1 {
        delta := -1;
      }
      EmbedStep(channels, bits, idx);
      out := out[idx := out[idx] + delta];
      i := i + 1;
    }
  }

  /** Writing one more bit changes exactly the next channel. */
  lemma EmbedStep(channels: seq<int>, bits: seq<Bit>, n: nat)
    requires n < |bits| && n < |channels|
    ensures Embed(channels, bits[..n + 1]) == Embed(channels, bits[..n])[n := MatchParity(channels[n], bits[n])]
  {
  }

  /** Bits beyond the last channel are never written. */
  lemma EmbedIgnoresSurplus(channels: seq<int>, bits: seq<Bit>)
    ensures Embed(channels, bits[..Min(|channels|, |bits|)]) == Embed(channels, bits)
  {
  }

  /** The decoder loop of lines 91-96: every channel of every pixel, in the
      encoder's order, contributes its parity. */
  method ExtractBits(width: nat, height: nat, channels: seq<int>) returns (bits: seq<Bit>)
    requires |channels| == width * height * 3
    ensures bits == Parities(channels)
    ensures |bits| == width * height * 3
    ensures forall k :: 0 <= k < |bits| ==> bits[k] == channels[k] % 2
  {
    bits := [];
    for y := 0 to height
      invariant bits == Parities(channels[..3 * (y * width)])
    {
      RowBounds(width, height, y);
      bits := ExtractRow(width, height, y, channels, bits);
    }
    assert 3 * (height * width) == |channels|;
    assert channels[..|channels|] == channels;
  }

  /** The decoder over row `y`, pixels left to right, channels 0..2. */
  method ExtractRow(width: nat, height: nat, y: nat, channels: seq<int>, read: seq<Bit>) returns (bits: seq<Bit>)
    requires |channels| == width * height * 3 && y < height
    requires 3 * (y * width + width) <= |channels|
    requires read == Parities(channels[..3 * (y * width)])
    ensures bits == Parities(channels[..3 * (y * width + width)])
  {
    bits := read;
    RowBounds(width, height, y);
    for x := 0 to width
      invariant bits == Parities(channels[..3 * (y * width + x)])
    {
      PixelBounds(width, height, x, y);
      var base := ChannelIndex(width, x, y, 0);
      for i := 0 to 3
        invariant bits == Parities(channels[..base + i])
      {
        var bit := channels[ChannelIndex(width, x, y, i)] % 2;
        bits := bits + [bit];
      }
    }
  }

  /** Decoding after encoding: the parities read back start with the bits
      written, followed by the parities of the untouched channels. */
  lemma ExtractAfterEmbed(channels: seq<int>, bits: seq<Bit>)
    requires |bits| <= |channels|
    ensures Parities(Embed(channels, bits)) == bits + Parities(channels[|bits|..])
  {
    var lhs := Parities(Embed(channels, bits));
    var rhs := bits + Parities(channels[|bits|..]);
    forall k | 0 <= k < |channels|
      ensures lhs[k] == rhs[k]
    {
      if k >= |bits| {
        assert channels[|bits|..][k - |bits|] == channels[k];
      }
    }
  }
}
