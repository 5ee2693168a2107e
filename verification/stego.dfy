/** The encode and decode pipelines of Steganography.py with the console,
    file and image-library steps removed: an image is its width, height and
    flat channel sequence, a message is a sequence of code points. */
module Stego {
  import opened Results
  import opened Codec
  import opened Framing
  import opened Pixels

  /** An RGB image as the pixel accessor exposes it: channel i of pixel
      (x, y) is channels[ChannelIndex(width, x, y, i)]. */
  datatype Image = Image(width: nat, height: nat, channels: seq<int>)

  /** Three channels for every pixel. */
  predicate Shaped(img: Image) {
    |img.channels| == img.width * img.height * 3
  }

  /** Channel values of an 8-bit image. */
  predicate InRange(img: Image) {
    forall k :: 0 <= k < |img.channels| ==> 0 <= img.channels[k] <= 255
  }

  /** The image with the bits of `text` written into its channels' parities
      by the encoder loop (Pixels.EmbedBits computes Embed). */
  function Store(img: Image, text: seq<CodePoint>): (out: Image) {
    img.(channels := Embed(img.channels, StringToBinary(text)))
  }

  /** encode() after the image is loaded, as written: the message with
      "STOP" appended is validated, cut to the capacity (line 48), turned
      into bits and written into the channels' parities. */
  function EncodeAsWritten(img: Image, message: seq<CodePoint>): (r: Result<Image, Error>)
    requires Shaped(img)
    ensures r.Failure? <==> !Encodable(message)
    ensures r.Failure? ==> r.error == UnencodableCharacter
    ensures r.Success? ==> r.value.width == img.width && r.value.height == img.height && Shaped(r.value)
    ensures r.Success? && InRange(img) ==> InRange(r.value)
    ensures r.Success? ==> forall k :: 0 <= k < |img.channels| ==> -1 <= r.value.channels[k] - img.channels[k] <= 1
    ensures r.Success? ==> forall k :: 0 <= k < |img.channels| && img.channels[k] % 2 == 0 ==> r.value.channels[k] >= img.channels[k]
    ensures r.Success? ==> forall k :: 0 <= k < |img.channels| && img.channels[k] % 2 == 1 ==> r.value.channels[k] <= img.channels[k]
    ensures r.Success? ==> forall k :: 0 <= k < 8 * |FrameAsWritten(message, Capacity(img.width, img.height))| ==>
      k < |img.channels| && r.value.channels[k] % 2 == StringToBinary(FrameAsWritten(message, Capacity(img.width, img.height)))[k]
    ensures r.Success? ==> forall k :: 8 * |FrameAsWritten(message, Capacity(img.width, img.height))| <= k < |img.channels| ==>
      r.value.channels[k] == img.channels[k]
  {
    EncodableWithTerminator(message);
    if !Encodable(message + Terminator) then Failure(UnencodableCharacter)
    else Success(Store(img, FrameAsWritten(message, Capacity(img.width, img.height))))
  }

  /** encode() with the corrected framing: when the capacity is at least 4,
      the raw message is cut to leave room for the whole terminator
      (Framing.Frame); the rest is as written. */
  function Encode(img: Image, message: seq<CodePoint>): (r: Result<Image, Error>)
    requires Shaped(img)
    ensures r.Failure? <==> !Encodable(message)
    ensures r.Failure? ==> r.error == UnencodableCharacter
    ensures r.Success? ==> r.value.width == img.width && r.value.height == img.height && Shaped(r.value)
    ensures r.Success? && InRange(img) ==> InRange(r.value)
    ensures r.Success? ==> forall k :: 0 <= k < |img.channels| ==> -1 <= r.value.channels[k] - img.channels[k] <= 1
    ensures r.Success? ==> forall k :: 0 <= k < |img.channels| && img.channels[k] % 2 == 0 ==> r.value.channels[k] >= img.channels[k]
    ensures r.Success? ==> forall k :: 0 <= k < |img.channels| && img.channels[k] % 2 == 1 ==> r.value.channels[k] <= img.channels[k]
    ensures r.Success? ==> forall k :: 0 <= k < 8 * |Frame(message, Capacity(img.width, img.height))| ==>
      k < |img.channels| && r.value.channels[k] % 2 == StringToBinary(Frame(message, Capacity(img.width, img.height)))[k]
    ensures r.Success? ==> forall k :: 8 * |Frame(message, Capacity(img.width, img.height))| <= k < |img.channels| ==>
      r.value.channels[k] == img.channels[k]
  {
    EncodableWithTerminator(message);
    if !Encodable(message + Terminator) then Failure(UnencodableCharacter)
    else Success(Store(img, Frame(message, Capacity(img.width, img.height))))
  }

  /** decode() after the image is loaded, with binary_to_string corrected to
      read whole groups only: every channel's parity, grouped into characters,
      cut at the first "STOP". Character k is read from channels 8k..8k+7,
      most significant bit first. */
  function Decode(img: Image): (text: seq<CodePoint>)
    requires Shaped(img)
    ensures Encodable(text)
    ensures |text| <= Capacity(img.width, img.height)
    ensures !Contains(text, Terminator)
    ensures forall k, j | 0 <= k < |text| && 0 <= j < 8 :: BitOf(text[k], j) == img.channels[8 * k + j] % 2
    ensures var d := DecodeGroups(Parities(img.channels));
            text <= d && (!Contains(d, Terminator) ==> text == d) &&
            (Contains(d, Terminator) ==> OccursAt(d, Terminator, |text|))
  {
    var d := DecodeGroups(Parities(img.channels));
    StringToBinaryMsbFirst(d);
    Unframe(d)
  }

  /** decode() as written: binary_to_string raises IndexError unless the
      number of channels is a multiple of 8; otherwise it agrees with Decode. */
  function DecodeAsWritten(img: Image): (r: Result<seq<CodePoint>, Error>)
    requires Shaped(img)
    ensures r.Success? <==> (img.width * img.height * 3) % 8 == 0
    ensures r.Failure? ==> r.error == IndexError
    ensures r.Success? ==> r.value == Decode(img)
  {
    match BinaryToString(Parities(img.channels))
    case Success(text) => Success(Unframe(text))
    case Failure(e) => Failure(e)
  }

  // ---------------------------------------------------------------------
  // End-to-end properties
  // ---------------------------------------------------------------------

  /** Whatever the message, the framed text fits the image's channels. */
  lemma FramedFits(img: Image, message: seq<CodePoint>)
    requires Shaped(img)
    ensures 8 * |FrameAsWritten(message, Capacity(img.width, img.height))| <= |img.channels|
    ensures 8 * |Frame(message, Capacity(img.width, img.height))| <= |img.channels|
  {
  }

  /** When the message fits together with its terminator, the source's
      encode and the corrected one write the same image. */
  lemma EncodeAgreesWhenFits(img: Image, message: seq<CodePoint>)
    requires Shaped(img)
    requires |message| + 4 <= Capacity(img.width, img.height)
    ensures EncodeAsWritten(img, message) == Encode(img, message)
  {
    FrameAgreesWhenFits(message, Capacity(img.width, img.height));
  }

  /** Decoding an encoded image shows the part of the message that fit, the
      first cap - 4 characters, up to its own first "STOP" if it has one. */
  lemma EncodeDecode(img: Image, message: seq<CodePoint>)
    requires Shaped(img) && Encodable(message)
    requires Capacity(img.width, img.height) >= 4
    ensures Encode(img, message).Success?
    ensures Decode(Encode(img, message).value) == Unframe(message[..Min(|message|, Capacity(img.width, img.height) - 4)])
  {
    EncodeStores(img, message);
    ReadBackFramed(img, message);
  }

  /** A byte message is accepted and stored with the corrected framing. */
  lemma EncodeStores(img: Image, message: seq<CodePoint>)
    requires Shaped(img) && Encodable(message)
    ensures Encode(img, message) == Success(Store(img, Frame(message, Capacity(img.width, img.height))))
  {
    EncodableWithTerminator(message);
  }

  /** The core of EncodeDecode: decoding an image that carries the corrected
      framing of a message shows the kept part up to its first "STOP". */
  lemma ReadBackFramed(img: Image, message: seq<CodePoint>)
    requires Shaped(img) && Encodable(message) && Capacity(img.width, img.height) >= 4
    ensures Decode(Store(img, Frame(message, Capacity(img.width, img.height))))
      == Unframe(message[..Min(|message|, Capacity(img.width, img.height) - 4)])
  {
    var cap := Capacity(img.width, img.height);
    var channels := img.channels;
    var kept := message[..Min(|message|, cap - 4)];
    var framed := Frame(message, cap);
    assert framed == kept + Terminator;
    assert Encodable(framed) by {
      assert forall k :: 0 <= k < |kept| ==> framed[k] == message[k];
    }
    var bits := StringToBinary(framed);
    ExtractAfterEmbed(channels, bits);
    var rest := Parities(channels[|bits|..]);
    DecodeGroupsAppend(bits, rest);
    DecodeGroupsInverse(framed);
    FrameUnframeKept(message, cap, DecodeGroups(rest));
  }

  /** Decoding an encoded image recovers the part of the message that fit:
      the first cap - 4 characters, where cap is the capacity. */
  lemma TruncatedRoundTrip(img: Image, message: seq<CodePoint>)
    requires Shaped(img) && Encodable(message)
    requires Capacity(img.width, img.height) >= 4
    requires !Contains(message[..Min(|message|, Capacity(img.width, img.height) - 4)], Terminator)
    ensures Encode(img, message).Success?
    ensures Decode(Encode(img, message).value) == message[..Min(|message|, Capacity(img.width, img.height) - 4)]
  {
    EncodeDecode(img, message);
  }

  /** The round trip: a byte message with no "STOP" in it that fits together
      with its terminator is decoded exactly. */
  lemma RoundTrip(img: Image, message: seq<CodePoint>)
    requires Shaped(img) && Encodable(message) && !Contains(message, Terminator)
    requires |message| + 4 <= Capacity(img.width, img.height)
    ensures Encode(img, message).Success?
    ensures Decode(Encode(img, message).value) == message
  {
    assert message[..Min(|message|, Capacity(img.width, img.height) - 4)] == message;
    TruncatedRoundTrip(img, message);
  }

  /** The source's own pipeline where it works: a byte message that fits with
      its terminator, in an image whose channel count is a multiple of 8, is
      shown up to its first "STOP" (all of it when it holds none). */
  lemma AsWrittenRoundTrip(img: Image, message: seq<CodePoint>)
    requires Shaped(img) && Encodable(message)
    requires |message| + 4 <= Capacity(img.width, img.height)
    requires (img.width * img.height * 3) % 8 == 0
    ensures EncodeAsWritten(img, message).Success?
    ensures DecodeAsWritten(EncodeAsWritten(img, message).value) == Success(Unframe(message))
  {
    EncodeAgreesWhenFits(img, message);
    EncodeDecode(img, message);
    assert message[..Min(|message|, Capacity(img.width, img.height) - 4)] == message;
  }

  // ---------------------------------------------------------------------
  // Where the source departs from its evident intent
  // ---------------------------------------------------------------------

  /** "ABCDE" as code points. */
  const Abcde: seq<CodePoint> := [65, 66, 67, 68, 69]

  /** The source's pipeline given "ABCDE" and a 4 x 4 image (capacity 6)
      stores "ABCDES": the terminator is cut after its 'S', and decoding
      shows "ABCDES". */
  lemma StopCutAsWritten(img: Image)
    requires Shaped(img) && img.width == 4 && img.height == 4
    ensures Capacity(img.width, img.height) == 6
    ensures EncodeAsWritten(img, Abcde).Success?
    ensures DecodeAsWritten(EncodeAsWritten(img, Abcde).value) == Success(Abcde + [83])
  {
    assert |img.channels| == 48;
    var encoded := Store(img, FrameAsWritten(Abcde, 6));
    assert EncodeAsWritten(img, Abcde) == Success(encoded) by {
      EncodableWithTerminator(Abcde);
    }
    assert Decode(encoded) == Abcde + [83] by {
      CutTerminatorReadBack(img.channels);
    }
    assert DecodeAsWritten(encoded) == Success(Decode(encoded)) by {
      assert encoded.width * encoded.height * 3 == 48;
    }
  }

  /** The channel-level core of StopCutAsWritten: 48 channels carrying the
      source's framing of "ABCDE" read back as "ABCDES". */
  lemma CutTerminatorReadBack(channels: seq<int>)
    requires |channels| == 48
    ensures Unframe(DecodeGroups(Parities(Embed(channels, StringToBinary(FrameAsWritten(Abcde, 6)))))) == Abcde + [83]
  {
    var framed := FrameAsWritten(Abcde, 6);
    assert framed == Abcde + [83];
    NoTerminatorWithoutS(Abcde);
    FrameAsWrittenCutsTerminator(Abcde, 6);
    assert Encodable(framed);
    ReadBackFilled(channels, framed);
  }

  /** A stored text that fills every channel and holds no "STOP" is read
      back whole: decoding shows all of it, terminator or not. */
  lemma ReadBackFilled(channels: seq<int>, text: seq<CodePoint>)
    requires 8 * |text| == |channels|
    requires Encodable(text) && !Contains(text, Terminator)
    ensures Unframe(DecodeGroups(Parities(Embed(channels, StringToBinary(text))))) == text
  {
    var bits := StringToBinary(text);
    ExtractAfterEmbed(channels, bits);
    assert channels[|bits|..] == [];
    assert Parities(channels[|bits|..]) == [];
    DecodeGroupsInverse(text);
    assert bits + [] == bits;
  }

  /** "A" in an 8 x 1 image (capacity 3): no whole terminator fits, both
      pipelines store "AST", and decoding shows "AST". */
  lemma SmallImagePartialStop(img: Image)
    requires Shaped(img) && img.width == 8 && img.height == 1
    ensures Capacity(img.width, img.height) == 3
    ensures Encode(img, [65]) == EncodeAsWritten(img, [65])
    ensures Encode(img, [65]).Success?
    ensures Decode(Encode(img, [65]).value) == [65, 83, 84]
  {
    assert |img.channels| == 24;
    var framed := FrameAsWritten([65], 3);
    assert framed == [65, 83, 84];
    assert Frame([65], 3) == framed;
    assert !Contains(framed, Terminator);
    assert Encodable(framed);
    var encoded := Store(img, framed);
    assert Encode(img, [65]) == Success(encoded) by {
      EncodableWithTerminator([65]);
    }
    ReadBackFilled(img.channels, framed);
  }

  /** "ABCDEF" (a full-capacity message) in a 4 x 4 image: the source stores
      "ABCDEF" with no terminator at all and shows all of it, while the
      corrected pipeline gives up four characters for the terminator and
      shows "AB". */
  lemma FullMessageAsWrittenShowsMore(img: Image)
    requires Shaped(img) && img.width == 4 && img.height == 4
    ensures EncodeAsWritten(img, Abcde + [70]).Success?
    ensures DecodeAsWritten(EncodeAsWritten(img, Abcde + [70]).value) == Success(Abcde + [70])
    ensures Decode(Encode(img, Abcde + [70]).value) == Abcde[..2]
  {
    FullMessageReadBack(img);
    FullMessageCorrected(img);
  }

  /** The corrected half of FullMessageAsWrittenShowsMore. */
  lemma FullMessageCorrected(img: Image)
    requires Shaped(img) && img.width == 4 && img.height == 4
    ensures Decode(Encode(img, Abcde + [70]).value) == Abcde[..2]
  {
    var message := Abcde + [70];
    assert Capacity(img.width, img.height) == 6;
    assert message[..2] == Abcde[..2];
    NoTerminatorWithoutS(Abcde[..2]);
    NoTerminatorWithoutS(message);
    TruncatedRoundTrip(img, message);
  }

  /** The as-written half of FullMessageAsWrittenShowsMore. */
  lemma FullMessageReadBack(img: Image)
    requires Shaped(img) && img.width == 4 && img.height == 4
    ensures Encodable(Abcde + [70])
    ensures EncodeAsWritten(img, Abcde + [70]).Success?
    ensures DecodeAsWritten(EncodeAsWritten(img, Abcde + [70]).value) == Success(Abcde + [70])
  {
    var message := Abcde + [70];
    assert |img.channels| == 48;
    assert Capacity(img.width, img.height) == 6;
    var framed := FrameAsWritten(message, 6);
    assert framed == message;
    NoTerminatorWithoutS(message);
    assert Encodable(message);
    var encoded := Store(img, framed);
    assert EncodeAsWritten(img, message) == Success(encoded) by {
      EncodableWithTerminator(message);
    }
    assert Decode(encoded) == message by {
      ReadBackFilled(img.channels, framed);
    }
    assert DecodeAsWritten(encoded) == Success(Decode(encoded)) by {
      assert encoded.width * encoded.height * 3 == 48;
    }
  }

  /** The corrected pipeline on the same input keeps the terminator whole
      and shows "AB", the two characters that fit before it. */
  lemma StopKeptCorrected(img: Image)
    requires Shaped(img) && img.width == 4 && img.height == 4
    ensures Decode(Encode(img, Abcde).value) == Abcde[..2]
  {
    assert Capacity(img.width, img.height) == 6;
    NoTerminatorWithoutS(Abcde[..2]);
    TruncatedRoundTrip(img, Abcde);
  }

  /** A message that itself holds "STOP" is shown only up to it, by the
      source and by the corrected pipeline alike: "STOP" in a 6 x 4 image
      (capacity 9, 72 channels) decodes to the empty text. */
  lemma StopInMessageLost(img: Image)
    requires Shaped(img) && img.width == 6 && img.height == 4
    ensures EncodeAsWritten(img, Terminator).Success?
    ensures DecodeAsWritten(EncodeAsWritten(img, Terminator).value) == Success([])
    ensures Decode(Encode(img, Terminator).value) == []
  {
    assert Capacity(img.width, img.height) == 9;
    assert OccursAt(Terminator, Terminator, 0);
    assert Unframe(Terminator) == [];
    AsWrittenRoundTrip(img, Terminator);
    EncodeAgreesWhenFits(img, Terminator);
  }

  /** With binary_to_string as written, decoding a 3 x 3 image (27 channels)
      ends in IndexError instead of a message. */
  lemma OddImageFailsAsWritten(img: Image)
    requires Shaped(img) && img.width == 3 && img.height == 3
    ensures DecodeAsWritten(img) == Failure(IndexError)
  {
    assert |img.channels| == 27;
    var r := DecodeAsWritten(img);
    assert !r.Success?;
  }
}
