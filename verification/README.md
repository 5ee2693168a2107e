# LSB steganography core, modelled in Dafny

This project models the core of a small steganography utility. The utility hides a text message in the least-significant bits of an RGB image's channel values, and later reads it back. The parts modelled are:

- **Bit codec.** `string_to_binary` emits eight digits per character, most significant first. `binary_to_string` rebuilds one character from each group of eight digits. `check_string` rejects any character whose code point is 256 or more.
- **Capacity and framing.** The capacity is `(width * height * 3) // 8` characters. The message gets the terminator `"STOP"` appended and is then cut to the capacity.
- **Pixel encoder.** Rows are visited top to bottom, pixels left to right, and channels 0..2 within each pixel. Channel k is moved by -1, 0 or +1 so that its parity equals bit k. Once the bits run out, nothing more is written.
- **Pixel decoder and unframing.** Every channel's parity is read in the same order. The parities are grouped into characters, and the text is cut at the first `"STOP"`.

Modelling choices:

- An image is `Stego.Image(width, height, channels)`. `channels` is a flat `seq<int>`: channel i of pixel (x, y) sits at `3 * (y * width + x) + i` (`Pixels.ChannelIndex`).
- Strings are sequences of code points, `Codec.CodePoint`, which covers Python's `ord` range [0, 0x110000). Bits are `Codec.Bit`, the integers 0 and 1.
- The encoder and decoder loops are methods with invariants: `Pixels.EmbedBits`, `EmbedRow`, `EmbedPixel`, `ExtractBits` and `ExtractRow`. Each is proved equal to a pure reference function, `Pixels.Embed` or `Pixels.Parities`.
- The end-to-end pipelines are pure functions over those reference functions. They are listed in the next section.
- The source uses Python's `% 2` on channel values. Its divisor is positive, so Python's floored remainder and Dafny's Euclidean remainder agree for every integer.
- `string_to_binary` is modelled as the greedy subtract-the-power loop it really is (`Codec.Greedy`). So the model also says what it does for code points of 256 or more. For code points below 256, it is proved to emit the binary digits.

### As written and corrected

The pipeline exists in two versions.

- **As written.** `Stego.EncodeAsWritten` and `Stego.DecodeAsWritten` follow the code line for line. They use `Framing.FrameAsWritten`, which cuts `message + "STOP"` to the capacity (line 48). They also use `Codec.BinaryToString`, which raises `IndexError` on a trailing partial group (line 143).
- **Corrected.** `Stego.Encode` and `Stego.Decode` replace those two steps. When the capacity is at least 4, `Framing.Frame` cuts the raw message to `capacity - 4` and then appends the whole `"STOP"`. Below capacity 4 (images of at most 10 pixels) no whole terminator fits, and both pipelines store the same text. `Stego.SmallImagePartialStop` shows "A" in an 8 x 1 image decoding to "AST". `Codec.DecodeGroups` decodes every complete group of eight and drops the trailing bits.
- **Where they agree.** The two versions give the same result whenever the message fits together with its terminator (`Stego.EncodeAgreesWhenFits`). Decoding agrees whenever the channel count is a multiple of 8 (the contract of `Stego.DecodeAsWritten`).
- **Where they differ.** With capacity at least 4, the two encoders differ only for messages longer than `capacity - 4`. For lengths strictly between `capacity - 4` and the capacity, the source stores a partial terminator, and decoding shows it as part of the message. For a message of the full capacity or longer, the source stores no terminator at all and shows the first `capacity` characters. That is more than the corrected pipeline, which gives up four characters so that the terminator is always whole. `Stego.FullMessageAsWrittenShowsMore` shows "ABCDEF" in a 4 x 4 image: the source shows "ABCDEF", the corrected pipeline "AB".
- **Which one the round-trip lemmas use.** `Stego.EncodeDecode`, `Stego.TruncatedRoundTrip` and `Stego.RoundTrip` are about the corrected pipeline. `Stego.AsWrittenRoundTrip` is about the pipeline as written.

Both corrections are read off the source's own text. Both are listed under "## Findings".

- **The terminator.** Decoding (line 99) finds the end of the message only through a whole `"STOP"`. Yet the prompt at line 45 accepts messages of up to `char_limit` characters, and for such messages line 48 cuts into the terminator.
- **Trailing bits.** The comment at line 137 describes the input of `binary_to_string` as characters of eight binary digits each. Yet line 98 passes it all `width * height * 3` parities, and that count is a multiple of 8 only when the pixel count is. The bits after the last complete group belong to no character. Line 99 discards everything after the message anyway.

### Messages that contain "STOP"

A message that itself contains `"STOP"` passes `check_string` and is stored like any other message. Decoding shows only the text before its first `"STOP"`. This is a limit of the format, and both pipelines share it.

- `Stego.EncodeDecode` and `Stego.AsWrittenRoundTrip` state the general case: the decoded text is `Unframe` of the stored message, with no requirement on its contents.
- `Stego.StopInMessageLost` gives an instance: the message `"STOP"` in a 6 x 4 image decodes to the empty text.

## Model

| member | source | states |
|---|---|---|
| Codec.CheckString | Steganography.py:106-115 | returns true exactly when every code point is below 256, and false when some code point is 256 or more |
| Codec.Greedy | Steganography.py:124-130 | the digit loop emits exactly one digit per remaining position |
| Codec.CharToBinary | Steganography.py:123-130 | every character, whatever its code point, contributes exactly eight digits |
| Codec.StringToBinary | Steganography.py:118-132 | the output has exactly 8 digits per input character |
| Codec.GreedyReadsDigits | Steganography.py:126-129 | the subtract-the-power loop, started on c mod 2^n, yields the last n binary digits of c, most significant first |
| Codec.CharToBinaryMsbFirst | Steganography.py:123-130 | for a code point below 256, digit j is bit 7 - j of the code point |
| Codec.StringToBinaryChunk | Steganography.py:123-130 | digits 8k..8k+7 of the output are exactly the eight digits of character k |
| Codec.StringToBinaryMsbFirst | Steganography.py:118-132 | bit 8k + j of the output equals bit 7 - j of character k's code point, for every k and j < 8 |
| Codec.Weigh | Steganography.py:141-144 | the value rebuilt from n digits is below 2^n, so a group of eight always yields a code point below 256 |
| Codec.GreedyWeigh | Steganography.py:141-144 | weighing the digits the encoder emits for a value below 2^n gives that value back |
| Codec.WeighGreedy | Steganography.py:126-129 | running the encoder's digit loop on the weight of any digit group gives back that group |
| Codec.DecodeGroups | Steganography.py:140-146 | one character per complete group of eight, all below 256, and re-encoding them gives back every bit of the complete groups |
| Codec.BinaryToString | Steganography.py:135-148 | succeeds exactly when the bit count is a multiple of 8, otherwise fails with IndexError; on success re-encoding gives back the input bits |
| Codec.DecodeGroupsInverse | Steganography.py:118-148 | decoding the digits of a string whose code points are all below 256 gives back the string |
| Codec.BinaryStringRoundTrip | Steganography.py:118-148 | binary_to_string(string_to_binary(s)) succeeds and equals s whenever every code point of s is below 256 |
| Codec.DecodeGroupsAppend | Steganography.py:140-146 | decoding whole groups followed by more bits decodes the two parts independently |
| Framing.Capacity | Steganography.py:42 | the capacity is the largest character count whose 8 bits per character fit in width * height * 3 channels |
| Framing.IndexFrom | Steganography.py:99 | finds the first position at or after the start where the pattern occurs, or reports that there is none |
| Framing.Unframe | Steganography.py:99 | the result is a prefix of the text without "STOP"; if the text contains "STOP" the prefix ends at its first occurrence, otherwise the text is returned unchanged |
| Framing.FrameAsWritten | Steganography.py:45-48 | the stored text is a prefix of message + "STOP" of length min(len + 4, capacity) |
| Framing.Frame | Steganography.py:42-48 | corrected framing: never longer than the capacity; with capacity at least 4 it is a prefix of the message of length min(len, capacity - 4) followed by the whole "STOP"; below capacity 4 no terminator fits, and it stores what the source stores |
| Framing.FirstTerminatorAfter | Steganography.py:99 | in m + "STOP" + rest with no "STOP" inside m, the first "STOP" starts right after m |
| Framing.NoTerminatorWithoutS | Steganography.py:99 | a text with no 'S' contains no "STOP" |
| Framing.UnframeFramed | Steganography.py:45-99 | unframing m + "STOP" + anything gives back m when m holds no "STOP" |
| Framing.UnframeAfterTerminator | Steganography.py:45-99 | for every m, unframing m + "STOP" + anything shows what unframing m alone shows: nothing after the appended terminator is ever shown, and a "STOP" inside m cuts the text there |
| Framing.FirstOccurrence | Steganography.py:99 | an occurrence of "STOP" with none before it is the position `index` returns |
| Framing.FrameUnframeKept | Steganography.py:42-99 | unframing the corrected framing, followed by anything, shows the kept part of the message up to its own first "STOP", whatever the message holds |
| Framing.FrameUnframe | Steganography.py:42-99 | unframing the corrected framing, followed by anything, recovers the kept part of the message when it holds no "STOP" |
| Framing.EncodableWithTerminator | Steganography.py:45-46 | check_string accepts message + "STOP" exactly when it accepts the message |
| Framing.FrameAgreesWhenFits | Steganography.py:45-48 | when len + 4 fits the capacity, the source's framing and the corrected framing both store message + "STOP" |
| Framing.FrameAsWrittenCutsTerminator | Steganography.py:45-48 | when the message is longer than capacity - 4 and holds no "STOP", the source's framing stores no complete "STOP" |
| Pixels.MatchParity | Steganography.py:59-67 | the new value has the bit's parity and differs by at most 1; it is unchanged when the parity already matches; even values are never decremented and odd values never incremented, so values in [0, 255] stay there |
| Pixels.Parities | Steganography.py:91-96 | the decoder's bit list: one bit per channel in the encoder's visiting order, bit k being the parity of channel k |
| Pixels.Embed | Steganography.py:51-69 | channel k has parity bits[k] for k below the bit count; every channel moves by at most 1, an even one never down and an odd one never up, and one that was in [0, 255] stays there; channels from the bit count on are untouched |
| Pixels.EmbedBits | Steganography.py:51-69 | the nested row, pixel and channel loops compute Embed: parity set for k < len(bits), later channels unchanged |
| Pixels.EmbedRow | Steganography.py:52-69 | one row of the encoder extends the written prefix from the row's first channel to the next row's first channel |
| Pixels.EmbedPixel | Steganography.py:53-69 | one pixel of the encoder writes its three channels, stopping at the first index past the last bit |
| Pixels.EmbedStep | Steganography.py:56-67 | writing one more bit changes exactly the next channel, to its parity-matched value |
| Pixels.EmbedIgnoresSurplus | Steganography.py:55-58 | bits beyond the last channel have no effect |
| Pixels.NextChannel | Steganography.py:51-56 | visiting order is row-major with channels 0..2 innermost, and consecutive visits have consecutive flat indices, all within width * height * 3 |
| Pixels.ExtractBits | Steganography.py:91-96 | the decoder yields exactly width * height * 3 bits, bit k being channel k's parity |
| Pixels.ExtractRow | Steganography.py:92-96 | one row of the decoder appends the parities of that row's channels in order |
| Pixels.ExtractAfterEmbed | Steganography.py:51-96 | decoding after encoding yields the written bits followed by the parities of the untouched channels |
| Stego.EncodeAsWritten | Steganography.py:42-69 | the source's encode(): fails exactly when some character is 256 or more, with no pixel written; otherwise the size is kept, channel k gets the parity of bit k of (message + "STOP")[:capacity], each channel moves by at most 1 (an even value up, an odd value down), values in [0, 255] stay there, and later channels are untouched |
| Stego.Encode | Steganography.py:42-69 | corrected encode(), differing only at line 48 (the message is cut to capacity - 4 before "STOP" is appended): the same failure, size, parity, plus-or-minus 1 with its direction, range and untouched-tail guarantees, for the corrected framing's bits |
| Stego.Decode | Steganography.py:91-99 | corrected decode(): character k is read from channels 8k..8k+7, most significant bit first; the text is the decoded complete groups cut at their first "STOP", or all of them when they hold none; so it has only code points below 256, is no longer than the capacity and holds no "STOP" |
| Stego.DecodeAsWritten | Steganography.py:91-99 | the source's decode(): succeeds exactly when width * height * 3 is a multiple of 8, fails with IndexError otherwise, and agrees with Decode when it succeeds |
| Stego.FramedFits | Steganography.py:42-48 | under either framing, 8 bits per framed character fit in the image's channels |
| Stego.EncodeAgreesWhenFits | Steganography.py:42-69 | when the message fits with its terminator, the source's encode() and the corrected one write the same image |
| Stego.EncodeStores | Steganography.py:42-69 | a byte message is accepted, and the corrected framing of it is written into the channels |
| Stego.ReadBackFramed | Steganography.py:51-99 | decoding an image that carries the corrected framing of a message shows the kept part up to its first "STOP" |
| Stego.EncodeDecode | Steganography.py:42-99 | for every byte message and capacity at least 4, decoding the encoded image shows the first min(len, capacity - 4) characters up to their first "STOP" |
| Stego.TruncatedRoundTrip | Steganography.py:42-99 | with capacity at least 4, decoding an encoded image returns the first min(len, capacity - 4) characters of the message, when they hold no "STOP" |
| Stego.RoundTrip | Steganography.py:42-99 | a byte message with no "STOP" whose length plus 4 fits the capacity is decoded exactly |
| Stego.AsWrittenRoundTrip | Steganography.py:42-99 | the source's pipeline, on a byte message that fits with its terminator and an image whose channel count is a multiple of 8, shows the message up to its first "STOP" |
| Stego.StopCutAsWritten | Steganography.py:42-99 | the source's pipeline on a 4 x 4 image given "ABCDE" succeeds and shows "ABCDES" |
| Stego.CutTerminatorReadBack | Steganography.py:48-99 | 48 channels carrying the source's framing of "ABCDE" read back as "ABCDES" |
| Stego.StopKeptCorrected | Steganography.py:42-99 | the corrected pipeline on the same 4 x 4 image and "ABCDE" shows "AB" |
| Stego.ReadBackFilled | Steganography.py:51-99 | a stored text that fills every channel and holds no "STOP" is decoded whole |
| Stego.SmallImagePartialStop | Steganography.py:42-99 | in an 8 x 1 image (capacity 3) both encoders store the same text for "A", and decoding shows "AST" |
| Stego.FullMessageAsWrittenShowsMore | Steganography.py:42-99 | given "ABCDEF" in a 4 x 4 image, the source's pipeline shows "ABCDEF" and the corrected one shows "AB" |
| Stego.FullMessageReadBack | Steganography.py:42-99 | the source's pipeline stores "ABCDEF" in a 4 x 4 image with no terminator and shows all of it |
| Stego.FullMessageCorrected | Steganography.py:42-99 | the corrected pipeline shows "AB" for "ABCDEF" in a 4 x 4 image |
| Stego.StopInMessageLost | Steganography.py:45-99 | the message "STOP" in a 6 x 4 image decodes to the empty text, under both pipelines |
| Stego.OddImageFailsAsWritten | Steganography.py:98 | with binary_to_string as written, decoding a 3 x 3 image ends in IndexError |

## Left out

- `main`, `get_choice`, `get_number`, `get_string` and `get_file` (Steganography.py:10-22, 152-216) are console menus, prompts and directory listing, so they are pure I/O.
- The retry loops around user input (Steganography.py:31-35, 43-47, 81-85) are left out. Only the predicate they wrap (`check_string`) and the transformation after them are modelled. A rejected message is a `Failure(UnencodableCharacter)`, where the source asks again.
- Image file handling is left out: `Image.open`, `ImageOps.exif_transpose`, `image.load()` and `image.save` (Steganography.py:37-40, 71, 87-89). It belongs to a foreign library. The image is a width, a height and a flat channel sequence. Losslessness of the saved PNG is assumed, not modelled.
- Pixels with more than three channels (alpha), and palette or grey-scale images whose pixels are not tuples, are left out. The source never touches channels beyond index 2.
- `print` calls are left out because they are output only.
- A corrected behaviour for messages that contain "STOP" is not modelled. The source has no escape mechanism and nothing in it suggests one, so both pipelines keep the loss (`Stego.StopInMessageLost`).
- Codec.CharToBinary: its own contract only fixes the length. The bit-by-bit statement is `Codec.CharToBinaryMsbFirst`, and it holds for code points below 256 only. Above 255 the greedy loop emits digits that are not the code point's binary form. `check_string` keeps such characters away from it.

## Findings

| source | as written | input that shows it | evidently intended | confidence | as-written member | corrected member |
|---|---|---|---|---|---|---|
| Steganography.py:45-48 | `"STOP"` is appended first and the result is cut to the capacity, so a message longer than capacity - 4 loses all or part of its terminator; the prompt even allows messages of the full capacity. A partial terminator is shown as part of the message; with no terminator at all, the first `capacity` characters are shown | a 4 x 4 image (capacity 6) and the message "ABCDE": the stored text is "ABCDES" (`Framing.FrameAsWritten`), and decoding shows "ABCDES" (`Stego.StopCutAsWritten`, `Framing.FrameAsWrittenCutsTerminator`) | when the capacity is at least 4, cut the raw message to capacity - 4 so the terminator is always stored whole (`Framing.Frame`), and recover the kept prefix (`Stego.TruncatedRoundTrip`; "AB" in this example, `Stego.StopKeptCorrected`). The price is four characters for a message of the full capacity or longer: the source shows its first `capacity` characters, the corrected pipeline its first `capacity - 4` (`Stego.FullMessageAsWrittenShowsMore`). Below capacity 4 no terminator fits and both pipelines store the same text (`Stego.SmallImagePartialStop`) | high; not executed | Stego.EncodeAsWritten | Stego.Encode |
| Steganography.py:140-143 | `binary[i + j]` is read for all j < 8 without a bounds check, so a bit list whose length is not a multiple of 8 raises IndexError, and `decode()` crashes on every image whose pixel count is not a multiple of 8 | a 3 x 3 image: 27 bits, `decode()` ends in IndexError (`Stego.OddImageFailsAsWritten`) | decode every complete group of eight and drop the trailing bits, so every image decodes (`Stego.Decode`) | high; not executed | Codec.BinaryToString | Codec.DecodeGroups |
