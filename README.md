# zsan core in Dafny

zsan compresses ASCII records. It replaces each run of spaces and each number with a few bytes. This project models the decoding side and the building blocks it relies on:

- **VLE**: the variable-length integer encoding. The first byte keeps `r` bits of the value, a continuation flag and free high bits for tags. The rest are LEB128 groups of seven bits. Modules `Vle` and `VleFixed`.
- **The `all_ascii` codecs**:
  - the space codec (`Space`);
  - the four numeric codecs: `UnsignedInteger`, `Integer`, `UnsignedDecimal` and `Decimal`.
  - Each numeric codec ORs tag bits into the first byte of a VLE encoding. Its decoder renders the number back as ASCII. `Numeric` holds what they share, and `Digits` holds the decimal rendering with its digit buffer.
- **The tokenizer** `retrave_blocks`: it cuts a record into space runs and numbers (`Parser`). `ParserTests` holds its three worked examples.
- **The legacy codecs** of `src/zsan/`:
  - 7-bit-safe space runs (`SpaceAllAscii`);
  - space runs in records that use every byte value (`SpaceNonAscii`);
  - the sign-and-places numeric header (`NumericAllAscii`).
- **The top-level decoder** (`Zsan`): `decompress` and `decode_all_ascii`. They choose a decoder by the header byte.

Every imperative source function is a method. Each method is proved against a specification function: an output vector becomes an in/out sequence, and a fixed digit buffer stays an `array`. Lemmas then state what the source promises about those functions:

- encode/decode round trips;
- tag bits that never disturb the decoded value;
- well-formed, ordered token blocks;
- expansion back to the original spaces;
- the test vectors.

A `u64` is a bounded integer, and masks and shifts are written with `%` and `/`. `|` on disjoint bit fields is `Bytes.Or`, which `Bytes.OrDisjoint` reduces to addition.

`Vle.Decode` is the exact, unbounded reading of a VLE encoding. The source's `decode` computes on `u64`, and each shifted group is cut to 64 bits. `Vle.DecodeU64` states what it returns: the exact value modulo 2^64, for readings of at most ten bytes, the longest for which every shift stays below 64. Every decoder is proved to return exactly `DecodeU64`. `Vle.RoundTripU64` shows that every `u64` encoding reads back whole.

Some comments in the source disagree with the code. The model follows the code:

- `src/zsan.rs:34-36`, `src/zsan.rs:47-50` and `src/zsan/space_all_ascii.rs:9-13` describe space runs as a set top bit with a 7-bit count. `decode_all_ascii` expands 6-bit counts, and `encode_spaces_mode_all_ascii` marks runs with top bits `11`.
- The doc comment of the legacy numeric encoder (`src/zsan/numeric_all_ascii.rs:32-36`) repeats the space codec's description. The model follows the bit layout that `compress` actually writes.

## Model

| member | source | states |
|---|---|---|
| Bytes.OrDisjoint | src/all_ascii/integer.rs:13-15 | ORing a tag into the bits above a value's first-byte width is addition, so the tag never changes the value bits |
| Vle.Leb | src/vle_variants.rs:36-48 | the continuation groups form at least one byte; only the last has bit 7 clear |
| Vle.LebDecode | src/vle_variants.rs:81-94 | reading groups consumes between 1 byte and the whole input |
| Vle.FirstFlag | src/vle_variants.rs:25-26 | the continuation flag of a first byte of width r is 2^(r-1), between 2 and 0x80 |
| Vle.EncodeVle | src/vle_variants.rs:3-51 | `encode` returns exactly `Encode(input, r)`: the zero case, the one-bit and wider first bytes, then the group loop |
| Vle.DecodeVle | src/vle_variants.rs:55-95 | `decode` returns exactly `DecodeU64(input, r)`: the exact value modulo 2^64 and the byte count, on every input it reads within bounds with shifts below 64 |
| Vle.PushGroups | src/vle_variants.rs:36-48 | the encode loop appends the LEB128 groups of the remaining value to the output |
| Vle.ReadGroups | src/vle_variants.rs:81-94 | the decode loop ORs each group, shifted on `u64`, above the bits already read and stops on the first byte with bit 7 clear: the result is the prefix plus the groups' value above it, modulo 2^64 |
| Vle.ReadGroup | src/vle_variants.rs:85-94 | one turn of the loop: on a byte with bit 7 clear the result is the whole reading modulo 2^64; otherwise the exact partial sum, with the rest read seven bits higher |
| Vle.OrGroup | src/vle_variants.rs:88 | ORing `val << bits_cnt` into the result on `u64` gives the exact sum modulo 2^64, and the exact sum while it fits in 64 bits |
| Vle.WrapGroup | src/vle_variants.rs:88 | a group shifted and cut to 64 bits still leaves the bits already read clear, so ORing it in adds it modulo 2^64 |
| Vle.FirstGroup | src/vle_variants.rs:4-31 | the first byte (two for r = 1) followed by the groups of the value left is the whole encoding |
| Vle.WideFirst | src/vle_variants.rs:24-31 | for r >= 2 the first byte is the low r-1 bits plus the flag exactly when something is left, and the value left is the quotient by the flag |
| Vle.OneBitShape | src/vle_variants.rs:15-23 | for r = 1 the first byte is the value's parity, followed by a zero byte or the groups of half the value |
| Vle.LebRoundTrip | src/vle_variants/vle_zero.rs:3-18 | decoding the groups of v, followed by any bytes, gives back v and the group count |
| Vle.RoundTrip | src/vle_variants.rs:127-158 | for every width r <= 8, every value and any trailing bytes, decode(encode(v, r)) gives v and the encoding's length |
| Vle.OneBitRoundTrip | src/vle_variants.rs:15-23 | the round trip for r = 1 |
| Vle.WideRoundTrip | src/vle_variants.rs:24-31 | the round trip for 2 <= r <= 8 |
| Vle.ShortRoundTrip | src/vle_variants.rs:69-79 | a value below the flag is one byte and decodes from that byte alone |
| Vle.LongRoundTrip | src/vle_variants.rs:69-94 | a value at or above the flag decodes from its first byte's low bits plus its groups |
| Vle.LongFirstByte | src/vle_variants.rs:24-31 | a long encoding is a first byte with the flag set, then the groups of the value divided by the flag; low bits and groups recompose the value |
| Vle.FirstByte | src/vle_variants.rs:15-31 | the first byte is below 2^r. For r = 1 it is the parity and at least two bytes follow. For r >= 2 it is the low bits plus the flag, and the encoding is one byte exactly when v < 2^(r-1) |
| Vle.WideShape | src/vle_variants.rs:24-48 | for r >= 2 the whole encoding is one byte when nothing is left, otherwise first byte with flag then groups |
| Vle.EncodeZero | src/vle_variants.rs:4-10 | zero encodes as [0], or [0, 0] when r = 1 |
| Vle.IgnoresHighBits | src/vle_variants.rs:65-79 | bits of the first byte at or above r do not affect decoding |
| Vle.OneBitIgnoresHighBits | src/vle_variants.rs:65-68 | for r = 1 only bit 0 of the first byte is read |
| Vle.WideIgnoresHighBits | src/vle_variants.rs:69-79 | for r >= 2 only the low r-1 bits and the flag bit of the first byte are read |
| Vle.LebLast | src/vle_variants.rs:89-91 | a byte with bit 7 clear ends the groups |
| Vle.GroupStep | src/vle_variants.rs:85-94 | one decode iteration: a byte with bit 7 set contributes its low seven bits and the rest is read seven bits higher |
| Vle.Vectors | src/vle_variants.rs:101-125 | the source's encode vectors for widths 6, 0 and 1 |
| Vle.DecodeU64 | src/vle_variants.rs:55-95 | what `decode` returns on `u64`: a value below 2^64 and a byte count between 1 and the input's length; nothing when it would read past the end or shift a group by 64 or more |
| Vle.ShiftBound | src/vle_variants.rs:61-92 | for every first-byte width, the last shift stays below 64 exactly when at most ten bytes are read |
| Vle.TenBytes | src/vle_variants.rs:55-95 | `decode` has a `u64` reading exactly when the exact reading takes at most ten bytes, and then of the same length |
| Vle.EncodeShort | src/vle_variants.rs:3-51 | the encoding of every `u64`, at every width, has at most ten bytes |
| Vle.LebShort | src/vle_variants.rs:36-48 | the group loop emits at most k bytes for a value below 2^(7k) |
| Vle.RoundTripU64 | src/vle_variants.rs:127-158 | for every `u64`, every width r <= 8 and any trailing bytes, `decode` on `u64` gives back the value and the encoding's length |
| Vle.ExactOnU64 | src/vle_variants.rs:55-95 | a reading of at most ten bytes whose exact value is below 2^64 is the same on `u64` |
| Vle.WrapVector | src/vle_variants.rs:85-94 | nine 0xFF then 0x7F at width 0: the exact value is 2^70 - 1, and `decode` on `u64` returns `u64::MAX` with ten bytes |
| Vle.OverlongVector | src/vle_variants.rs:88 | ten 0xFF then 0x00 would shift the last group by 70: no `u64` reading |
| VleFixed.EncodeFixed | src/vle_variants/vle_n.rs:45-61 | `encode_N` equals `Encode(input, N)`; its first byte is below 2^N and it is one byte exactly when input < 2^(N-1) |
| VleFixed.DecodeFixed | src/vle_variants/vle_n.rs:63-76 | `decode_N` returns exactly `DecodeU64(input, N)`: the value modulo 2^64 and the length |
| VleFixed.Encode4 | src/vle_variants/vle_n.rs:45-61 | `encode_4` is `Encode(input, 4)` |
| VleFixed.Decode4 | src/vle_variants/vle_n.rs:63-76 | `decode_4` returns exactly `DecodeU64(input, 4)` |
| VleFixed.Encode5 | src/vle_variants/vle_n.rs:78-94 | `encode_5` is `Encode(input, 5)` |
| VleFixed.Decode5 | src/vle_variants/vle_n.rs:96-109 | `decode_5` returns exactly `DecodeU64(input, 5)` |
| VleFixed.Encode6 | src/vle_variants/vle_n.rs:111-128 | `encode_6` is `Encode(input, 6)` |
| VleFixed.Decode6 | src/vle_variants/vle_n.rs:130-143 | `decode_6` returns exactly `DecodeU64(input, 6)` |
| VleFixed.Encode1 | src/vle_variants/vle_one.rs:4-12 | `encode_1` is `Encode(input, 1)`: at least two bytes, the first being the parity |
| VleFixed.Decode1 | src/vle_variants/vle_one.rs:17-24 | `decode_1` returns exactly `DecodeU64(input, 1)` |
| VleFixed.Encode0 | src/vle_variants/vle_zero.rs:3-8 | `encode_0` is plain LEB128 |
| VleFixed.Decode0 | src/vle_variants/vle_zero.rs:12-18 | `decode_0` returns exactly `DecodeU64(input, 0)`: plain LEB128 on `u64` |
| VleFixed.RoundTrip5 | src/vle_variants/vle_n.rs:158-169 | for every `u64` v, `decode_5(encode_5(v))` gives back v |
| VleFixed.RoundTrip1 | src/vle_variants/vle_one.rs:38-44 | for every `u64` v, `decode_1(encode_1(v))` gives back v |
| VleFixed.RoundTrip0 | src/vle_variants/vle_zero.rs:31-38 | for every `u64` v, `decode_0(encode_0(v))` gives back v and consumes the whole encoding |
| VleFixed.FixedVectors | src/vle_variants/vle_zero.rs:23-29 | the width-0 vector of the tests |
| Numeric.SignThenDigits | src/all_ascii/integer.rs:20-41 | writing the '-' and then the digits appends the reading's text |
| Numeric.Tagged | src/all_ascii/integer.rs:13-15 | tagging keeps the encoding's length |
| Numeric.SetTag | src/all_ascii/integer.rs:13-15 | ORing the tag into the first byte gives the tagged encoding |
| Numeric.TaggedRoundTrip | src/all_ascii/integer.rs:13-26 | a VLE encoding of a `u64` whose first byte carries a tag above its width still decodes on `u64` to the value and its length |
| Numeric.TagInvisible | src/all_ascii/unsigned_decimal.rs:19-47 | a tag above the width leaves decoding unchanged |
| Digits.Pow10Values | src/all_ascii/unsigned_integer.rs:25-33 | 10^18, 10^19 and 10^20: every value below 10^20 fits the 20-byte digit buffer |
| Digits.DecimalDigits | src/all_ascii/unsigned_integer.rs:28-34 | a value's digits are empty only for zero, with no leading zero |
| Digits.DigitsAreDigits | src/all_ascii/unsigned_integer.rs:28-33 | every rendered byte is an ASCII digit |
| Digits.DigitsRoundTrip | src/all_ascii/unsigned_integer.rs:28-34 | the rendered digits denote the value |
| Digits.DigitsValueAppend | src/zsan_parser.rs:60-67 | the value of concatenated digits is the front's value shifted by the back's length plus the back's value |
| Digits.DigitsBound | src/all_ascii/unsigned_integer.rs:28-33 | a value below 10^k has at most k digits, so the buffer never overflows |
| Digits.Padded | src/all_ascii/unsigned_decimal.rs:58-66 | zero-padding yields exactly the window width |
| Digits.PaddedValue | src/all_ascii/unsigned_decimal.rs:58-66 | zero-padding keeps the digits' value |
| Digits.ZerosValue | src/all_ascii/unsigned_decimal.rs:58-66 | a run of '0' is digits of value zero |
| Digits.PaddedStep | src/all_ascii/unsigned_decimal.rs:49-57 | writing the last digit steps the padded window one place left |
| Digits.DigitsSplit | src/all_ascii/unsigned_decimal.rs:58-66 | the digits of v are those of v div 10^k followed by v mod 10^k padded to k places |
| Digits.LongDigits | src/all_ascii/unsigned_decimal.rs:58-66 | a value at least 10^k has more than k digits |
| Digits.IntegerPart | src/all_ascii/unsigned_decimal.rs:58-66 | the integer part has at least one digit |
| Digits.FractionPart | src/all_ascii/unsigned_decimal.rs:58-66 | the fraction part has exactly dp digits |
| Digits.FixedPointValue | src/all_ascii/unsigned_decimal.rs:58-66 | the integer part denotes v div 10^dp, with no leading zero except a lone '0'; the fraction part denotes v mod 10^dp; together they recompose v |
| Digits.IntegerPartValue | src/all_ascii/unsigned_decimal.rs:58-66 | the integer part denotes v div 10^dp, with no superfluous leading zero |
| Digits.FractionPartValue | src/all_ascii/unsigned_decimal.rs:58-66 | the fraction part denotes v mod 10^dp |
| Digits.OnePlace | src/all_ascii/unsigned_decimal.rs:87-99 | with one place, the text is the integer part, '.', then the last digit |
| Digits.BufferWindow | src/all_ascii/unsigned_decimal.rs:58-66 | the two buffer windows around the '.' form the fixed-point text of the value |
| Digits.LongWindow | src/all_ascii/unsigned_decimal.rs:58-66 | for a value of at least 10^dp the windows are the integer and fraction parts |
| Digits.ShortWindow | src/all_ascii/unsigned_decimal.rs:58-66 | for a value below 10^dp the first window is the single '0' before the '.' |
| Digits.ZerosWindow | src/all_ascii/unsigned_decimal.rs:58-66 | in a padded buffer the byte before the fraction is '0' and the fraction is the padded digits |
| Digits.FillDigits | src/all_ascii/unsigned_integer.rs:28-33 | the digit loop leaves the value's digits at the end of the buffer and touches nothing before them |
| Digits.WriteDigit | src/all_ascii/unsigned_integer.rs:29-30 | storing one digit changes that buffer cell only |
| Digits.PlaceLastDigit | src/zsan/numeric_all_ascii.rs:95-99 | one loop turn: the last digit goes to its cell, and the rest of the value's digits followed by the buffer's tail are the value's digits |
| Digits.DigitStep | src/all_ascii/unsigned_integer.rs:28-33 | a value's digits are those of v div 10 followed by the digit of v mod 10 |
| Digits.PushDigits | src/all_ascii/unsigned_integer.rs:28-34 | the decoder appends exactly the value's decimal digits |
| Digits.PushRendered | src/all_ascii/unsigned_decimal.rs:49-68 | the decoder appends the digits, or with places the integer window, '.', and the fraction window |
| Digits.PushWindows | src/all_ascii/unsigned_decimal.rs:58-66 | appends the first window, '.', then the second window |
| Digits.FilledBuffer | src/all_ascii/unsigned_decimal.rs:49-57 | a buffer of '0' ending in the digits is those digits zero-padded to its length |
| Digits.Vectors | src/all_ascii/unsigned_decimal.rs:73-99 | 0.1, 12.3 and the digits of 907 render as expected |
| UnsignedInteger.Token | src/all_ascii/unsigned_integer.rs:14-16 | the token is as long as the width-6 encoding |
| UnsignedInteger.Compress | src/all_ascii/unsigned_integer.rs:4-19 | declines exactly the values below 10 or from 32 to 99, leaving the output unchanged; otherwise appends the width-6 encoding tagged with 11 |
| UnsignedInteger.Decompress | src/all_ascii/unsigned_integer.rs:21-37 | appends the decoded value's digits and returns the token length |
| UnsignedInteger.TokenRoundTrip | src/all_ascii/unsigned_integer.rs:41-53 | the token starts with bits 11 and reads back as the value with its exact length, whatever follows |
| UnsignedInteger.TokenText | src/all_ascii/unsigned_integer.rs:41-53 | the token decodes to the value's digits |
| UnsignedInteger.CompressThenDecompress | src/all_ascii/unsigned_integer.rs:41-53 | compress then decompress yields the original digits whenever compress accepts |
| Integer.Token | src/all_ascii/integer.rs:13-15 | the token is as long as the width-5 encoding |
| Integer.Compress | src/all_ascii/integer.rs:8-18 | declines exactly the non-negative values below 10 or from 32 to 99, leaving the output unchanged; otherwise appends the width-5 encoding tagged with 11 and the sign bit |
| Integer.Decompress | src/all_ascii/integer.rs:20-41 | appends '-' when the sign bit is set, then the digits, and returns the token length |
| Integer.ReadFields | src/all_ascii/integer.rs:22-26 | the sign is bit 5 of the first byte and the value is width-5 VLE |
| Integer.TokenRoundTrip | src/all_ascii/integer.rs:45-70 | the token starts with 11, bit 5 is the sign, and it reads back as the signed value with its exact length |
| Integer.TokenFirstByte | src/all_ascii/integer.rs:13-15 | the first byte carries 11 and the sign bit |
| Integer.TokenDecodes | src/all_ascii/integer.rs:26 | the tag does not disturb width-5 decoding |
| Integer.TokenText | src/all_ascii/integer.rs:45-70 | the token decodes to the sign and the digits |
| Integer.CompressThenDecompress | src/all_ascii/integer.rs:45-70 | compress then decompress gives back the signed digits whenever compress accepts |
| UnsignedDecimal.Token | src/all_ascii/unsigned_decimal.rs:19-29 | the token is as long as the encoding at the width its places choose |
| UnsignedDecimal.Compress | src/all_ascii/unsigned_decimal.rs:9-34 | declines exactly the values below 100 without places, leaving the output unchanged; otherwise appends the width-4 encoding tagged with 11, or the width-1 encoding tagged with 11, the decimal flag and the places |
| UnsignedDecimal.TagIsMultiple | src/all_ascii/unsigned_decimal.rs:19-29 | the tag lies entirely above the first-byte width |
| UnsignedDecimal.Decompress | src/all_ascii/unsigned_decimal.rs:36-69 | appends the fixed-point text of the decoded value and returns the token length |
| UnsignedDecimal.ReadFields | src/all_ascii/unsigned_decimal.rs:38-47 | bit 5 selects the places field (bits 1-4) and the width-1 decoder, otherwise width 4 with no places |
| UnsignedDecimal.TokenRoundTrip | src/all_ascii/unsigned_decimal.rs:73-99 | the token starts with 11, bit 5 is set exactly when there are places, and it reads back as value and places with its exact length |
| UnsignedDecimal.TokenFirstByte | src/all_ascii/unsigned_decimal.rs:19-29 | the first byte carries 11, the decimal flag, and the places in bits 1-4 |
| UnsignedDecimal.TokenDecodes | src/all_ascii/unsigned_decimal.rs:47 | the tag does not disturb decoding at the chosen width |
| UnsignedDecimal.TokenText | src/all_ascii/unsigned_decimal.rs:73-99 | the token decodes to the value rendered with its places |
| UnsignedDecimal.CompressThenDecompress | src/all_ascii/unsigned_decimal.rs:73-99 | compress then decompress gives back the rendered value whenever compress accepts; with one place, integer part '.' last digit |
| Decimal.Compress | src/all_ascii/decimal.rs:10-32 | declines exactly the non-negative values below 100 without places, leaving the output unchanged; otherwise appends a header byte with sign, decimal flag and places followed by the width-0 encoding, or the width-4 encoding tagged with 11 and the sign |
| Decimal.Decompress | src/all_ascii/decimal.rs:34-75 | appends the sign and the fixed-point text of the decoded value, and returns the token length |
| Decimal.ReadFields | src/all_ascii/decimal.rs:36-53 | bit 5 is the sign; bit 4 selects places in the low nibble with plain VLE after the header, or width-4 VLE with no places |
| Decimal.TokenRoundTrip | src/all_ascii/decimal.rs:79-118 | the token starts with 11, bit 5 is the sign, bit 4 says whether there are places, and it reads back as sign, value and places with its exact length |
| Decimal.DecimalTokenRoundTrip | src/all_ascii/decimal.rs:15-20 | the round trip when there are places (header byte then plain VLE) |
| Decimal.ReadHeader | src/all_ascii/decimal.rs:42-53 | a header byte with bit 4 set is followed by a plain VLE that is read whole |
| Decimal.HeaderByte | src/all_ascii/decimal.rs:15-20 | the header byte carries 11, the sign, the decimal flag and the places |
| Decimal.WholeTokenRoundTrip | src/all_ascii/decimal.rs:21-27 | the round trip without places (tagged width-4 encoding) |
| Decimal.WholeFirstByte | src/all_ascii/decimal.rs:21-27 | the first byte of a whole number carries 11 and the sign, with bit 4 clear |
| Decimal.TokenText | src/all_ascii/decimal.rs:79-118 | the token decodes to the sign and the rendered value |
| Decimal.SignedOnePlace | src/all_ascii/decimal.rs:92-104 | with one place: sign, integer part, '.', last digit |
| Decimal.CompressThenDecompress | src/all_ascii/decimal.rs:79-118 | compress then decompress gives back sign and rendered value whenever compress accepts |
| Space.Runs | src/all_ascii/space.rs:14-24 | one byte per full run of 63 and one for a remainder |
| Space.Remainder | src/all_ascii/space.rs:22-24 | a nonzero remainder takes one byte, zero takes none |
| Space.CompressSpace | src/all_ascii/space.rs:7-25 | `compress_space` appends its code as written, including the fall-through after count 1 |
| Space.CompressSpaceIntended | src/all_ascii/space.rs:7-25 | the encoder with the count-1 case returning early |
| Space.DecompressSpace | src/all_ascii/space.rs:27-34 | appends the low six bits' count of spaces and returns that count, at most 63 |
| Space.RunsTagged | src/all_ascii/space.rs:14-24 | every run byte carries the space marker |
| Space.ExpandAppend | src/all_ascii/space.rs:27-34 | decoding distributes over concatenation |
| Space.ExpandFull | src/all_ascii/space.rs:14-21 | k full-run bytes expand to 63k spaces |
| Space.ExpandRemainder | src/all_ascii/space.rs:22-24 | the remainder byte expands to the remainder |
| Space.RunsExpand | src/all_ascii/space.rs:14-24 | the run bytes of a count expand to exactly that many spaces |
| Space.SpaceCodeRoundTrip | src/all_ascii/space.rs:7-25 | for every count other than 1 the code expands back to exactly that many spaces; zero yields nothing |
| Space.SpaceCodeOneIsTwoSpaces | src/all_ascii/space.rs:8-10 | as written, a single space is coded as ' ' then 0x81, which expands to two spaces |
| Space.SpaceCodeIntendedRoundTrip | src/all_ascii/space.rs:7-25 | with the early return, every count expands back to exactly that many spaces |
| Space.ExpandStep | src/all_ascii/space.rs:27-34 | decoding one more byte appends its spaces, or the byte itself |
| Space.Vector | src/all_ascii/space.rs:44 | 65 spaces encode as [0xBF, 0x82] |
| Space.SpaceRoundTrip | src/all_ascii/space.rs:38-53 | compress then decompress byte by byte gives back the spaces |
| SpaceAllAscii.Code | src/zsan/space_all_ascii.rs:14-31 | one byte per full run of 63 plus one for a remainder |
| SpaceAllAscii.Remainder | src/zsan/space_all_ascii.rs:26-29 | a nonzero remainder takes one byte |
| SpaceAllAscii.IsSpaceChar | src/zsan/space_all_ascii.rs:44-46 | a byte is a space run exactly when it is at least 0xC0 |
| SpaceAllAscii.EncodeSpaces | src/zsan/space_all_ascii.rs:14-31 | appends the code of the count and resets the count to zero |
| SpaceAllAscii.DecodeSpaces | src/zsan/space_all_ascii.rs:36-41 | appends as many spaces as the low six bits say |
| SpaceAllAscii.CodeBytes | src/zsan/space_all_ascii.rs:14-31 | every code byte is a space run with a count between 1 and 63; zero spaces emit nothing |
| SpaceAllAscii.ExpandAppend | src/zsan.rs:262-270 | the all-ASCII expansion (bytes with top bits 11 become runs, all others are copied) distributes over concatenation |
| SpaceAllAscii.ExpandFull | src/zsan/space_all_ascii.rs:18-24 | k bytes 0xFF expand to 63k spaces |
| SpaceAllAscii.ExpandRemainder | src/zsan/space_all_ascii.rs:26-29 | the remainder byte expands to the remainder |
| SpaceAllAscii.CodeRoundTrip | src/zsan/space_all_ascii.rs:52-81 | the code of every count expands back to exactly that many spaces |
| SpaceAllAscii.AsciiUnchanged | src/zsan.rs:262-270 | bytes below 0x80 pass through expansion unchanged |
| SpaceAllAscii.Vectors | src/zsan/space_all_ascii.rs:52-81 | 127, 63 and 62 spaces encode as in the tests, and 0xC3 decodes to three spaces |
| SpaceNonAscii.Code | src/zsan/space_has_non_ascii.rs:13-23 | the code is a space, one 0xFF per 255 spaces, then the remainder byte |
| SpaceNonAscii.EncodeSpaces | src/zsan/space_has_non_ascii.rs:13-23 | appends the code and resets the count |
| SpaceNonAscii.DecodeSpaces | src/zsan/space_has_non_ascii.rs:27-49 | the state machine appends the decoded text of the whole input |
| SpaceNonAscii.PlainCopied | src/zsan/space_has_non_ascii.rs:27-49 | bytes other than space are copied through |
| SpaceNonAscii.RunDecoded | src/zsan/space_has_non_ascii.rs:27-49 | after the space marker, 0xFF bytes add 255 each and the first other byte adds itself and ends the run |
| SpaceNonAscii.CodeRoundTrip | src/zsan/space_has_non_ascii.rs:13-49 | the code of any count decodes to that many spaces, whatever follows |
| SpaceNonAscii.PrefixRoundTrip | src/zsan/space_has_non_ascii.rs:11-12 | text without spaces followed by a run's code decodes to the text and the spaces |
| SpaceNonAscii.Vectors | src/zsan/space_has_non_ascii.rs:11-12 | 300 and 255 spaces encode as in the documentation |
| NumericAllAscii.ShouldCompress | src/zsan/numeric_all_ascii.rs:127-134 | its first test (10 <= val <= 7) never holds, so a value is compressed exactly when it exceeds 100 |
| NumericAllAscii.Compress | src/zsan/numeric_all_ascii.rs:38-81 | `compress` appends the header and groups as written, including the single-byte case that drops the sign |
| NumericAllAscii.CompressIntended | src/zsan/numeric_all_ascii.rs:38-81 | the encoder with the sign kept in the single-byte case |
| NumericAllAscii.SmallFirstByte | src/zsan/numeric_all_ascii.rs:52-55 | the single-byte header is the value plus the high bits, with no carry between them |
| NumericAllAscii.FlaggedFirstByte | src/zsan/numeric_all_ascii.rs:58 | the long header is the low three bits plus the sign bits plus the continuation flag |
| NumericAllAscii.DecimalFirstByte | src/zsan/numeric_all_ascii.rs:68 | the decimal header is the place count plus the sign and decimal bits |
| NumericAllAscii.FillBuffer | src/zsan/numeric_all_ascii.rs:91-100 | the buffer ends in the value's digits and nothing before them changes |
| NumericAllAscii.BufferFits | src/zsan/numeric_all_ascii.rs:91-100 | every u64 fits the buffer |
| NumericAllAscii.Decompress | src/zsan/numeric_all_ascii.rs:85-125 | appends '-' when bit 5 is set, then the value rendered with the places bit 4 and the low nibble give |
| NumericAllAscii.SignThenRendered | src/zsan/numeric_all_ascii.rs:86-89 | the sign followed by the rendered value is the text of the header |
| NumericAllAscii.PushBuffer | src/zsan/numeric_all_ascii.rs:102-124 | appends the digits, or with places the integer part, '.', and the fraction |
| NumericAllAscii.FirstByte | src/zsan/numeric_all_ascii.rs:45-68 | the header has bit 7 set and carries the place count; bit 5 is set exactly for a negative value with places or of at least 8 |
| NumericAllAscii.FirstByteIntended | src/zsan/numeric_all_ascii.rs:45-68 | with the sign kept, bit 5 is set exactly for negative values and the places read back |
| NumericAllAscii.HeaderBits | src/zsan/numeric_all_ascii.rs:2-24 | the flag bits of a header byte read back as the high and low nibbles that built it |
| NumericAllAscii.ValueRoundTrip | src/zsan/numeric_all_ascii.rs:38-81 | the value reads back from the encoding, as written and as intended |
| NumericAllAscii.DecimalValue | src/zsan/numeric_all_ascii.rs:68-80 | with places, the value is the groups after the header |
| NumericAllAscii.DecimalCode | src/zsan/numeric_all_ascii.rs:68-80 | with places, the encoding is a header with bit 7, bit 4, the sign bit and the count, followed by the groups of the value |
| NumericAllAscii.SmallValue | src/zsan/numeric_all_ascii.rs:47-56 | a one-byte header gives back a value below 8 |
| NumericAllAscii.LongValue | src/zsan/numeric_all_ascii.rs:58-80 | a value of at least 8 reads back from the header's low bits and the groups |
| NumericAllAscii.LongCode | src/zsan/numeric_all_ascii.rs:58-80 | a long encoding is a header with the continuation flag, the sign and the low three bits, followed by the groups of the value divided by 8 |
| NumericAllAscii.LebDecodes | src/zsan/numeric_all_ascii.rs:71-80 | the groups read back as the value they encode |
| NumericAllAscii.ReadHeader | src/zsan/numeric_all_ascii.rs:58-80 | after a header, the groups give the value directly with places, or shifted above the low three bits without |
| NumericAllAscii.IntendedRoundTrip | src/zsan/numeric_all_ascii.rs:38-125 | with the sign kept, the header's text is the sign and the value rendered with its places |
| NumericAllAscii.SmallNegativeLosesSign | src/zsan/numeric_all_ascii.rs:52-55 | as written, -5 is coded 0x85 and renders as "5"; intended it is 0xA5 and renders as "-5" |
| NumericAllAscii.CompressVector | src/zsan/numeric_all_ascii.rs:161-168 | 0x64D2 encodes as [0x8A, 0x9A, 0x19] |
| NumericAllAscii.UnsignedVector | src/zsan/numeric_all_ascii.rs:171-176 | 123 with header 0x00 renders as "123" |
| NumericAllAscii.NegativeVector | src/zsan/numeric_all_ascii.rs:177-182 | 123 with header 0x20 renders as "-123" |
| NumericAllAscii.DecimalVector | src/zsan/numeric_all_ascii.rs:184-189 | 123 with header 0x31 renders as "-12.3" |
| Parser.SpaceEnd | src/zsan_parser.rs:27-37 | the space run ends at the end of the text or at the first byte that is not a space |
| Parser.DigitRun | src/zsan_parser.rs:60-67 | the digit loop never moves backwards or past the end |
| Parser.Fraction | src/zsan_parser.rs:76-94 | the fraction never ends before the integer part |
| Parser.Token | src/zsan_parser.rs:44-115 | a token step always advances |
| Parser.RetraveBlocks | src/zsan_parser.rs:16-118 | `retrave_blocks` returns exactly the blocks of the scan, and reports a negative or decimal block exactly when one was pushed |
| Parser.FlushSpace | src/zsan_parser.rs:27-37 | pushes one space block for a nonempty run, and leaves both flags unchanged |
| Parser.ReadNumber | src/zsan_parser.rs:44-94 | reads the sign, the integer digits (a lone leading '0') and the fraction, exactly as one token step |
| Parser.PushNumber | src/zsan_parser.rs:96-115 | pushes the number when it has a nonzero value or places, and updates both flags accordingly |
| Parser.AccumulateDigits | src/zsan_parser.rs:60-67 | the digit loop computes the digit run and stays at most MAX |
| Parser.ScanStep | src/zsan_parser.rs:40-116 | one round of the outer loop: the space block, the token's block, then the rest of the scan |
| Parser.AppendFlags | src/zsan_parser.rs:96-115 | the flags of a longer block list are the old flags or the new block's |
| Parser.DigitRunMeaning | src/zsan_parser.rs:60-67 | the loop takes only digits, adds their value, stays at most MAX, and stops only at a non-digit or where the next digit would pass MAX |
| Parser.FractionBlock | src/zsan_parser.rs:76-115 | a pushed block is a well-formed number starting at the token |
| Parser.DotFractionBlock | src/zsan_parser.rs:76-94 | after a '.', the pushed block carries the fraction's digits and places |
| Parser.NoPlacesBlock | src/zsan_parser.rs:68-71 | a nonzero integer without places is a well-formed block |
| Parser.PlacesBlock | src/zsan_parser.rs:76-94 | integer and fraction digits together denote the block's value, and the places are the fraction's length |
| Parser.TokenBlock | src/zsan_parser.rs:44-115 | a token pushes nothing or one well-formed number block within the bytes it consumed |
| Parser.OrderedCons | src/zsan_parser.rs:40-116 | a block ahead of ordered blocks keeps them ordered |
| Parser.OrderedFrom | src/zsan_parser.rs:40-116 | ordering from a later position implies ordering from an earlier one |
| Parser.AllOkAppend | src/zsan_parser.rs:40-116 | well-formed lists concatenate to a well-formed list |
| Parser.SpacesOk | src/zsan_parser.rs:27-37 | a flushed space block is a maximal run of spaces |
| Parser.ScanWellFormed | src/zsan_parser.rs:16-118 | every block is a maximal space run or a well-formed number, and the blocks are in order without overlap |
| Parser.ScanBlocksOk | src/zsan_parser.rs:16-118 | every scanned block is well-formed |
| Parser.ScanOrdered | src/zsan_parser.rs:16-118 | the scanned blocks are in order without overlap |
| Parser.OrderedRound | src/zsan_parser.rs:40-116 | one round's blocks before the ordered rest stay ordered |
| Parser.RetraveCovers | src/zsan_parser.rs:16-118 | nothing is lost: every digit 1-9 of the record lies in a number block, and every space in a space block except one right after a '-' |
| Parser.ScanCovers | src/zsan_parser.rs:40-116 | the same for the rounds from any position, by induction on the rounds |
| Parser.SpaceRunCovered | src/zsan_parser.rs:27-37 | a space of a round's leading run lies in the space block it flushes |
| Parser.TokenPartCovered | src/zsan_parser.rs:44-115 | a digit 1-9 of a round's token lies in a number block of the scan; a space in it follows a '-' |
| Parser.TokenInScan | src/zsan_parser.rs:96-115 | a position inside the block a token pushes lies in a number block of the scan |
| Parser.RestCovered | src/zsan_parser.rs:40-116 | a position covered by the later rounds is covered by the whole scan |
| Parser.TokenCovers | src/zsan_parser.rs:44-115 | each digit 1-9 a token consumes lies in the block it pushes, and the only space it consumes is the one after a leading '-' |
| Parser.DigitsCover | src/zsan_parser.rs:59-72 | the same for a token whose first digit is not '0' |
| Parser.DigitRunGrows | src/zsan_parser.rs:60-67 | the digit loop never lowers the value it starts with |
| Parser.FractionCovers | src/zsan_parser.rs:73-115 | the bytes up to where the scan goes on are the sign, the digits, '.' and the fraction digits, never a space, and the pushed block spans every digit 1-9 among them |
| ParserTests.NinesRun | src/zsan_parser.rs:60-67 | a run of '9' can be skipped in one step of the digit loop |
| ParserTests.SplitLarge | src/zsan_parser.rs:124-152 | eighteen 9s then 88: the 18 9s form MAX, the rest form 88 |
| ParserTests.SplitLargeHead | src/zsan_parser.rs:124-152 | the first token stops at MAX after 18 digits |
| ParserTests.SplitLargeTail | src/zsan_parser.rs:124-152 | the remaining digits form 88 |
| ParserTests.SplitDecimal | src/zsan_parser.rs:154-182 | "99." and sixteen 9s then 88: MAX with 16 places, then 88 |
| ParserTests.SplitDecimalHead | src/zsan_parser.rs:154-182 | the first token is MAX with 16 places |
| ParserTests.SplitDecimalInteger | src/zsan_parser.rs:154-182 | the integer digits are 99 |
| ParserTests.SplitDecimalFraction | src/zsan_parser.rs:154-182 | the fraction loop stops at MAX |
| ParserTests.SplitDecimalTail | src/zsan_parser.rs:154-182 | the rest is 88 |
| ParserTests.MixTail | src/zsan_parser.rs:184-237 | the trailing bytes give two space blocks |
| ParserTests.Mix23 | src/zsan_parser.rs:184-237 | "0.0" yields a zero with one place |
| ParserTests.Mix19 | src/zsan_parser.rs:184-237 | "3.00" yields 300 with two places |
| ParserTests.Mix16 | src/zsan_parser.rs:184-237 | two spaces yield one block |
| ParserTests.Mix13 | src/zsan_parser.rs:184-237 | "7.8" yields 78 with one place |
| ParserTests.Mix9 | src/zsan_parser.rs:184-237 | two spaces yield one block |
| ParserTests.MixNegative | src/zsan_parser.rs:184-237 | "-12.050" yields negative 12050 with three places |
| ParserTests.Mix0 | src/zsan_parser.rs:184-237 | leading spaces then the negative number |
| ParserTests.Mix | src/zsan_parser.rs:184-237 | the whole mixed record scans to the expected blocks |
| ParserTests.SplitLargeTest | src/zsan_parser.rs:124-152 | `retrave_blocks` on the record returns the expected blocks and no flag |
| ParserTests.SplitDecimalTest | src/zsan_parser.rs:154-182 | `retrave_blocks` returns the expected blocks with the decimal flag |
| ParserTests.MixTest | src/zsan_parser.rs:184-237 | `retrave_blocks` returns the expected blocks with both flags |
| Zsan.Decompress | src/zsan.rs:244-261 | appends exactly the decoding that the header byte selects; empty input and unknown headers append nothing |
| Zsan.DecodeAllAscii | src/zsan.rs:262-270 | copies bytes below 0x80 and expands each space-run byte |
| Zsan.AllAsciiRoundTrip | src/zsan.rs:244-270 | an all-ASCII record coded with the all-ASCII header decompresses to the original text |
| Zsan.AllAsciiExpand | src/zsan.rs:262-270 | the all-ASCII body expands back to the text |
| Zsan.NonAsciiRoundTrip | src/zsan.rs:244-261 | a record coded with the non-ASCII header decompresses to the original text |
| Zsan.NonAsciiDecoded | src/zsan/space_has_non_ascii.rs:27-49 | the non-ASCII body decodes back to the text |
| Zsan.NothingToDecode | src/zsan.rs:340-366 | empty input, a header alone, and an unknown header all decompress to nothing |
| Zsan.AllAsciiVector | src/zsan.rs:278-291 | [0xA0, 0xC3, 'a', 0xC6] decompresses to three spaces, 'a', six spaces |
| Zsan.AllAsciiVectorBody | src/zsan.rs:278-291 | that body is the code of three spaces, 'a', six spaces |
| Zsan.NonAsciiVector | src/zsan/space_has_non_ascii.rs:11-12 | a non-ASCII record with a 300-space run decompresses as documented |
| Zsan.NonAsciiVectorBody | src/zsan/space_has_non_ascii.rs:11-12 | that body is the code of 'A', 300 spaces, 'B' |

## Left out

- `compress` in `src/zsan.rs` is unfinished and is not part of this model. The record assembler that would call the numeric codecs after `retrave_blocks` is not part of this model either.
- The diagnostic printing in `decompress` and the tests (`println!`, `eprintln!`) has no effect on results and is left out.
- Benchmarks and the `f64` formatting used by some tests are left out. The vectors are stated on the integer values they format.
- `src/all_ascii.rs` only holds constants. They are inlined where they are used.
- `MAX_DECIMAL_PLACES` in `src/zsan_parser.rs:14` is declared but never enforced by `retrave_blocks`, and the model does not enforce it either.
- The `vle_encode_loop!` and `vle_decode_loop!` macros are modelled once, as `Vle.PushGroups` and `Vle.ReadGroups`, not once per expansion.
- Vle.DecodeVle: requires `DecodeU64(input, r).Some?`. Outside it the source panics: on truncated input it indexes past the end, and on a reading of more than ten bytes the shift `val << bits_cnt` reaches 64, which panics in a debug build and in a release build shifts by `bits_cnt % 64`. Neither panic nor that release-build value is modelled.
- Vle.ReadGroups: requires the groups to end within the input and every shift to stay below 64, as above.
- VleFixed.DecodeFixed: requires `DecodeU64(input, N).Some?`, for the same reasons.
- VleFixed.Decode4: requires `DecodeU64(input, 4).Some?`, as above.
- VleFixed.Decode5: requires `DecodeU64(input, 5).Some?`, as above.
- VleFixed.Decode6: requires `DecodeU64(input, 6).Some?`, as above.
- VleFixed.Decode1: requires `DecodeU64(input, 1).Some?`, as above.
- VleFixed.Decode0: requires `DecodeU64(input, 0).Some?`, as above.
- Integer.Decompress: requires a decodable token (one whose VLE part ends within the input and within ten bytes, as for `Vle.DecodeVle`) whose value is below 10^19. On a 20-digit value the digit loop steps `index` below zero, an overflow that panics in a debug build and wraps in a release build; values of 10^19 and more are not modelled. A truncated token makes the source panic.
- UnsignedInteger.Decompress: requires a decodable token whose value is below 10^19, as above.
- UnsignedDecimal.Decompress: requires a decodable token whose value is below 10^19, as above.
- Decimal.Decompress: requires a decodable token whose value is below 10^19, as above.
- UnsignedDecimal.Compress: requires at most 15 decimal places, the most the place field holds. Beyond that the source ORs into overlapping bits, which is not modelled.
- Decimal.Compress: requires at most 15 decimal places, for the same reason.
- NumericAllAscii.Compress: requires a place count of at most 15. The source panics above it (`src/zsan/numeric_all_ascii.rs:61-65`).
- NumericAllAscii.CompressIntended: requires a place count of at most 15, as above.
- The source has no decoder for the legacy numeric groups. `NumericAllAscii.Value` reads them back in the layout the encoder writes.

## Findings

| source | as written | input that shows it | evidently intended | confidence | as-written member | corrected member |
|---|---|---|---|---|---|---|
| src/all_ascii/space.rs:8-10 | a count of 1 pushes ' ' and then falls through to the remainder code, which adds 0x81 | `compress_space(1)` emits `[0x20, 0x81]`, which decodes to two spaces | return right after pushing the single space | not executed; high | Space.SpaceCodeOneIsTwoSpaces | Space.SpaceCodeIntendedRoundTrip |
| src/zsan/numeric_all_ascii.rs:52-55 | the single-byte header ORs only `NUM_COUNT_FLAG` into a value below 8, dropping the sign bits | value 5 with `Sign::Negative` is coded `0x85`, which renders as "5" | OR in the computed `msb`, giving `0xA5` for "-5" | not executed; medium | NumericAllAscii.SmallNegativeLosesSign | NumericAllAscii.IntendedRoundTrip |
