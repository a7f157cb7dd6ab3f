# klvdata codec primitives in Dafny

A model of the byte-level primitives in `klvdata/common.py`. The KLV
(Key-Length-Value, SMPTE ST 336) parser and the MISB ST 0601 metadata
elements are built on top of them. The model covers:

- `bytes_to_int` and `int_to_bytes`: big-endian integers, unsigned or two's
  complement.
- `ber_decode` and `ber_encode`: the BER length field of a KLV triplet.
- `packet_checksum`: the 16-bit word-sum checksum carried in Tag 1 of a
  MISB ST 0601 packet.
- `bytes_to_hexstr` and `hexstr_to_bytes`: hex text rendering and parsing.

Every primitive is a pure Dafny function. The Python exceptions it can raise
are values of `Results.Result`: `OverflowError`, `ValueError`, or
`StructError` for the `struct.error` that `struct.unpack` raises. Modules:

| module | file | models |
|---|---|---|
| `Results` | results.dfy | the exceptions and a failure-compatible result type |
| `BigEndian` | big_endian.dfy | bytes as integers 0..255; unsigned big-endian value and encoding |
| `Integers` | integers.dfy | `bytes_to_int`, `int_to_bytes` |
| `Ber` | ber.dfy | `ber_decode`, `ber_encode`, `int.bit_length` |
| `Checksum` | checksum.dfy | `packet_checksum` and the `struct` word fold it uses |
| `Hex` | hex.dfy | `bytes_to_hexstr`, `hexstr_to_bytes`, `str.isalnum`, `bytes.fromhex`, `str.join` |

The model follows the code where the code is unusual:

- **BER short-form test.** `ber_decode` compares the value of the whole
  buffer with 128, not its first byte. The two tests agree on every non-empty
  buffer: a buffer longer than one byte whose value is below 128 starts with a
  zero byte, and it is rejected either way. For the empty buffer, the
  whole-value test returns 0, whereas a first-byte test would have nothing to
  read. The model uses the whole-value test.
- **BER long form.** `ber_decode` accepts long forms with leading zero value
  bytes, which section 8.1.3.5 of ITU-T X.690 leaves to the sender. The lone
  marker `0x80` decodes to 0; X.690 gives that octet to the indefinite form
  (section 8.1.3.6). `ber_encode` writes the minimal form, and fails with
  OverflowError when the value is negative or needs more than 127 bytes.
- **Reserved marker 0xFF.** Section 8.1.3.5 c) of X.690 reserves the
  initial octet 0xFF. `ber_encode` still writes it for every value that needs
  exactly 127 bytes, and `ber_decode` accepts it.
- **Checksum input length.** `packet_checksum` raises for inputs shorter than
  two bytes. For those inputs the word count it builds is negative, and
  `struct.unpack` refuses it.

## Model

| member | source | states |
|---|---|---|
| `Integers.BytesToInt` | klvdata/common.py:42-44 | The result is representable at the input's width and signedness. It agrees with the unsigned big-endian reading modulo 256^len. It is negative exactly when signed and the first byte has its top bit set. |
| `Integers.IntToBytes` | klvdata/common.py:47-49 | A negative width is ValueError. A success has exactly `length` bytes that read back as `v`. An OverflowError means that no sequence of that width reads as `v`. Unsigned, it succeeds exactly for 0 <= v < 256^length. |
| `Integers.BytesToIntRoundTrip` | klvdata/common.py:42-49 | Writing back what `bytes_to_int` read, at the same width and signedness, gives the original bytes. |
| `BigEndian.BeEncodeBeUint` | klvdata/common.py:42-49 | The unsigned big-endian encoding at a sequence's own width inverts reading it, so reading is injective at each width. |
| `BigEndian.BeUintLeadingByte` | klvdata/common.py:42-44 | The first byte alone bounds the value: b[0]·256^(n-1) <= value < (b[0]+1)·256^(n-1). |
| `Ber.BitLength` | klvdata/common.py:75 | `int.bit_length`: 0 for 0; otherwise the k with 2^(k-1) <= v < 2^k. |
| `Ber.ByteLength` | klvdata/common.py:75 | `((bit_length - 1) // 8) + 1` is a width w >= 1 with 256^(w-1) <= v < 256^w. This is the fewest bytes that hold v. |
| `Ber.ByteLengthUnique` | klvdata/common.py:75 | Any width n with 256^(n-1) <= v < 256^n is that byte length. |
| `Ber.SingleByte` | klvdata/common.py:72 | `int_to_bytes` at its default width of one byte writes [m] for 0 <= m < 256 and raises OverflowError for m >= 256. |
| `Ber.MinimalPayload` | klvdata/common.py:75-77 | Writing v at its byte length succeeds, reads back as v, and has no leading zero byte. |
| `Ber.WidthFitsMarker` | klvdata/common.py:75-77 | The width fits the marker byte (at most 127) exactly when v < 256^127. |
| `Ber.BerEncode` | klvdata/common.py:68-77 | Succeeds exactly for non-negative values needing at most 127 bytes, and fails otherwise with OverflowError. Below 128 it writes the single byte v. From 128 up it writes a marker 127 + (field length), then a payload that reads as v and has a non-zero first byte. The field is 1 + ByteLength(v) bytes long, so the payload is no wider than needed. |
| `Ber.BerDecode` | klvdata/common.py:52-65 | Succeeds exactly on the empty buffer, a single byte below 128, or a buffer whose first byte is >= 128 and whose length is that byte minus 127. All other input is ValueError. The results are 0, the byte, and the big-endian value after the marker. |
| `Ber.BerRoundTrip` | klvdata/common.py:52-77 | Every value `ber_encode` accepts decodes back to itself. |
| `Ber.BerEncodeIffCanonical` | klvdata/common.py:52-77 | b is the encoding of v if and only if b is a canonical field and decodes to v. A canonical field is a short form, or a long form whose marker counts its bytes, with no leading zero and a value that needs the long form. |
| `Ber.CanonicalIsEncoding` | klvdata/common.py:52-77 | Every canonical field decodes, and re-encoding the result gives the field back. |
| `Ber.BerDecodeBound` | klvdata/common.py:61-65 | Every decoded length is below 256^127, so `ber_encode` accepts it. |
| `Ber.BerEncodeShortest` | klvdata/common.py:52-77 | No non-empty field that decodes to v is shorter than `ber_encode(v)`. The empty buffer also decodes to 0 and is the one exception. |
| `Ber.BerDecodeQuirks` | klvdata/common.py:52-65 | The empty buffer and 0x80 decode to 0. The reserved marker 0xFF followed by 127 zero bytes decodes to 0. A long form with a leading zero value byte is accepted. [0x00, 0x05] and [0x05, 0x00] are rejected. |
| `Ber.BerEncodeReservedMarker` | klvdata/common.py:75-77 | A value needing exactly 127 bytes is encoded with the reserved first byte 0xFF. |
| `Checksum.Words` | klvdata/common.py:141 | `unpack('>nH')`: one word per byte pair, word i = 256·p[2i] + p[2i+1]. |
| `Checksum.SumAppend` | klvdata/common.py:141 | `sum` over the words is additive over concatenation, so the fold order does not matter. |
| `Checksum.SumBoundsTerms` | klvdata/common.py:141 | Every word is at most the sum. |
| `Checksum.WordSumIsWeightedSum` | klvdata/common.py:141 | The sum of the big-endian words equals the byte-by-byte reference sum, in which even offsets weigh 256 and odd offsets weigh 1. |
| `Checksum.PacketChecksum` | klvdata/common.py:136-146 | Fails with StructError exactly when the input is shorter than two bytes. Otherwise it returns two bytes whose big-endian value is the reference sum of all but the last two bytes, mod 65536. A trailing odd byte counts as a high byte. |
| `Checksum.ChecksumValue` | klvdata/common.py:136-146 | The checksum equals the two-byte big-endian encoding of the reference sum mod 65536. |
| `Checksum.ChecksumIgnoresTrailer` | klvdata/common.py:138-141 | Two packets that differ only in their last two bytes have the same checksum. |
| `Checksum.ChecksumDetectsSingleByteChange` | klvdata/common.py:136-146 | Changing any single byte outside the trailer changes the checksum. |
| `Checksum.WeightedSumUpdate` | klvdata/common.py:141-144 | Replacing byte i moves the sum by the difference times the byte's weight. |
| `Checksum.ChecksumExample` | klvdata/common.py:136-146 | Words 0x0001 and 0x0002 give checksum 0x0003, whatever the trailer holds. |
| `Hex.HexDigit` | klvdata/common.py:97 | The digit written for n < 16 is upper-case hex and reads back as n. |
| `Hex.ByteToHex` | klvdata/common.py:97 | `'{:02X}'` writes two upper-case hex digits whose value is the byte. |
| `Hex.HexParts` | klvdata/common.py:97 | One two-digit field per byte, in order. |
| `Hex.JoinLength` | klvdata/common.py:97 | `sep.join` of n >= 1 fields of width w is n·w + (n-1)·len(sep) characters long. |
| `Hex.JoinField` | klvdata/common.py:97 | Character j of field k sits at offset k·(w + len(sep)) + j of the join. |
| `Hex.JoinSeparator` | klvdata/common.py:97 | Character j of the separator after field k (every field but the last) sits at offset k·(w + len(sep)) + w + j. |
| `Hex.BytesToHexstr` | klvdata/common.py:95-97 | The text starts with `start` and has exactly two digits per byte plus a separator between neighbours. Byte k's digits sit at offset k·(2 + len(sep)) after `start`, are upper-case, and read back as byte k. An empty input gives `start`. |
| `Hex.HexSeparators` | klvdata/common.py:97 | The separator follows the two digits of every byte but the last. |
| `Hex.KeepAlnum` | klvdata/common.py:92 | `filter(str.isalnum, …)` keeps only letters and digits and never lengthens the text. Text made only of letters and digits passes whole, and text without any filters to nothing. Together with `KeepAlnumConcat`, this fixes the result on every input. |
| `Hex.KeepAlnumKeeps` | klvdata/common.py:92 | Every letter or digit of the input appears in the filtered text. |
| `Hex.KeepAlnumConcat` | klvdata/common.py:92 | Filtering distributes over concatenation. |
| `Hex.FromHex` | klvdata/common.py:92 | `bytes.fromhex` on letters and digits succeeds exactly on an even count of hex digits, of either case, and fails otherwise with ValueError. Byte i is 16·d[2i] + d[2i+1]. |
| `Hex.HexstrToBytes` | klvdata/common.py:90-92 | Succeeds exactly when every letter or digit of the input is a hex digit and their count is even, and fails otherwise with ValueError. A success has one byte per digit pair, byte i being 16·(digit 2i) + (digit 2i+1) of the filtered text, in either case. |
| `Hex.HexstrIgnoresSeparators` | klvdata/common.py:90-92 | Deleting any run of non-alphanumeric characters anywhere leaves the parse result unchanged. |
| `Hex.HexRoundTrip` | klvdata/common.py:90-97 | Rendering bytes and parsing the text gives the bytes back, for any prefix and separator free of letters and digits. |
| `Hex.ParseThenRender` | klvdata/common.py:90-97 | Canonical text (an even run of upper-case hex digits) parses, and rendering the result with no prefix or separator gives the text back. |
| `Hex.HexRenderExample` | klvdata/common.py:95-97 | [0xAB, 0xCD, 0xEF] renders as `AB CD EF` with the default separator. |
| `Hex.HexParseExample` | klvdata/common.py:90-92 | `AB CD EF` parses to [0xAB, 0xCD, 0xEF]. |

## Left out

- `datetime_to_bytes` and `bytes_to_datetime` (klvdata/common.py:32-39) are not modelled. They go through floating-point timestamps and the system time zone library.
- `linear_map`, `bytes_to_float` and `float_to_bytes` (klvdata/common.py:100-133) are not modelled. They are floating-point arithmetic, and they also print.
- `bytes_to_str` and `str_to_bytes` (klvdata/common.py:80-87) are not modelled. They are the UTF-8 codec.
- The coercions `bytes(value)` and `int(value)` are not modelled: inputs are already byte sequences and integers.
- `struct.pack` and `struct.unpack` are not modelled as a library. The model keeps only the word fold and the two-byte big-endian encoding that `packet_checksum` uses, plus the error on a negative repeat count.
- Hex.HexstrToBytes: letters and digits are ASCII only. Python's `str.isalnum` also keeps non-ASCII letters and digits, and `bytes.fromhex` then raises ValueError on them. This model drops those characters instead, so its success condition is stated only for text whose letters and digits are ASCII.
- Hex.KeepAlnum: the same ASCII restriction as `Hex.HexstrToBytes`.
