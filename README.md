# CanX core in Dafny

This project models the byte-level core of CanX, a Python toolkit for CAN,
ISO-TP (ISO 15765-2) and UDS diagnostics, together with its 32-bit
seed-to-key helper written in C++. The model covers:

- ISO-TP frame building and parsing (`Frame`), and the pure parts and
  the in-place receive buffer, send loop and session registry of the
  ISO-TP session (`SessionSpec`, `Session`);
- the hex and byte codecs, CAN FD length rounding, padding and clamping
  (`Cast`);
- the bit reflection, the two CRCs and the E2E payload (`Crc`);
- the integer raw-value helpers of the web application (`SignalRaw`);
- the panel script splitter (`PanelApi`);
- the DBC signal store (`DbcAdapter`);
- the bounded trace queues and the logging switches of the CAN
  interface, and the id parsing of `stop_periodic` (`CanInterface`);
- the seed-to-key helper `Helper32.cpp` (`Helper32`);
- the line filters (`LineFilters`) and the DBC helpers
  `Remove_duplicates` and `Get_messages_nodes` (`DbcRead`).

`Base` holds the shared text and option helpers and `Bits` the
arithmetic lemmas the CRC and raw-value proofs rest on.

Conventions:

- Bytes are integers in 0..255. Python lists of hex tokens that stand
  for received bytes are modelled as byte sequences, which
  `Cast.HexArrToStrArr` and `Frame.NrcCheckOfBytes` justify.
- Python's `&` with a mask of low bits and `>>` are written as
  Euclidean `%` and `/`. For the non-negative values involved, and for
  Python's floor semantics on negatives, they agree.
- Exceptions that a caller can meet become `Result` or `Option` error
  values. An `IndexError` on a frame that is too short becomes a
  precondition, because the source never checks it.
- Stateful code keeps its form. Classes have the source's fields
  (`Session.CANTPSession`, `Session.CANTPSessionManager`,
  `DbcAdapter.Adapter`, `CanInterface.Interface`), loops become
  `while`/`for` loops proved against recursive specification
  functions, and the C++ helper fills real arrays.

Decisions where the model departs from a literal reading:

- `DbcAdapter` keeps the five dictionaries that `DBCAdapter.__init__`
  builds per message name (`current_signals`, `initial_signals`,
  `trim_table`, `signal_queues`, `message_attributes`) as ONE map from
  the name to a record with those five parts. The source always fills
  all five for the same keys and never removes a key, so the maps share
  their key set by construction.
- `Helper32.Helper` requires a seed argument whose first sixteen
  characters are hex digits. `sscanf` with `%02hhX` leaves the seed
  undefined on anything else, and the program does not check its
  result.
- The ISO-TP flow status constants come from section 9.6.5.2 of ISO
  15765-2:2016 (CTS 0, WAIT 1, OVFLW 2). The module that defines them,
  `CANTP/Description.py`, is not part of this model.
- Where the code differs from the standard it follows, the model does
  what the code does and a lemma exhibits the difference:
  - the escape length test on byte 1 alone (`Frame.CalculateLengthMisreads256`);
  - the two-bit flow status (`Frame.ExtractCFAgainstIso`);
  - 36 in place of 32 in the CAN FD length table (`Cast.DlcLengthDivergence`).

## Model

| member | source | states |
|---|---|---|
| Frame.Slice1stChunk | CANTP/Frame.py:11-12 | `arr[:num], arr[num:]`: the two parts concatenate to the input; the first has min(num, len) elements for a non-negative `num`, and for a negative one it leaves off the last -num elements (nothing is kept when -num exceeds the length) |
| Frame.PciType | CANTP/Frame.py:20 | the frame type is the high nibble of the protocol control byte |
| Frame.IsFirstFrame | CANTP/Frame.py:15-22 | true exactly for a present frame whose first byte lies in 0x10..0x1F |
| Frame.CalculateLength | CANTP/Frame.py:24-35 | with byte 1 non-zero: the 12-bit length from the low nibble of byte 0 and byte 1, two header bytes; with byte 1 zero: the big-endian value of bytes 2..5, five header bytes |
| Frame.BigEndianFour | CANTP/Frame.py:31-34 | the four shifted ORs add up to the big-endian value of the four bytes |
| Frame.CeilDiv | CANTP/Frame.py:44 | `math.ceil(a / b)` is the integer q with (q-1)·b < a ≤ q·b (and the mirrored bracket for a negative divisor) |
| Frame.ExpectedFrames | CANTP/Frame.py:37-44 | the total is calculateLength's, the data are the bytes after the header, and the frame count is the least number of (chunk-1)-byte frames that covers the rest |
| Frame.ExtractCF | CANTP/Frame.py:46-58 | the flow status is byte 0 masked to two bits; block size and STmin are bytes 1 and 2 |
| Frame.ExtractCFAgainstIso | CANTP/Frame.py:55 | the two-bit status equals the four-bit status of ISO 15765-2 exactly when the latter is below 4; 0x34 reads as CTS and 0x35 as WAIT |
| Frame.NrcCheck | CANTP/Frame.py:60-63 | `NRC_check`: a response is negative exactly when its first token is "7F" |
| Frame.NrcCheckOfBytes | CANTP/Frame.py:60-63 | on the tokens made from received bytes, a response is negative exactly when its first byte is 0x7F |
| Frame.IncreaseSN | CANTP/Frame.py:66-73 | a sequence number in 0..15 goes to (n+1) mod 16, and 15 or more goes to 0 |
| Frame.SNAfterZero | CANTP/Frame.py:66-73 | counting k frames from 0 gives k mod 16 |
| Frame.IncreaseSNMod | CANTP/Frame.py:66-73 | increaseSN counts modulo 16 |
| Frame.FirstFrameHeader | CANTP/Frame.py:88-101 | the header is two bytes up to 0xFFF and six bytes starting 10 00 above, always of frame type 1 |
| Frame.ConvertFFBytes | CANTP/Frame.py:75-104 | the byte-level specification of `convertFF`: up to 7 bytes a single frame of length, data and zero padding; up to 0xFFFFFFFF bytes the header and data cut at the chunk length; otherwise nothing |
| Frame.ConvertFF | CANTP/Frame.py:75-104 | the frame text is the spaced hex of the first chunk and the remainder is the rest |
| Frame.ConvertFFSingleFrame | CANTP/Frame.py:84-87 | up to 7 bytes: one 8-byte frame holding the length, the data and zeros, with nothing left over |
| Frame.ConvertFFFirstFrame | CANTP/Frame.py:88-103 | 8 to 0xFFFFFFFF bytes: frame and remainder concatenate to header plus data, and the frame has min(chunk, total) bytes |
| Frame.FirstFrameHeaderBytes | CANTP/Frame.py:89-101 | the header bytes are 0x10 + len/256 and len mod 256, or 10 00 and the four big-endian length bytes |
| Frame.BigEndianQuad | CANTP/Frame.py:97-100 | the four masked shifts of a 32-bit length are bytes that recombine to the length |
| Frame.ConvertFFTooLong | CANTP/Frame.py:94-104 | above 0xFFFFFFFF bytes the frame text is empty and nothing remains |
| Frame.CalculateLengthOfFirstFrame | CANTP/Frame.py:24-35 | calculateLength reads back the length of a 12-bit first frame whose low length byte is not zero |
| Frame.CalculateLengthOfEscapeFrame | CANTP/Frame.py:24-44 | calculateLength reads back an escape length, but with five header bytes counted, so the received data start with the low length byte |
| Frame.EscapeHeaderRead | CANTP/Frame.py:29-34 | the six bytes of an escape header read back as the length, with byte 1 zero |
| Frame.CalculateLengthMisreads256 | CANTP/Frame.py:25-27 | a 256-byte message gets header 11 00, which calculateLength reads as an escape length of 0 |
| Frame.PadTo7 | CANTP/Frame.py:116 | the data are kept as a prefix and padded with zeros to at least seven bytes |
| Frame.NextCFBytes | CANTP/Frame.py:106-121 | the byte-level specification of `nextCF`: the header 0x20+SN before the data padded to seven bytes, cut at the chunk length |
| Frame.NextCF | CANTP/Frame.py:106-121 | the caller's list is padded in place, and frame and remainder are the cut of 0x20+SN followed by the padded data |
| Frame.NextCFShape | CANTP/Frame.py:117-120 | a consecutive frame has type 2 and SN in its low nibble, and frame plus remainder is the header plus the padded data |
| Frame.NextCFNeverEmpties | CANTP/Frame.py:116-120 | with chunks of at most seven bytes the remainder is never empty |
| Frame.NextCFProgress | CANTP/Frame.py:116-120 | with chunks of eight bytes or more each frame consumes data, and data shorter than the chunk are used up |
| Cast.HexLower | COMMON/Cast.py:32 | `hex(n)[2:]` is a non-empty string of lower-case hexadecimal digits |
| Cast.ParseHexLower | COMMON/Cast.py:32 | the digits `hex(n)[2:]` read back as n |
| Cast.ParseHexLeadingZero | COMMON/Cast.py:33-34 | putting a '0' in front of the digits keeps their value |
| Cast.ParseHexUpper | COMMON/Cast.py:36 | upper-casing hexadecimal digits keeps their value |
| Cast.SplitByNum | COMMON/Cast.py:38-43 | for a positive `num` the pieces concatenate to the input and all but the last have exactly `num` elements (the last 1..num); a negative `num` gives no pieces |
| Cast.RemoveSpacesJoin | COMMON/Cast.py:35 | joining with spaces adds nothing but spaces |
| Cast.SpacedPairsOfJoin | COMMON/Cast.py:35-36 | an even run of digits split in twos, joined with spaces and upper-cased is upper-case digit pairs separated by single spaces |
| Cast.HexZero | COMMON/Cast.py:27-36 | Hex(0) is "00" |
| Cast.HexOfNatural | COMMON/Cast.py:27-36 | for n ≥ 0, Hex(n) is upper-case digit pairs separated by single spaces, and its digits read back as n |
| Cast.UpperPair | COMMON/Cast.py:64-68 | one byte gives two upper-case hexadecimal digits whose value is the byte |
| Cast.UpperLowerPair | COMMON/Cast.py:52-54 | the zero-padded `hex(val)[2:]` of a byte, upper-cased, is its upper-case digit pair |
| Cast.HexOfByte | COMMON/Cast.py:27-36 | Hex of a single byte is its two upper-case digits |
| Cast.SpacedHexAppend | COMMON/Cast.py:45-56 | HexArr2Str of a concatenation is the concatenation of the texts |
| Cast.UpperLowerSpacedHex | COMMON/Cast.py:55-56 | upper-casing once at the end gives the same text as upper-casing each pair |
| Cast.SpacedHexShape | COMMON/Cast.py:45-56 | HexArr2Str of n bytes has 3n characters: byte i's two upper-case digits at 3i, 3i+1 and a space at 3i+2 |
| Cast.HexArrToStr | COMMON/Cast.py:45-56 | the loop builds exactly the spaced upper-case hex of the bytes |
| Cast.HexArrToStrArr | COMMON/Cast.py:58-69 | one two-character upper-case token per byte, whose value is that byte |
| Cast.NormalizedHex | COMMON/Cast.py:77-79 | after removing spaces and padding, the text has even length |
| Cast.PairValues | COMMON/Cast.py:86 | an even run of digits decodes to half as many bytes |
| Cast.DecodeHex | COMMON/Cast.py:72-86 | `Str2HexArr` as a function: the normalised text cut in two-character pieces, each read by `Base.PyInt` in base 16, None when any piece is refused |
| Cast.DigitsValueHex | COMMON/Cast.py:86 | on plain hexadecimal digits the digit value `int()` computes is their positional hexadecimal value |
| Cast.PyIntHex | COMMON/Cast.py:86 | `int(s, 16)` of a non-empty run of plain hexadecimal digits is their value |
| Cast.PyIntPairRange | COMMON/Cast.py:86 | a two-character piece that `int(..., 16)` accepts lies in -15..255 |
| Cast.DecodeHexRange | COMMON/Cast.py:72-86 | every value `Str2HexArr` gives lies in -15..255: a piece can carry a sign or whitespace, so a value can be negative but never exceeds a byte |
| Cast.DecodeHexLenient | COMMON/Cast.py:86 | pieces that are not two digits can still be read: "-1" gives -1, "+5" gives 5 and "\n0" gives 0 |
| Cast.DecodeHexRefusesSeparator | COMMON/Cast.py:72-86 | a piece holding a separator character U+001C, which `str.strip()` would remove, is still refused: Str2HexArr("\x1c5") raises |
| Cast.DecodeHexOfDigits | COMMON/Cast.py:72-86 | when the normalised text is all hexadecimal digits, `Str2HexArr` gives the value of each digit pair |
| Cast.DecodeBytesNegative | COMMON/Cast.py:72-86 | when `Str2HexArr` succeeds but its values are not all bytes, one of them is negative |
| Cast.StrToHexArr | COMMON/Cast.py:72-86 | the loop removes spaces, upper-cases and pads an odd length with '0' on the right, then its result is `DecodeHex`: each two-character piece read the way `int(piece, 16)` reads it, and None exactly where one such call raises |
| Cast.PairsTextShape | COMMON/Cast.py:45-56 | digit pairs without separators: 2n upper-case hexadecimal digits, byte i at 2i, 2i+1 |
| Cast.RemoveSpacesSpacedHex | COMMON/Cast.py:77 | removing the spaces of HexArr2Str's text leaves the digit pairs |
| Cast.PairValuesOfPairsText | COMMON/Cast.py:86 | decoding digit pairs gives the bytes back |
| Cast.DecodeSpacedHex | COMMON/Cast.py:45-86 | round trip: Str2HexArr(HexArr2Str(bs)) == bs for every byte list |
| Cast.ParseHexAppend | COMMON/Cast.py:94-96 | appending a digit pair multiplies the value by 256 and adds the pair |
| Cast.ParseHexPairsText | COMMON/Cast.py:94-96 | digit pairs read as one hexadecimal number give the big-endian value of the bytes |
| Cast.UpperPairs | COMMON/Cast.py:58-69 | the token list has one upper-case pair per byte |
| Cast.StrArrToInt | COMMON/Cast.py:91-96 | `StrArr2Int`: the tokens joined with '' and read by `int(..., 16)`, None where that raises |
| Cast.StrArrToIntOfTokens | COMMON/Cast.py:94-96 | StrArr2Int of the tokens of a non-empty byte list is its big-endian value |
| Cast.ConcatUpperPairs | COMMON/Cast.py:91-92 | joining the tokens with '' gives the digit pairs |
| Cast.CorrectStrHex | COMMON/Cast.py:112-117 | `Correct_Str_Hex`: spaces removed, the rest cut in pairs, joined with single spaces and upper-cased |
| Cast.CorrectStrHexKeepsText | COMMON/Cast.py:112-117 | Correct_Str_Hex only moves spaces: without spaces it is the upper-cased input without spaces |
| Cast.SmallestFit | COMMON/Cast.py:108-110 | the first table entry that holds n is in the table, at least n, and no larger than any other entry that holds n |
| Cast.DataSizesIncreasing | COMMON/Cast.py:102 | the source's size table is strictly increasing |
| Cast.IsoDataSizesIncreasing | COMMON/Cast.py:102 | the ISO 11898-1 size table is strictly increasing |
| Cast.FitAt | COMMON/Cast.py:108-110 | the scan stops at the first index whose entry holds n, and that entry is the smallest fit |
| Cast.DlcLength | COMMON/Cast.py:98-110 | up to 8 the length itself, above 64 0xFF, otherwise the smallest table size that holds it |
| Cast.CalculateLengthDlc | COMMON/Cast.py:98-110 | the loop returns DlcLength of the list's length |
| Cast.DlcLengthRanges | COMMON/Cast.py:98-110 | the size picked, range by range: 12, 16, 20, 24, 36, 48, 64 |
| Cast.DataRanges | COMMON/Cast.py:102 | the smallest fit in the source's table, range by range |
| Cast.IsoRanges | COMMON/Cast.py:102 | the smallest fit in the ISO 11898-1 table, range by range |
| Cast.DlcLengthAgainstIso | COMMON/Cast.py:102 | the source agrees with section 10.4.2.4 of ISO 11898-1:2015 exactly outside 25..36 bytes |
| Cast.DlcLengthDivergence | COMMON/Cast.py:102 | 30 bytes are rounded to 36, where the standard gives 32 |
| Cast.AddPadding | COMMON/Cast.py:119-126 | fails exactly when `int(padding, 16)` (`Base.PyInt`) raises, so " aa", "0xAA" and "a_a" pad with 0xAA; otherwise a new list padded with that value to the length calculateLength_dlc gives |
| Cast.Padded | COMMON/Cast.py:122-126 | the frame `add_padding` builds: the input followed by copies of the padding value up to the CAN FD size, none when the input is already that long |
| Cast.PaddedShape | COMMON/Cast.py:119-126 | up to 64 bytes: the input is a prefix, the length is DlcLength, and every added byte is the padding value |
| Cast.PaddedBeyond64 | COMMON/Cast.py:104-105 | above 64 bytes (up to 255) the list is padded to 0xFF elements |
| Cast.Trim | COMMON/Cast.py:128-135 | `trim`: clamped up to the minimum when one is given, then down to the maximum when one is given |
| Cast.TrimProperties | COMMON/Cast.py:128-135 | no bounds: identity; ordered bounds: the result lies within them; a value already inside is kept; trim is idempotent |
| Crc.Reflect | E2E/crc.py:19-24 | the reference reflection: the low `n_bits` bits of the input in reverse order |
| Crc.ReflectBits | E2E/crc.py:19-24 | the loop computes the reflection of the low `n_bits` bits |
| Crc.ReflectStep | E2E/crc.py:21-23 | the low bit of the input becomes the top bit of the reflection |
| Crc.ReflectLoopStep | E2E/crc.py:21-23 | one loop turn keeps the invariant relating the partial result and the bits still to read |
| Crc.ReflectBound | E2E/crc.py:19-24 | reflect(x, n) < 2^n |
| Crc.ReflectBit | E2E/crc.py:19-24 | bit i of reflect(x, n) is bit n-1-i of x: it is the bit reversal of the low n bits |
| Crc.ReflectBitLow | E2E/crc.py:19-24 | below the top bit a reflection has the bits of the reflection of x/2 |
| Crc.ReflectTop | E2E/crc.py:19-24 | reflecting n+1 bits doubles the reflection of the low n bits and adds bit n |
| Crc.ReflectSplit | E2E/crc.py:19-24 | the top bit of a reflection is the input's bottom bit, and the rest is the reflection of x/2 |
| Crc.ReflectInvolution | E2E/crc.py:19-24 | reflect(reflect(x, n), n) == x for x < 2^n |
| Crc.ReflectAllOnes | E2E/crc.py:36 | n one bits reflect to n one bits, so 0x1FFFF is its own reflection |
| Crc.ReflectByte | E2E/crc.py:94 | a reflected byte is reflect(b, 8) |
| Crc.ReflectTable | E2E/crc.py:94 | _REFLECT_BYTE has 256 entries and entry i is reflect(i, 8) |
| Crc.BuildReflectTable | E2E/crc.py:94 | building the table by calling reflect for each byte gives that table |
| Crc.ReflectTableInvolution | E2E/crc.py:94 | looking an entry up twice gives the index back |
| Crc.MaskedShifts | E2E/crc.py:30-34 | a register masked after every shift stays below 2^w |
| Crc.Register | E2E/crc.py:26-47 | the w-bit register after feeding the data stays below 2^w |
| Crc.ShiftMod | E2E/crc.py:31-34 | the low w bits after a shift depend only on the low w bits before it |
| Crc.ShiftsMasked | E2E/crc.py:30-34 | eight unmasked shifts then a mask equal eight masked shifts |
| Crc.MaskedShiftsMod | E2E/crc.py:30-34 | high bits of the register do not affect masked shifts |
| Crc.MaskOnce | E2E/crc.py:30-47 | masking the accumulator once at the end equals masking after every step: high bits never flow down |
| Crc.FeedMod | E2E/crc.py:29-34 | feeding a byte into the unbounded accumulator and masking equals feeding it into the masked register |
| Crc.FedByteFits | E2E/crc.py:29 | a byte shifted to the top eight bits of a w-bit register stays below 2^w |
| Crc.Crc16CanFd | E2E/crc.py:38-49 | the loop computes the CRC-16/CCITT-FALSE register of the data (poly 0x1021, init 0xFFFF, xorout 0), below 2^16 |
| Crc.Crc16Finish | E2E/crc.py:47-49 | masking to 16 bits and the final XOR with 0 give the register |
| Crc.ReflectedBytes | E2E/crc.py:29 | each byte is replaced by its table reflection |
| Crc.Crc17CanFd | E2E/crc.py:26-36 | the loop computes the register over the reflected bytes with poly 0x1685B and init 0x1FFFF, reflected on 17 bits, below 2^17 |
| Crc.CrcOfEmpty | E2E/crc.py:26-49 | with no data the CRC-16 is 0xFFFF and the CRC-17 is reflect(0x1FFFF, 17) == 0x1FFFF |
| Crc.FromHex | E2E/crc.py:55 | `bytes.fromhex`: ASCII whitespace before a pair is skipped, a pair is two adjacent hexadecimal digits, and any other character makes it raise |
| Crc.FromHexDigits | E2E/crc.py:55 | an even run of hexadecimal digits reads as its digit pairs |
| Crc.FromHexSkipsSpace | E2E/crc.py:55 | ASCII whitespace between two runs of pairs is skipped: the bytes are those of the first run followed by those of the rest, and the rest alone decides an error |
| Crc.FromHexTabs | E2E/crc.py:55 | "AB\tCD\tEF" reads as AB CD EF, and "0AB\tCD" raises because "B\t" is not a pair |
| Crc.Hex2Byte | E2E/crc.py:51-55 | `hex2byte`: the text stripped, its spaces removed, an odd length padded with '0' on the left (tabs and newlines count), then `bytes.fromhex` |
| Crc.Hex2ByteEven | E2E/crc.py:51-55 | once stripped, text of even length without spaces is handed to `bytes.fromhex` as it is |
| Crc.Hex2BytePairsText | E2E/crc.py:51-55 | hex2byte reads back the digit pairs of any byte list |
| Crc.Hex2BytePadsLeft | E2E/crc.py:53-54 | an odd digit count is padded with '0' on the left |
| Crc.DecodeHexPadsRight | COMMON/Cast.py:78-79 | Str2HexArr pads an odd digit count with '0' on the right |
| Crc.PairValuesPadLeft | E2E/crc.py:53-55 | "123" padded on the left decodes to 01 23 |
| Crc.PairValuesPadRight | COMMON/Cast.py:78-86 | "123" padded on the right decodes to 12 30 |
| Crc.PayloadSuffix | E2E/crc.py:69 | the suffix (0xF800 + id) & 0xFFF is (id + 0x800) mod 0x1000 |
| Crc.IdValue | E2E/crc.py:60 | `int(msg_id)`: an int as it is, text read by `Base.PyInt` in base 10, any other argument refused (floats, bytes and objects with `__index__` are not modelled) |
| Crc.BuildCrcPayload | E2E/crc.py:58-73 | `_build_crc_payload`: its checks in the source's order, then the frame from byte 2 on followed by the 16-bit suffix, low byte first |
| Crc.BuildCrcPayloadProperties | E2E/crc.py:58-73 | each error is raised exactly when its check is the first to fail; on success the payload has the frame's length, keeps bytes 2 onwards and ends with the suffix, low byte first |
| Crc.CrcCalculate | E2E/crc.py:76-82 | the CRC-16 of the payload, or the payload's error |
| SessionSpec.BuildPayload | CANTP/session.py:26-31 | `build_payload`: the header byte from the PCI and the flow status, then block size, STmin and five zero bytes, as spaced upper-case hex |
| SessionSpec.FlowControlHeader | CANTP/session.py:28 | the first flow control byte carries the frame type in its high nibble and the low nibble of the flow status in its low one |
| SessionSpec.FlowControlBytes | CANTP/session.py:26-31 | a flow control frame is eight bytes long |
| SessionSpec.FlowControlFirstByte | CANTP/session.py:28 | `((pci << 4) & 0xF0) \| (flow_status & 0x0F)` is the header byte: the shifted type leaves the low nibble clear, so the OR is an addition |
| SessionSpec.BuildPayloadText | CANTP/session.py:28-31 | the payload text is the three computed fields as upper-case digit pairs, each followed by a space, and then five `00` fields |
| SessionSpec.BuildPayloadSpaced | CANTP/session.py:26-31 | the payload, with a trailing space, is the spaced hex text of the eight flow control bytes |
| SessionSpec.BuildPayloadBytes | CANTP/session.py:26-31 | the payload decodes back to exactly the eight flow control bytes, the first holding the frame type and the flow status |
| SessionSpec.DecodeHexTrailingSpace | COMMON/Cast.py:72-86 | a trailing space does not change what `Str2HexArr` decodes |
| SessionSpec.IsTransportPayload | CANTP/session.py:231-235 | `_is_transport_payload`: a non-empty frame of PCI type 0, 1 or 2 |
| SessionSpec.IsConsecutiveFrame | CANTP/session.py:238-241 | `_is_consecutive_frame`: a non-empty frame of PCI type 2 |
| SessionSpec.IsFlowControlFrame | CANTP/session.py:244-247 | `_is_flow_control_frame`: a non-empty frame of PCI type 3 |
| SessionSpec.FrameClasses | CANTP/session.py:230-251 | an empty frame is in no class; a transport payload has first byte below 0x30, a consecutive frame 0x20..0x2F, a flow control frame 0x30..0x3F; consecutive frames are transport payloads and never flow control |
| SessionSpec.InterpretStMin | CANTP/session.py:259-264 | `_interpret_st_min`: 0..0x7F are milliseconds, 0xF1..0xF9 hundreds of microseconds, anything else no delay |
| SessionSpec.StMinAgainstIso | CANTP/session.py:258-264 | `_interpret_st_min` in microseconds: 0..0x7F are milliseconds, 0xF1..0xF9 are 100..900 µs, and it agrees with the reading of ISO 15765-2 exactly on the non-reserved values (the standard reads a reserved value as 127 ms, the code as no delay) |
| SessionSpec.FirstMatch | CANTP/session.py:222-224 | the index found holds a frame of the kind and no earlier frame does; no index means no frame of the kind |
| SessionSpec.PopFirstFilter | CANTP/session.py:218-228 | the popped frame is the first frame of the kind, the frames of the kind left are the rest of them, the other frames stay in order and the buffer shrinks by one; with no match nothing is popped and the buffer is unchanged |
| SessionSpec.PopAt | CANTP/session.py:222-224 | removing the first matching frame at index i takes it off the front of the matching frames and leaves the others as they were |
| SessionSpec.FilterAppend | CANTP/session.py:222-224 | the matching frames of a concatenation are those of each part, in order |
| SessionSpec.OthersAppend | CANTP/session.py:222-224 | the non-matching frames of a concatenation are those of each part, in order |
| SessionSpec.DropMatchesFilter | CANTP/session.py:142 | after k pops of consecutive frames the first k matching frames are gone and every other frame is still buffered |
| SessionSpec.CfStreamSplit | CANTP/session.py:146 | the data of a list of consecutive frames is the data of its first k followed by that of the rest |
| SessionSpec.CfCount | CANTP/session.py:136-146 | reassembly never pops more consecutive frames than are buffered |
| SessionSpec.PopConsecutive | CANTP/session.py:142 | the (k+1)-th pop of a consecutive frame returns the (k+1)-th buffered one, or nothing once all are gone |
| SessionSpec.CollectStep | CANTP/session.py:136-146 | one turn of the reassembly loop appends the next consecutive frame's data without its PCI byte and keeps the collected data equal to the head followed by the frames consumed |
| SessionSpec.CollectExhausted | CANTP/session.py:142-145 | when the consecutive frames run out before the announced length, the whole stream is short and every consecutive frame has been popped |
| SessionSpec.CollectComplete | CANTP/session.py:136-148 | when the announced length is reached, the collected data cut to that length equals the stream of all buffered consecutive frames cut to that length |
| SessionSpec.ReceiveResult | CANTP/session.py:106-148 | what `receive` returns for a receive buffer and whether the flow control write succeeds: nothing without a transport frame, a single frame's data, or the reassembled message |
| SessionSpec.ReceiveResultShape | CANTP/session.py:123-148 | once flow control is sent, receive returns either nothing or exactly the announced number of bytes, a prefix of the first frame's data followed by the consecutive frames' data |
| SessionSpec.WaitResult | CANTP/session.py:199-216 | `_wait_for_flow_control`: WAIT frames are skipped, OVFLW or no frame gives nothing, a frame too short for `extractCF` is an IndexError, and any other status gives its settings |
| SessionSpec.WaitResultProperties | CANTP/session.py:199-216 | a returned flow status is never WAIT or OVFLW; only flow control frames leave the buffer; with no flow control frame buffered the wait gives nothing and changes nothing |
| SessionSpec.CfFrameNumbering | CANTP/session.py:172-174 | consecutive frame k carries PCI type 2 and the sequence number `increaseSN` reaches after k steps from 0 (1, 2, ..., 15, 0, 1, ...) |
| SessionSpec.CfRemainShortChunks | CANTP/session.py:172-174 | with a chunk length of at most seven, `nextCF` never empties the remaining data, so the loop only ends through a failing write |
| SessionSpec.CfRemainLongChunks | CANTP/session.py:172-174 | with a chunk length of eight or more each consecutive frame consumes at least one byte, so the data runs out after at most its length in frames |
| SessionSpec.CfNext | CANTP/session.py:173-174 | consecutive frame n+1 and the data it leaves are what `nextCF` cuts with sequence number (n+1) mod 16 from what frame n left |
| SessionSpec.SendStep | CANTP/session.py:173-175 | writing frame n+1 extends the record of transmissions by exactly that frame |
| SessionSpec.SendLoopOutOfWrites | CANTP/session.py:172-176 | with data left and no write left, the loop stops with failure after the frames written so far, buffer, wait count and last flow control untouched |
| SessionSpec.SendLoop | CANTP/session.py:170-194 | the loop of `send` frame by frame: a frame is written while data remains; after a frame that fills a block (block size not 0) with data still left, the next flow control is awaited, must be CTS, and its block size applies from then on; it stops on a failed write, a missing or non-CTS flow control, or a short one (IndexError) |
| SessionSpec.SendLoopOutcome | CANTP/session.py:170-194 | the loop succeeds exactly when the data ran out; it fails only when the writes ran out or the last flow control awaited was missing or not CTS; an IndexError only comes from a short flow control frame; without a wait the buffer is untouched |
| SessionSpec.SendLoopNoBlocks | CANTP/session.py:182 | with block size 0 no flow control is awaited and the buffer is untouched; failure then means the writes ran out |
| SessionSpec.SendLoopGrows | CANTP/session.py:170-194 | the frame count and the number of flow controls awaited never go down |
| SessionSpec.SendLoopCadence | CANTP/session.py:178-182 | a flow control is awaited only after the frames that fill the block have gone out, and always once they have with data still left and writes to spare |
| SessionSpec.WaitRestConsumes | CANTP/session.py:199-216 | waiting for flow control takes flow control frames from the front of their queue and no other frame |
| SessionSpec.SendLoopConsumes | CANTP/session.py:182-192 | the loop takes flow control frames from the front of their queue, in order, and every other frame stays buffered in order |
| SessionSpec.SendFrom | CANTP/session.py:156-194 | `send` after its first frame: done when no data remains, otherwise the first flow control is awaited (any status but a missing one or OVFLW goes on, a short frame is an IndexError) and the loop follows with its block size |
| SessionSpec.SendAfterFirstLoop | CANTP/session.py:162-194 | once flow control arrives, the rest of a send is the consecutive-frame loop `SendLoop` starting from the block size it carries |
| SessionSpec.SendResult | CANTP/session.py:150-194 | `send` as a whole: text that `Str2HexArr` refuses or reads as a negative value is a ValueError; otherwise the first frame of `convertFF` is sent and the rest follows |
| SessionSpec.SendTransmissions | CANTP/session.py:150-194 | what `send` writes: nothing for refused text or when no write succeeds, else the first frame followed by the given number of consecutive frames |
| SessionSpec.SendFromOutcome | CANTP/session.py:156-194 | a single frame needs no flow control; success exactly when the first flow control came and the data ran out, never with chunks of at most seven bytes; failure only when the writes ran out, the first flow control was missing, or a later one was missing or not CTS; IndexError only for a short flow control frame; at most one consecutive frame per remaining write |
| SessionSpec.SendResultOutcome | CANTP/session.py:150-194 | `send` gives ValueError exactly for text `Str2HexArr` refuses or reads as a negative value, and otherwise ends as the rest of it from the data its first frame left |
| SessionSpec.SendFromConsumes | CANTP/session.py:162-192 | `send` takes flow control frames from the front of their queue, in order, and leaves every other buffered frame in order |
| SessionSpec.SendFromNoBlocks | CANTP/session.py:167-182 | with block size 0 in the first flow control, no other flow control is read |
| SessionSpec.SendFromNoEarlyWait | CANTP/session.py:167-182 | with block size b > 0 in the first flow control, no further flow control is awaited before b consecutive frames have gone out |
| SessionSpec.SendFromBlockWait | CANTP/session.py:167-194 | with block size b > 0, once b consecutive frames have gone out with data still left and writes to spare, a further flow control is awaited |
| Session.Bus.Write | CANTP/session.py:45 | a write succeeds exactly while writes remain, and a successful write records the target id, payload and padding it was given |
| Session.CANTPSession.constructor | CANTP/session.py:51-75 | the identifiers are stored upper-cased, the receive buffer starts empty and the session is open |
| Session.CANTPSession.OnFrame | CANTP/session.py:81-87 | a received frame is appended to the buffer unless the session is closed |
| Session.CANTPSession.Close | CANTP/session.py:91-94 | the session is closed and its buffer and flow control settings are kept |
| Session.CANTPSession.SetRxFlowControl | CANTP/session.py:103-104 | the flow control settings are replaced and nothing else changes |
| Session.CANTPSession.PopMatching | CANTP/session.py:218-228 | the buffer and the returned frame are those of `PopFirst`: the first frame of the kind is removed, or nothing when none is buffered |
| Session.CANTPSession.SendFlowControl | CANTP/session.py:42-45 | the payload of `build_payload` with PCI 3 is written to the ECU id with the session's padding; the result is whether the write succeeded |
| Session.CANTPSession.WaitForFlowControl | CANTP/session.py:199-216 | the outcome and the buffer left are those of `WaitResult`/`WaitRest`, and frames other than flow control stay buffered in order |
| Session.CANTPSession.Receive | CANTP/session.py:106-148 | the result and the buffer left are those of `ReceiveResult`/`ReceiveRest`; exactly one flow control frame is written when a first frame starts reassembly and the write can succeed, and none otherwise |
| Session.CANTPSession.ReceiveFrame | CANTP/session.py:114-148 | for a popped transport frame: a single frame's data, nothing for another frame type, the errors of `expectedFrames`, or the reassembled message of `FrameResult` |
| Session.CANTPSession.CollectConsecutiveFrames | CANTP/session.py:136-148 | the message is the head followed by the data of the buffered consecutive frames, cut to the announced length, or nothing when that data is too short; exactly the consecutive frames reassembly needed are removed |
| Session.CANTPSession.Send | CANTP/session.py:150-194 | the outcome, the consecutive frame count and the buffer left are those of `SessionSpec.SendResult`; what is written is `SendTransmissions`, each write using one of the remaining writes |
| Session.CANTPSession.TransmitFrom | CANTP/session.py:156-194 | after the first frame is written, the outcome, frame count and buffer left are those of `SessionSpec.SendFrom`; nothing is written when no write remains, otherwise the first frame then the consecutive frames |
| Session.CANTPSession.TransmitRest | CANTP/session.py:162-194 | after the wait for flow control, the run is `SessionSpec.SendAfterFirst`; the consecutive frames written are `CfTransmissions` and each uses one write |
| Session.CANTPSession.TransmitNext | CANTP/session.py:173-176 | the write of one loop turn: the next sequence number and the remainder of `nextCF` cut from what frame n left; the write succeeds exactly when writes remain, and then a record that held `sent0` and frames 1..n (`SessionSpec.SentFrames`, which `sentBy` stands for) holds `sent0` and frames 1..n+1, so exactly frame n+1 was appended and one write used; on failure the record and the writes are unchanged |
| Session.CANTPSession.AwaitBlock | CANTP/session.py:182-192 | after a full block with data left: a short flow control frame is an IndexError, no frame or a status other than CTS stops with failure, CTS goes on with the new settings; the buffer left is that of `WaitRest` |
| Session.CANTPSession.EndOfFrame | CANTP/session.py:177-192 | what follows a frame: with a block size, a full block and data left, the next flow control is awaited, and the loop run from before the frame equals either the finished run (IndexError, or failure on no frame or a status other than CTS) or the loop run from the next frame with the new block size and a fresh block count; otherwise the block count grows by one and the buffer is untouched |
| Session.CANTPSession.SendTurn | CANTP/session.py:173-192 | one turn of the loop: the frame count grows by one exactly when the write succeeds, and always when the loop goes on; the record holds frames 1 to the new count, one write per frame; the loop run from before the turn equals either the finished run or the loop run from the next frame |
| Session.CANTPSession.SendConsecutiveFrames | CANTP/session.py:167-194 | the outcome, the frame count and the buffer left are those of `SessionSpec.SendLoop` from the first flow control's block size, so flow control is awaited exactly where `send` awaits it; the record written is `SessionSpec.SentFrames` of that count (through `sentBy`, which the precondition ties to it): consecutive frames 1..n cut in order from the data, each using one write |
| Session.CANTPSessionManager.constructor | CANTP/session.py:270-285 | the manager starts with no sessions and keeps the interface, chunk length, padding and default flow control |
| Session.CANTPSessionManager.GetSession | CANTP/session.py:287-302 | the session returned is the one registered under the upper-cased (ECU, tester) pair; an existing one is returned unchanged, otherwise exactly one new session is created with a copy of the default flow control, an empty buffer and the shared interface; every registered session stays under its own identifiers |
| Session.CANTPSessionManager.ConfigureRxFlowControl | CANTP/session.py:304-308 | the session for the upper-cased key, reused or newly registered exactly as `get_session` does, ends with the given receive flow control settings, and the registry stays consistent |
| Session.CANTPSessionManager.Shutdown | CANTP/session.py:310-314 | every registered session is closed with its buffer and settings kept, and then the registry is empty, so a later `get_session` creates new sessions |
| Session.CANTPSessionManager.CloneFlowControl | CANTP/session.py:316-322 | the copy has the default block size, STmin and flow status |
| SignalRaw.CoerceNumber | app.py:18-43 | `_coerce_number`: None and values without `strip` give None, ints pass through; text is stripped, read by `int(t, 16)`, `int(t, 2)` or `int(t, 8)` after its prefix, handed to `float()` when it holds '.' or 'e', else read by `int(t)` and handed to `float()` when that raises |
| SignalRaw.CoerceIgnoresSurroundingSpace | app.py:23-24 | `_coerce_number` strips text first, so surrounding whitespace never changes the result |
| SignalRaw.CoerceBlank | app.py:23-28 | empty or all-whitespace text gives None |
| SignalRaw.CoerceHexRoundTrip | app.py:30-31 | `0x` followed by the digits `hex()` writes reads back as the number |
| SignalRaw.DigitsValueBinary | app.py:32-33 | k binary digits are digits of base 2, and their value is below 2^k |
| SignalRaw.CoerceBinary | app.py:32-33 | `0b` text is read in base 2, and k binary digits give a value below 2^k |
| SignalRaw.CoerceTextDecimal | app.py:36-38 | on stripped text that `int()` accepts, `_coerce_number` returns that integer (no float marker can occur in it) |
| SignalRaw.CoerceDecimal | app.py:38 | plain decimal digits read as their decimal value |
| SignalRaw.CoerceNegativeDecimal | app.py:38 | a minus sign before decimal digits gives the negated value |
| SignalRaw.BitLength | app.py:143-155 | `_signal_bit_length`: a missing length is None, an int is kept, text is read by `int()`, and any other argument is refused (floats, bytes and objects with `__index__` are not modelled) |
| SignalRaw.BitLengthAgreesWithCoerce | app.py:143-155 | a text bit length that `_signal_bit_length` accepts is read the same way by `_coerce_number` |
| SignalRaw.Unsigned | app.py:160-170 | with a raw value and a positive bit length n the result lies in 0..2^n-1; otherwise the raw value passes through |
| SignalRaw.Signed | app.py:173-186 | `_signal_signed`: for a signed signal with a positive bit length n, values from 2^(n-1) up are moved down by 2^n; anything else passes through |
| SignalRaw.SignedOfUnsigned | app.py:160-186 | for every n-bit two's-complement number, `_signal_signed(_signal_unsigned(x))` gives x back |
| SignalRaw.UnsignedOfSigned | app.py:160-186 | for every n-bit pattern u, the signed reading lies in -2^(n-1)..2^(n-1)-1 and wraps back to u |
| SignalRaw.UnsignedPeriodic | app.py:169-170 | adding a multiple of 2^n to the raw value does not change its wrapped value |
| SignalRaw.FormatRawHex | app.py:189-201 | `_format_raw_hex`: None for no value, otherwise "0x" and the upper-case digits, zero-padded to one digit per started nibble of the bit length |
| SignalRaw.FormatRawHexReadsBack | app.py:189-201 | for an n-bit raw value the text is "0x" and exactly ceil(n/4) upper-case hex digits, which read back as the value |
| SignalRaw.FormatRawHexUnpadded | app.py:198-199 | without a bit length the digits are the unpadded hex digits of the value, which read back as the value |
| SignalRaw.SignalBounds | app.py:204-231 | `_signal_bounds`: from the bit length and signedness, the signed and unsigned raw ranges |
| SignalRaw.SignalBoundsRanges | app.py:204-231 | without a positive bit length all four bounds are None; with one, the signed and unsigned ranges each hold exactly 2^n values, the unsigned one starts at 0 and the signed one contains 0 |
| SignalRaw.ClampRaw | app.py:573-577 | the raw clamp of `_prepare_signal_updates`: below the minimum becomes the minimum, then above the maximum becomes the maximum; a missing bound does not clamp |
| SignalRaw.ClampRawWithin | app.py:573-577 | with both bounds the clamped value lies between them, a value already inside is kept, and clamping twice is clamping once |
| SignalRaw.ClampedRawRoundTrip | app.py:573-578 | a raw value clamped into a signal's signed range survives the wrap to its bit pattern and the unwrap back, signed or unsigned |
| PanelApi.SplitMarks | backend/panel_api.py:49-72 | one split mark per character of the body |
| PanelApi.Pieces | backend/panel_api.py:42-78 | a body always has at least one (possibly empty) piece |
| PanelApi.Command | backend/panel_api.py:67-69 | a piece contributes at most one command |
| PanelApi.KeepSnoc | backend/panel_api.py:67-69 | closing one more piece appends its stripped text exactly when that text is not empty |
| PanelApi.ProgressKeeps | backend/panel_api.py:49-74 | after any prefix of the body the commands collected are the kept closed pieces and `current` is the open piece |
| PanelApi.ProgressEnd | backend/panel_api.py:75-78 | the result is the commands collected plus the stripped tail when it is not empty |
| PanelApi.Advance | backend/panel_api.py:49-74 | reading one character takes one scanner step and either closes the open piece at a top-level `;` or appends the character to it |
| PanelApi.Step | backend/panel_api.py:50-66 | the scanner state of `_split_commands` after one more character: the open quote, whether a backslash escapes, and the brace depth |
| PanelApi.ScanChar | backend/panel_api.py:50-66 | one character: inside a string only an unescaped closing quote ends the string; outside, a quote opens one and braces move the depth, never below 0; the character ends a command exactly when it is a `;` outside strings at depth 0 |
| PanelApi.Flush | backend/panel_api.py:67-70 | the open piece is stripped and appended unless empty |
| PanelApi.Commands | backend/panel_api.py:42-78 | what `_split_commands(body)` returns: the stripped, non-empty pieces between top-level semicolons |
| PanelApi.SplitCommands | backend/panel_api.py:42-78 | the loop returns exactly the stripped, non-empty pieces between top-level semicolons, in order |
| PanelApi.KeepStripped | backend/panel_api.py:67-69 | every command is non-empty and already stripped, and there are no more commands than pieces |
| PanelApi.JoinSnoc | backend/panel_api.py:66-72 | joining one more piece adds a `;` and the piece |
| PanelApi.JoinGrow | backend/panel_api.py:73 | growing the open piece grows the joined text by that character |
| PanelApi.CutRejoin | backend/panel_api.py:49-74 | after any prefix, the closed pieces and the open one joined with `;` give the prefix back, with one closed piece per top-level `;` |
| PanelApi.PiecesRejoin | backend/panel_api.py:42-78 | only the top-level semicolons are dropped: the pieces joined with `;` are the body, and there is one piece more than top-level semicolons |
| PanelApi.CommandCount | backend/panel_api.py:42-78 | there are at most one more commands than top-level semicolons |
| PanelApi.NoMarkOnePiece | backend/panel_api.py:49-74 | before the first top-level `;` everything read is still the open piece |
| PanelApi.NoSplitCommands | backend/panel_api.py:75-78 | a body without a top-level `;` gives no command when blank and otherwise the body stripped |
| PanelApi.InsideString | backend/panel_api.py:50-55 | after an opening quote the scanner stays inside the string at the same depth while every later copy of that quote is escaped |
| PanelApi.QuotedSemicolons | backend/panel_api.py:50-61 | no semicolon inside a string splits, an escaped quote does not close the string, and the first unescaped matching quote closes it at the depth it was opened at |
| PanelApi.PlainRun | backend/panel_api.py:62-74 | outside strings, characters other than quotes and braces leave the scanner state unchanged |
| PanelApi.BracedSemicolons | backend/panel_api.py:62-66 | semicolons between a `{` and its `}` do not split, and the `}` brings the depth back to where it was |
| PanelApi.UnmatchedClose | backend/panel_api.py:64-65 | an unmatched `}` leaves the depth at 0 |
| DbcAdapter.InitialValue | E2E/DbcAdapter.py:29-35 | a signal's initial value: `trim(int(raw_initial) * scale + offset, minimum, maximum)`, with 0 for a missing raw initial value |
| DbcAdapter.SignalTables | E2E/DbcAdapter.py:29-38 | the signal loop of `__init__` fills the initial values and the trim table of one message |
| DbcAdapter.ScanAttributes | E2E/DbcAdapter.py:51-69 | the attribute loop of `__init__` gives the periodic, on-event, group, alive-counter and CRC entries of one message |
| DbcAdapter.InitialSignalsKeys | E2E/DbcAdapter.py:29-38 | the initial values and the trim table have the same signal names, exactly those of the message's signals |
| DbcAdapter.InitialWithinLimits | E2E/DbcAdapter.py:35-38 | every initial value already lies inside its limits: trimming it again changes nothing |
| DbcAdapter.GroupIffAliveSignal | E2E/DbcAdapter.py:51-61 | a message is grouped exactly when a signal name contains "AlvCnt", and then the alive counter is such a signal |
| DbcAdapter.AliveCounterHasValue | E2E/DbcAdapter.py:35-69 | the alive counter of a grouped message is a non-empty name with an initial value |
| DbcAdapter.ExtendAppend | E2E/DbcAdapter.py:41-50 | indexing two lists of entries one after the other is indexing their concatenation |
| DbcAdapter.AddMessage | E2E/DbcAdapter.py:41-50 | the sender (or receiver) loop lists the message under each of its nodes, creating a list for a new node and appending for a known one |
| DbcAdapter.IndexContents | E2E/DbcAdapter.py:41-50 | a node is indexed exactly when some entry names it, and a message is listed under it exactly when that entry exists |
| DbcAdapter.EntriesContents | E2E/DbcAdapter.py:24-50 | a node lists a message exactly when some message of that name has the node among its senders (or receivers) |
| DbcAdapter.Trimmed | E2E/DbcAdapter.py:77-86 | the values of `push_signals` after `trim`: a signal the trim table does not know is skipped |
| DbcAdapter.TrimmedWithinLimits | E2E/DbcAdapter.py:77-86 | exactly the pushed signals that the trim table knows are kept; each lies within both limits when they are present and ordered, and a value already inside is kept as pushed |
| DbcAdapter.TrimSignals | E2E/DbcAdapter.py:77-86 | the clamping loop of `push_signals` gives the trimmed values |
| DbcAdapter.PayloadSignals | E2E/DbcAdapter.py:97-111 | the values `get_payload` encodes: a pending update merged in, and the alive counter of a grouped message advanced by one modulo 256 when the message is not on-event or had an update |
| DbcAdapter.PayloadSignalsEffect | E2E/DbcAdapter.py:97-111 | no signal is lost, a pending update takes effect, other signals keep their values, and the alive counter of a grouped message advances by one modulo 256 exactly when the message is not on-event or had an update |
| DbcAdapter.AliveCounterWraps | E2E/DbcAdapter.py:107-109 | the alive counter goes from 255 to 0 |
| DbcAdapter.UpdateKeepsValid | E2E/DbcAdapter.py:70-136 | replacing one message by a consistent state keeps every message consistent |
| DbcAdapter.FreshValid | E2E/DbcAdapter.py:24-70 | a freshly loaded message has at most one pending update, its current values are its initial values, nothing is pending, and resetting it changes nothing |
| DbcAdapter.RestoredValid | E2E/DbcAdapter.py:125-134 | a reset keeps the message consistent, touches only its current values and queue, and resetting twice is resetting once |
| DbcAdapter.MessagesKnown | E2E/DbcAdapter.py:24-28 | after `__init__` every message is known by name and by frame id, and the frame-id cache only names known messages |
| DbcAdapter.MessagesLastWins | E2E/DbcAdapter.py:24-70 | each known name holds the fresh state of the last message of that name |
| DbcAdapter.MessagesValid | E2E/DbcAdapter.py:24-70 | every message is consistent after `__init__` |
| DbcAdapter.Load | E2E/DbcAdapter.py:24-70 | the loop of `__init__` fills the message table, the frame-id cache and the node and receiver indexes |
| DbcAdapter.RestoreAll | E2E/DbcAdapter.py:132-134 | resetting every message keeps the same names and gives each its restored state |
| DbcAdapter.Adapter.constructor | E2E/DbcAdapter.py:11-70 | the adapter holds the tables `__init__` builds from the database, and every message is consistent |
| DbcAdapter.Adapter.Resolve | E2E/DbcAdapter.py:91-95 | a name resolves exactly when the database knows it, a frame id exactly when the cache names a known message |
| DbcAdapter.Adapter.PushSignals | E2E/DbcAdapter.py:72-88 | an unknown message is a `KeyError` that changes nothing; otherwise the trimmed values update the current ones and replace the pending update |
| DbcAdapter.Adapter.GetPayload | E2E/DbcAdapter.py:90-111 | an unknown message is an error that changes nothing; otherwise the pending update is consumed and the values the payload is encoded from, alive counter advanced, become the current values |
| DbcAdapter.Adapter.ResetMessage | E2E/DbcAdapter.py:125-136 | a named message gets its initial values back and an empty queue; an unknown name changes nothing; no name resets every message |
| DbcAdapter.Adapter.IsOnEvent | E2E/DbcAdapter.py:169-175 | the on-event attribute of a known message, and nothing for an unknown one |
| DbcAdapter.OnEventFromComment | E2E/DbcAdapter.py:62-65 | a message is on-event exactly when it has a comment that contains "Event" |
| CanInterface.Put | CANIF/CANInterface.py:85-105 | a trace queue after one bounded put: appended while there is room, otherwise the oldest entry makes way |
| CanInterface.PutAll | CANIF/CANInterface.py:85-105 | a trace queue after bounded puts of several items, in order |
| CanInterface.PutNewest | CANIF/CANInterface.py:85-105 | one bounded put never overflows the queue, lands as the newest entry and keeps the rest of the old queue in order; a full queue loses exactly its oldest entry |
| CanInterface.PutAllKeepsNewest | CANIF/CANInterface.py:85-105 | however many items are put, the queue holds exactly the newest 500 of everything put into it, in arrival order |
| CanInterface.StopPeriodicId | CANIF/CANInterface.py:349-373 | without a scheduler nothing is stopped; an int is stopped as given; an argument that is neither int nor text fails the DBC lookup; a failed lookup only happens for such an argument or for a name the DBC does not know |
| CanInterface.StopPeriodicHex | CANIF/CANInterface.py:357-359 | the text `hex()` gives for a number stops that number, whatever the DBC holds |
| CanInterface.StopPeriodicDecimal | CANIF/CANInterface.py:360-362 | decimal digits stop their value |
| CanInterface.StopPeriodicByName | CANIF/CANInterface.py:361-365 | text that cannot start a number is looked up in the DBC by the name as given |
| CanInterface.Interface.constructor | CANIF/CANInterface.py:53-75 | both queues are empty, both counters zero, logging off, the UI trace on and no transmit hook |
| CanInterface.Interface.SetTxHook | CANIF/CANInterface.py:77-79 | the hook is replaced |
| CanInterface.Interface.BoundedPut | CANIF/CANInterface.py:85-105 | the put always succeeds and leaves the target queue as `Put` gives it and the other queue alone; a counted put adds one to the enqueued count and, when the queue was full, one to the dropped count; an uncounted put leaves the counters alone |
| CanInterface.Interface.TracePut | CANIF/CANInterface.py:107-108 | a counted put into the file trace, which keeps the count of enqueued minus dropped entries equal to the trace length |
| CanInterface.Interface.UiTracePut | CANIF/CANInterface.py:110-111 | an uncounted put into the UI trace that leaves the file trace and the counters alone |
| CanInterface.Interface.Record | CANIF/CANInterface.py:121-131 | a logged frame always goes to the file trace and to the UI trace exactly when the UI trace is enabled |
| CanInterface.Interface.NotifyTx | CANIF/CANInterface.py:113-124 | without logging nothing changes; while logging the frame is traced as "tx" |
| CanInterface.Interface.OnTraceRx | CANIF/CANInterface.py:126-131 | without logging nothing changes; while logging the frame is traced as "rx" |
| CanInterface.Interface.Drain | CANIF/CANInterface.py:138-144 | both queues end empty |
| CanInterface.Interface.StopLog | CANIF/CANInterface.py:602-617 | logging is off and both queues are empty |
| CanInterface.Interface.StartLog | CANIF/CANInterface.py:574-596 | without a reader thread nothing changes and nothing starts; otherwise logging is on with the requested UI setting, both queues are empty and both counters zero |
| CanInterface.TraceAfterStart | CANIF/CANInterface.py:584-590 | after `start_log`, a run of frames leaves the newest 500 in the file trace, and the frames no longer there are exactly the ones beyond 500 |
| Helper32.SeedBytes | PROXY_Generated/Helper32.cpp:15-17 | seed byte i is the value of the hex digit pair at positions 2i and 2i+1 |
| Helper32.Helper | PROXY_Generated/Helper32.cpp:6-49 | a wrong argument count exits with -1 and an error message; a library that does not load exits with -1 and is never freed; a library without `ASK_KeyGenerate` exits with -2 and is freed once; otherwise the key the entry point computes from the decoded seed and a zeroed buffer is printed as one line and the library is freed once; nothing is printed on standard output on any failure |
| Helper32.KeyLine | PROXY_Generated/Helper32.cpp:41-44 | the line printed on success: the eight key bytes as `%02X` and a newline |
| Helper32.KeyLineShape | PROXY_Generated/Helper32.cpp:41-44 | the printed line is sixteen upper-case hex digits and a newline, key byte i at positions 2i and 2i+1 |
| Helper32.KeyLineReadsBack | PROXY_Generated/Helper32.cpp:16-17 | reading the printed key the way the seed is read gives the key back, so `%02X` and `%02hhX` agree on byte order |
| Helper32.SeedOfPairs | PROXY_Generated/Helper32.cpp:16-17 | a seed written as upper-case digit pairs, followed by anything, decodes to the same eight bytes |
| LineFilters.FirstSpace | COMMON/Find_lines_with_Substrings.py:9 | the index found holds a space and no earlier character does |
| LineFilters.SplitSpaces | COMMON/Find_lines_with_Substrings.py:9 | `split(" ")` always gives at least one piece |
| LineFilters.SplitSpacesJoin | COMMON/Find_lines_with_Substrings.py:9 | the pieces hold no space and joined with single spaces give the text back |
| LineFilters.JoinSplitSpaces | COMMON/Find_lines_with_Substrings.py:9 | pieces without spaces, joined with single spaces and split again, come back unchanged |
| LineFilters.FieldsRejoin | COMMON/Find_lines_with_Substrings.py:9 | a kept line's fields joined with single spaces are the stripped line |
| LineFilters.BeginsWithIsPrefix | COMMON/Find_lines_with_Substrings.py:23 | `line[:len(sub)] == sub` holds exactly when `sub` is a prefix of the line, and such a line also contains `sub` |
| LineFilters.FindLinesWithSubstrings | COMMON/Find_lines_with_Substrings.py:4-10 | the result is the fields of the lines that contain every substring, in file order |
| LineFilters.FindLinesBeginWithSubstring | COMMON/Find_lines_with_Substrings.py:19-25 | the result is the fields of the lines that begin with the substring, in file order |
| LineFilters.Kept | COMMON/Find_lines_with_Substrings.py:7-9 | the fields of the lines that pass the test, in file order |
| LineFilters.KeptAppend | COMMON/Find_lines_with_Substrings.py:7-9 | filtering a file is filtering its parts and concatenating: kept lines keep their order |
| LineFilters.KeptContents | COMMON/Find_lines_with_Substrings.py:7-9 | a row is in the result exactly when it is the fields of some line that passes the test |
| LineFilters.KeptWithoutSubstrings | COMMON/Find_lines_with_Substrings.py:8 | with no substrings to look for, every line is kept |
| LineFilters.LastMatch | COMMON/Find_lines_with_Substrings.py:12-17 | one past the index of the last line holding every substring, 0 when none does |
| LineFilters.FindIdxWithSubstrings | COMMON/Find_lines_with_Substrings.py:12-17 | the loop returns one past the index of the last line holding every substring, or 0 |
| LineFilters.LastMatchMeaning | COMMON/Find_lines_with_Substrings.py:12-17 | the result is at most the number of lines; when positive the line before it matches and no later line does; it is 0 exactly when no line matches |
| DbcRead.Deduped | unused/External_DBCRead.py:7-15 | the rows whose first element no earlier row has, in order |
| DbcRead.RemoveDuplicates | unused/External_DBCRead.py:7-15 | an empty row is an `IndexError`; otherwise the result keeps the rows whose first element no earlier row has, in order |
| DbcRead.FirstsMeaning | unused/External_DBCRead.py:11-13 | the set of first elements holds exactly the first elements of the rows |
| DbcRead.DedupedFirsts | unused/External_DBCRead.py:7-15 | no first element is lost |
| DbcRead.DedupedUnique | unused/External_DBCRead.py:7-15 | no two kept rows share a first element |
| DbcRead.DedupedKeepsFirstOccurrences | unused/External_DBCRead.py:7-15 | the kept rows are the rows at strictly increasing positions, each the first occurrence of its first element |
| DbcRead.DedupedDistinct | unused/External_DBCRead.py:7-15 | rows whose first elements are already distinct are all kept as they are |
| DbcRead.DedupedIdempotent | unused/External_DBCRead.py:7-15 | removing duplicates twice is removing them once |
| DbcRead.NodeRows | unused/External_DBCRead.py:36-45 | every extracted row has a first element |
| DbcRead.SenderRows | unused/External_DBCRead.py:43-45 | the inner loop adds one copy of the row per node equal to the sender |
| DbcRead.ExtractLine | unused/External_DBCRead.py:37-45 | one `BO_` line gives its row once when the first node is empty, and once per matching node otherwise |
| DbcRead.ExtractStep | unused/External_DBCRead.py:36-45 | one more readable line extends the rows by that line's rows |
| DbcRead.ExtractFails | unused/External_DBCRead.py:38-40 | a line with fewer than three fields, or no node to test, raises `IndexError` |
| DbcRead.ExtractRows | unused/External_DBCRead.py:35-45 | the loop fails exactly when a line is too short or there is no first node, and otherwise gives the rows of every line in order |
| DbcRead.GetMessagesNodes | unused/External_DBCRead.py:32-47 | the result is the deduplicated rows of the `BO_` lines of the file, or an error when the loop raises |
| DbcRead.NodeRowsShape | unused/External_DBCRead.py:36-45 | every extracted row is the (message, sender) pair of some line, and its sender is one of the nodes unless the first node is empty |
| DbcRead.CountPositive | unused/External_DBCRead.py:43-44 | a sender is matched at least once exactly when it is among the nodes |
| DbcRead.NodeRowsHas | unused/External_DBCRead.py:36-45 | every line whose sender passes the node test contributes its (message, sender) pair |
| DbcRead.NodeRowsNames | unused/External_DBCRead.py:36-45 | the message names among the extracted rows are exactly those of lines whose sender passes the node test |
| DbcRead.MessagesNodesNames | unused/External_DBCRead.py:32-47 | the result names each message of a `BO_` line whose sender passes the node test, exactly once |
| Base.Upper | CANTP/session.py:63-64 | `upper()` on the ASCII text the model handles: the length is kept, a-z become A-Z and every other character stays |
| Base.RemoveSpaces | COMMON/Cast.py:77 | `replace(' ', '')` leaves no space and never lengthens the text |
| Base.RemoveSpacesAppend | COMMON/Cast.py:77 | removing spaces from two texts joined is joining the two texts with spaces removed |
| Base.StripIsTrimmedSlice | backend/panel_api.py:67 | `strip()` gives a contiguous slice of the text that neither starts nor ends with whitespace, whitespace being every character `str.isspace()` accepts (`Base.IsSpace`, the Unicode spaces included) |
| Base.StripIdempotent | backend/panel_api.py:67 | stripping twice is stripping once |
| Base.PyInt | COMMON/Cast.py:86 | `int(text, base)`: the whitespace `int()` skips (`Base.IsIntSpace`: TAB to CR, the space and the non-ASCII `str.isspace()` characters, but not FS to US) stripped, an optional sign, the base's own prefix (0x, 0o or 0b) with an optional `_` after it, then digits of the base with single underscores between them; None where `int()` raises |
| Base.PyIntOfDigits | app.py:38 | a non-empty run of digits of the base reads as its value |
| Base.PyIntNegative | app.py:38 | a minus sign before digits negates their value |
| Base.PyIntPositive | app.py:38 | a plus sign before digits leaves their value unchanged |
| Base.PyIntLeadingSpace | CANIF/CANInterface.py:357-362 | a character of `int()`'s whitespace in front of the text does not change what `int()` reads; any other character that is no digit or sign (U+001C to U+001F included) makes it an error |
| Base.PyIntRefusesSeparators | COMMON/Cast.py:86 | `int()` refuses "\x1c5" in base 10 and 16, while the same text after `str.strip()` reads as 5 |
| Base.PyIntPrefixed | app.py:30-35 | the base's prefix followed by digits of the base reads as the digits' value |
| Base.PyIntStrip | CANIF/CANInterface.py:357-362 | text `int()` accepts reads the same after a `str.strip()` first: its ends are a sign or digits, and the whitespace `int()` skips around them is whitespace to `strip()` as well |
| Base.DigitsValueUnderscore | COMMON/Cast.py:124 | an underscore between digits does not change the value, so "a_a" reads as 0xAA |

## Left out

- Threads, locks, condition-variable waits, monotonic deadlines and sleeps. A pop that finds no matching frame stands for a timeout, and `_remaining_ms` is not modelled.
- The CAN bus itself. `Session.Bus` records what `write` is handed and counts the writes that will still succeed. A failing write is the only way the model ends the transmission loops, as in the source when the chunk length is at most seven.
- Session.CANTPSession.Send: the STmin pause between consecutive frames (`time.sleep`) is left out. STmin is read with `_interpret_st_min` but does not affect what is sent.
- Session.CANTPSession.Send: text that `Str2HexArr` reads with a negative value (a piece such as "-1") is a ValueError before anything is written. In the source, `convertFF` and `nextCF` carry the value along, the frames before the one holding it are written, and `write` raises ValueError on that frame's text ("X1"). Those earlier writes are not modelled.
- Base.Upper: text is upper-cased as ASCII. Python's `upper()` also maps non-ASCII letters and can change the length ('ß' becomes 'SS'), which the model does not capture. `Base.UpperChar` has the same limit.
- Session.CANTPSession.Close: the unsubscription from the interface and its logged exception are left out.
- `subscribe_id_queue`, and the conversion of a received `can.Message` into hex tokens. `OnFrame` receives the bytes directly; `Cast.HexArrToStrArr` covers the token form.
- SignalRaw.CoerceNumber: the float branch is returned as `PassedToFloat`, without modelling what `float()` yields. Floats are left out everywhere, including the physical-value helpers of `app.py`.
- Crc.IdValue: `int(msg_id)` also accepts a float (truncated), bytes holding digits, and any object with `__int__` or `__index__`. The model has no such argument values: they are all `OtherId` and refused.
- SignalRaw.BitLength: `int(length)` likewise accepts floats, bytes and objects with `__int__` or `__index__`. They are all `OtherValue` and refused.
- Base.PyInt: `int()` also accepts non-ASCII decimal digits (such as Arabic-Indic or full-width digits) in every base. The model refuses them, so text made of such digits reads as an error wherever `int()` is modelled.
- `_signal_unsigned`, `_signal_signed` and `_format_raw_hex` are modelled on integers only. Their float, infinity and conversion-error paths are left out.
- DbcAdapter.Adapter.GetPayload: returns the signal values the payload is encoded from. The cantools encoding and the CRC signal, which needs `crc_calculate_cy`, are left out.
- `crc_calculate_cy` (E2E/crc.py:85-91) builds the same payload as `crc_calculate` and hands it to `crc16_canfd_cy`, a Cython extension built from `E2E/CRC/crc_cy.pyx` (setup.py:4-8). The payload is `Crc.BuildCrcPayload`; the extension's CRC routine is not part of this model.
- DbcAdapter: signal scale and offset are integers, so initial values are integers. `alv_len` is computed by the source but never used, so it is not modelled.
- DbcAdapter.Adapter.PushSignals: pushed values are integers. A value that `trim` cannot compare, which the source logs and skips, is not modelled.
- `decode_message`, `Message_attributes` and the other accessors of `DBCAdapter` are not modelled. They only forward to cantools.
- CanInterface.Interface.BoundedPut: always succeeds. The `False` return needs another thread to fill the queue between the two puts.
- CanInterface.Interface.StartLog: the log path, the directory creation, the file writer thread and the exception path that calls `stop_log` are left out.
- CanInterface: the file writer that consumes `trace_queue`, the transmit hook and the trace emit callback are left out.
- CanInterface.StopPeriodicId: gives the frame id to stop. The call to the scheduler, and the `False` it returns when `stop_message` raises, are left out.
- Helper32.Helper: requires the seed argument to begin with sixteen hex digits. What `sscanf` leaves in the seed otherwise is not modelled.
- Helper32.Helper: the error text, `GetLastError`, and the real `LoadLibraryA`, `GetProcAddress` and `FreeLibrary` calls are left out. Loading is an input function, and the vendor key function is an opaque map from eight bytes to eight bytes.
- LineFilters: opening and reading the file is left out. A file is its sequence of lines, each with its line ending. `find_idx_with_substrings` is modelled over a list of text lines.
- `Get_signals_TimeoutTime`, `Get_signals_sign` and the other helpers of `unused/External_DBCRead.py` are not modelled.
- PanelApi.PiecesRejoin: the claim that the commands, joined, form a subsequence of the body is not one lemma. It follows from this lemma together with `PanelApi.KeepStripped` and `Base.StripIsTrimmedSlice`.
