# Sample subsystem serial protocol: framing and checksum layer

This project models the ASCII framing layer of the sample subsystem's serial
command protocol. A request frame is `XT+<W|R><id><params> <CRC>\r`. A
response frame is `OK+<data> <CRC>\r` or `ER+<data> <CRC>\r`. `<CRC>` is the
CRC-32 of everything before the space, written as eight upper-case hex
characters.

The repository holds two diverging copies of this layer. Each copy is its
own module:

- `SubsystemApi` (`subsystem_api.dfy`) models
  `cdhs_samples/apis/sample_subsystem_api/sample_subsystem_api.py`:
  - `int2hex`;
  - `ResponseStatus`, `CommandError` and `MessageResponse.extract`;
  - `generate_crc` and `generate_command`;
  - the regular expression `RESPONSE_RE` and `parse_response`.

  Its three failures are one `ParseError` constructor each:
  - the `assert` on the match becomes `MalformedResponse`;
  - `InvalidCRCException` becomes `InvalidCrc`;
  - the `ValueError` from `int(body, 16)` or `CommandError(code)` becomes
    `InvalidErrorCode`.
- `SubsystemApi2` (`subsystem_api_2.dfy`) models
  `cdhs_samples/apis/sample_subsystem_api_2/sample_subsystem_api.py`:
  - `convert_int_to_hex`;
  - `generate_crc` and `generate_command`;
  - the split-based `parse_response`, which answers `(None, None)` on a
    checksum mismatch.

  The tuple-unpacking `ValueError` becomes `NotEnoughValues`.

The shared building blocks live in their own modules:

- `ByteCodec` (`byte_codec.dfy`) states the Python built-ins over byte
  sequences:
  - `int.to_bytes(n, "big")`;
  - `binascii.hexlify` and `bytes.upper` (Base16, section 8 of RFC 4648);
  - `math.ceil(n / 2)`;
  - `str(int).zfill`;
  - `int(s, 16)`;
  - the one-split forms of `split` and `rsplit`.
- `Crc32` (`crc32.dfy`) is a bit-at-a-time reference definition of
  `binascii.crc32`. This is the CRC-32 of IEEE 802.3 (clause 3.2.9):
  - reflected polynomial 0xEDB88320;
  - register preset to all ones;
  - result complemented.
- `Results` (`wrappers.dfy`) holds `Option` and `Result`.
- `Variants` (`variants.dfy`) relates the two copies. They compute the same
  checksums and request frames. Their hex renderers differ by one digit for
  odd widths.

A Python exception becomes a `Failure` value. A Python `None` becomes an
`Option` or the `NoneNone` reply.

## Model

| member | source | states |
|---|---|---|
| `ByteCodec.CeilHalf` | cdhs_samples/apis/sample_subsystem_api/sample_subsystem_api.py:31 | `ceil(n/2)` is the least r with n <= 2r; 2r == n exactly for even n |
| `ByteCodec.ToBytesBE` | cdhs_samples/apis/sample_subsystem_api/sample_subsystem_api.py:32 | the big-endian bytes have the requested length and read back as the value |
| `ByteCodec.IntToBytes` | cdhs_samples/apis/sample_subsystem_api/sample_subsystem_api.py:32 | `to_bytes` succeeds iff the length is non-negative and 0 <= value < 256^length; a negative length is the ValueError, everything else the OverflowError; success reads back as the value |
| `ByteCodec.Hexlify` | cdhs_samples/apis/sample_subsystem_api/sample_subsystem_api.py:33 | hexlify writes two lower-case hex digits per byte |
| `ByteCodec.HexlifyValue` | cdhs_samples/apis/sample_subsystem_api/sample_subsystem_api.py:33 | the hexlified text, read as base 16, is the big-endian value of the bytes |
| `ByteCodec.ToUpper` | cdhs_samples/apis/sample_subsystem_api/sample_subsystem_api.py:33 | `upper()` keeps the length, leaves no byte in a..z, turns each a..z into its capital and keeps every other byte |
| `ByteCodec.ToUpperKeepsHexValue` | cdhs_samples/apis/sample_subsystem_api/sample_subsystem_api.py:33 | upper-casing hex text makes every digit upper-case and keeps its value |
| `ByteCodec.UpperHexOfValue` | cdhs_samples/apis/sample_subsystem_api/sample_subsystem_api.py:105-107 | `hexlify(v.to_bytes(k)).upper()` is 2k upper-case digits that read back as v |
| `ByteCodec.SliceFrom` | cdhs_samples/apis/sample_subsystem_api/sample_subsystem_api.py:35 | `s[i:]` is what follows the first i bytes: `s[:i] + s[i:] == s` and it has `len(s) - i` bytes; it is empty once i passes the end |
| `ByteCodec.DropLeadingDigit` | cdhs_samples/apis/sample_subsystem_api/sample_subsystem_api.py:34-35 | dropping the first hex digit leaves the value modulo 16^(len-1) |
| `ByteCodec.LeadingZeroDrop` | cdhs_samples/apis/sample_subsystem_api_2/sample_subsystem_api.py:37-38 | dropping a leading '0' keeps the hex value |
| `ByteCodec.SmallValueLeadingZero` | cdhs_samples/apis/sample_subsystem_api_2/sample_subsystem_api.py:37 | upper-case digits whose value fits in one digit fewer start with '0' |
| `ByteCodec.NatDigits` | cdhs_samples/apis/sample_subsystem_api/sample_subsystem_api.py:113 | `str(n)` of a natural number is one or more decimal digits |
| `ByteCodec.NatDigitsValue` | cdhs_samples/apis/sample_subsystem_api/sample_subsystem_api.py:113 | `str(n)` reads back as n; it has one digit iff n < 10 and two iff 10 <= n < 100 |
| `ByteCodec.Str` | cdhs_samples/apis/sample_subsystem_api/sample_subsystem_api.py:113 | `str(n)` of n >= 0 is decimal digits reading back as n; of n < 0 it is '-' and then digits reading back as -n |
| `ByteCodec.ZFill` | cdhs_samples/apis/sample_subsystem_api/sample_subsystem_api.py:113 | `zfill(w)` returns long strings unchanged and otherwise left-pads with '0' to w characters, after a leading sign |
| `ByteCodec.ParseHexInt` | cdhs_samples/apis/sample_subsystem_api/sample_subsystem_api.py:72 | `int(s, 16)` yields a value iff s is a non-empty run of hex digits, and that value is the base-16 reading of s, below 16^len(s) |
| `ByteCodec.HexValue` | cdhs_samples/apis/sample_subsystem_api/sample_subsystem_api.py:72 | the value `int(s, 16)` gives a run of hex digits of either case, most significant first; its laws are `ByteCodec.HexValueBound` and `ByteCodec.HexValueLeading` |
| `ByteCodec.HexValueBound` | cdhs_samples/apis/sample_subsystem_api/sample_subsystem_api.py:72 | n hex digits read back as a value below 16^n |
| `ByteCodec.HexValueLeading` | cdhs_samples/apis/sample_subsystem_api/sample_subsystem_api.py:72 | the first of the digits weighs 16^(n-1): the value is its digit times 16^(n-1) plus the value of the rest |
| `ByteCodec.FirstIndex` | cdhs_samples/apis/sample_subsystem_api_2/sample_subsystem_api.py:91 | the index found holds the separator and nothing before it does; None iff absent |
| `ByteCodec.LastIndex` | cdhs_samples/apis/sample_subsystem_api_2/sample_subsystem_api.py:90 | the index found holds the separator and nothing after it does; None iff absent |
| `ByteCodec.Split1` | cdhs_samples/apis/sample_subsystem_api_2/sample_subsystem_api.py:91 | `split(sep, 1)` gives two parts iff sep occurs; the parts rejoined with sep are the input and the first part holds no sep |
| `ByteCodec.RSplit1` | cdhs_samples/apis/sample_subsystem_api_2/sample_subsystem_api.py:90 | `rsplit(sep, 1)` gives two parts iff sep occurs; the parts rejoined with sep are the input and the last part holds no sep |
| `ByteCodec.Split1Join` | cdhs_samples/apis/sample_subsystem_api_2/sample_subsystem_api.py:91 | splitting `a + sep + b` with no sep in a gives back a and b |
| `ByteCodec.RSplit1Join` | cdhs_samples/apis/sample_subsystem_api_2/sample_subsystem_api.py:90 | rsplitting `a + sep + b` with no sep in b gives back a and b |
| `ByteCodec.FrameTail` | cdhs_samples/apis/sample_subsystem_api/sample_subsystem_api.py:117 | in `w + b" " + crc + b"\r"` the ten last bytes are the space, the eight CRC bytes and \r, and everything before them is w |
| `Crc32.Update` | cdhs_samples/apis/sample_subsystem_api/sample_subsystem_api.py:104 | the CRC-32 register fed a byte string one byte at a time with the reflected polynomial 0xEDB88320; `Crc32.UpdateAppend` states that it can be fed in pieces and `Crc32.CheckValue` pins it to the published IEEE value |
| `Crc32.Crc32` | cdhs_samples/apis/sample_subsystem_api/sample_subsystem_api.py:104 | `crc32` returns an unsigned 32-bit value |
| `Crc32.CheckValue` | cdhs_samples/apis/sample_subsystem_api/sample_subsystem_api.py:104 | `crc32(b"a") == 0xE8B7BE43`, the published value of the IEEE CRC-32 |
| `Crc32.UpdateAppend` | cdhs_samples/apis/sample_subsystem_api/sample_subsystem_api.py:104 | the CRC register can be fed a byte string in pieces with the same result |
| `SubsystemApi.Int2Hex` | cdhs_samples/apis/sample_subsystem_api/sample_subsystem_api.py:30-36 | int2hex succeeds iff 0 <= value < 256^ceil(n/2) (and the byte count is non-negative) |
| `SubsystemApi.Int2HexInRange` | cdhs_samples/apis/sample_subsystem_api/sample_subsystem_api.py:31-35 | in range, the result is the last n characters of the upper-case hex of the big-endian bytes, which has n or n + 1 characters |
| `SubsystemApi.Int2HexShape` | cdhs_samples/apis/sample_subsystem_api/sample_subsystem_api.py:30-36 | in range, int2hex returns exactly n characters, all in [0-9A-F] |
| `SubsystemApi.Int2HexOverflow` | cdhs_samples/apis/sample_subsystem_api/sample_subsystem_api.py:31-32 | int2hex raises OverflowError iff the value is negative or >= 256^ceil(n/2) |
| `SubsystemApi.Int2HexDecodes` | cdhs_samples/apis/sample_subsystem_api/sample_subsystem_api.py:31-35 | the output read as hex is value mod 16^n, and exactly value when value < 16^n |
| `SubsystemApi.TrimmedDigits` | cdhs_samples/apis/sample_subsystem_api/sample_subsystem_api.py:34-35 | cutting 2*ceil(n/2) digits of v to their last n keeps v mod 16^n |
| `SubsystemApi.CommandErrorOf` | cdhs_samples/apis/sample_subsystem_api/sample_subsystem_api.py:50-57 | `CommandError(code)` exists iff 0 <= code <= 6, and that member's value is code |
| `SubsystemApi.CommandErrorOfCode` | cdhs_samples/apis/sample_subsystem_api/sample_subsystem_api.py:50-57 | looking up a member's value gives that member back |
| `SubsystemApi.MessageResponse.Extract` | cdhs_samples/apis/sample_subsystem_api/sample_subsystem_api.py:70-73 | OK returns the body unchanged; ER succeeds iff the body is hex for a code in 0..6 and returns the fault with that code; every failure is the ValueError |
| `SubsystemApi.GenerateCrc` | cdhs_samples/apis/sample_subsystem_api/sample_subsystem_api.py:101-108 | generate_crc returns 8 upper-case hex characters that read back as crc32 of the input |
| `SubsystemApi.GenerateCommand` | cdhs_samples/apis/sample_subsystem_api/sample_subsystem_api.py:110-118 | generate_command: XT+, W or R, `str(id).zfill(2)`, params, a space, the CRC of everything before it and \r; its properties are stated by `SubsystemApi.GenerateCommandSmallId`, `SubsystemApi.GenerateCommandLargeId` and `SubsystemApi.GenerateCommandChecksum` |
| `SubsystemApi.TwoDigitsValue` | cdhs_samples/apis/sample_subsystem_api/sample_subsystem_api.py:113 | the two id digits of an id in 0..99 are decimal and read back as the id |
| `SubsystemApi.IdFieldSmall` | cdhs_samples/apis/sample_subsystem_api/sample_subsystem_api.py:113 | `str(id).zfill(2)` of an id in 0..99 is its two zero-padded digits |
| `SubsystemApi.GenerateCommandSmallId` | cdhs_samples/apis/sample_subsystem_api/sample_subsystem_api.py:110-118 | for ids 0..99 the frame is XT+, W or R, two digits, params, space, CRC of that prefix, \r; its length is len(params) + 16 and bytes 4..5 read back as the id |
| `SubsystemApi.GenerateCommandLargeId` | cdhs_samples/apis/sample_subsystem_api/sample_subsystem_api.py:113-114 | ids of 100 or more appear in full (three or more digits reading back as the id), not truncated |
| `SubsystemApi.GenerateCommandChecksum` | cdhs_samples/apis/sample_subsystem_api/sample_subsystem_api.py:115-117 | every frame ends in a space, the CRC of all bytes before that space (as hex, crc32 of them) and \r |
| `SubsystemApi.GenerateCommandExample` | cdhs_samples/apis/sample_subsystem_api/sample_subsystem_api.py:138-140 | `generate_command(0, True)` is `XT+W00 ` + generate_crc(`XT+W00`) + \r |
| `SubsystemApi.StatusPrefix` | cdhs_samples/apis/sample_subsystem_api/sample_subsystem_api.py:21 | the `^(OK|ER)\+` half of RESPONSE_RE; `SubsystemApi.RegexMatch` states what the whole pattern finds |
| `SubsystemApi.SplitAt` | cdhs_samples/apis/sample_subsystem_api/sample_subsystem_api.py:21 | the `(.*) ([0-9A-F]{8})\r` half of RESPONSE_RE with group 3 ending at k: no \n before k, then a space, eight upper-case hex digits and \r; `SubsystemApi.RegexMatch` states what the whole pattern finds |
| `SubsystemApi.LastSplit` | cdhs_samples/apis/sample_subsystem_api/sample_subsystem_api.py:21 | the greedy `.*` rests at the largest split point not above k, and there is none when it finds none |
| `SubsystemApi.RegexMatch` | cdhs_samples/apis/sample_subsystem_api/sample_subsystem_api.py:21 | `RESPONSE_RE.match` finds the largest k where the pattern matches with group 3 ending at k, and None iff there is no such k |
| `SubsystemApi.RegexMatchIsLargest` | cdhs_samples/apis/sample_subsystem_api/sample_subsystem_api.py:21 | a match point beyond which nothing matches is the one found |
| `SubsystemApi.ParseResponse` | cdhs_samples/apis/sample_subsystem_api/sample_subsystem_api.py:120-136 | parse_response: match RESPONSE_RE, raise InvalidCRCException on a CRC mismatch, then extract; its properties are stated by `SubsystemApi.ParseMalformedIff`, `SubsystemApi.CrcMismatchRejected`, `SubsystemApi.SuccessMeansCrcChecked`, `SubsystemApi.ValidFrameExtracts` and the round trips below |
| `SubsystemApi.ParseMalformedIff` | cdhs_samples/apis/sample_subsystem_api/sample_subsystem_api.py:121-123 | the malformed-response assertion fails exactly when the pattern matches nowhere |
| `SubsystemApi.MalformedCases` | cdhs_samples/apis/sample_subsystem_api/sample_subsystem_api.py:122-123 | a response with no \r, or not opening with OK+ or ER+, is malformed |
| `SubsystemApi.LowercaseCrcMalformed` | cdhs_samples/apis/sample_subsystem_api/sample_subsystem_api.py:21 | `STATUS+BODY` (no \r in it), a space, eight hex digits with at least one lower-case and \r is malformed: the pattern accepts only upper-case CRC digits |
| `SubsystemApi.CrcMismatchRejected` | cdhs_samples/apis/sample_subsystem_api/sample_subsystem_api.py:131-133 | a matching response whose transmitted CRC differs from the CRC of group 1 raises InvalidCRCException, whatever its status |
| `SubsystemApi.SuccessMeansCrcChecked` | cdhs_samples/apis/sample_subsystem_api/sample_subsystem_api.py:131-135 | whatever is returned came from a match whose CRC was the CRC of the covered span |
| `SubsystemApi.SplitAtFrame` | cdhs_samples/apis/sample_subsystem_api/sample_subsystem_api.py:21 | `STATUS+BODY` (no \n in BODY), a space, eight upper-case hex digits and \r match with group 1 the whole span and group 4 the digits |
| `SubsystemApi.FrameMatches` | cdhs_samples/apis/sample_subsystem_api/sample_subsystem_api.py:126-129 | a well-formed frame matches with group 3 the body and group 4 its correct CRC |
| `SubsystemApi.ValidFrameExtracts` | cdhs_samples/apis/sample_subsystem_api/sample_subsystem_api.py:131-136 | a matching span with its correct CRC goes straight to extract with its status, body and CRC |
| `SubsystemApi.OkFrameRoundTrip` | cdhs_samples/apis/sample_subsystem_api/sample_subsystem_api.py:120-136 | an OK frame around any body without \n parses back to that body |
| `SubsystemApi.ErFrameRoundTrip` | cdhs_samples/apis/sample_subsystem_api/sample_subsystem_api.py:70-73 | an ER frame parses to the fault whose code is the body read as hex when that is 0..6, and to the ValueError for any other code or a non-hex body |
| `SubsystemApi.ErFrameIncorrectCrcExample` | cdhs_samples/apis/sample_subsystem_api/sample_subsystem_api.py:55 | `ER+04` with a correct CRC parses to `CMD_error_incorrect_CRC` |
| `SubsystemApi2.ConvertIntToHex` | cdhs_samples/apis/sample_subsystem_api_2/sample_subsystem_api.py:33-39 | convert_int_to_hex succeeds iff ceil(n/2) >= 1 and 0 <= value < 256^ceil(n/2); an empty rendering is the IndexError at `result[0]` |
| `SubsystemApi2.ConvertIntToHexShape` | cdhs_samples/apis/sample_subsystem_api_2/sample_subsystem_api.py:33-39 | in range, the result is 2*ceil(n/2) upper-case hex digits reading back as the value: nothing is chopped |
| `SubsystemApi2.ConvertIntToHexNeverChops` | cdhs_samples/apis/sample_subsystem_api_2/sample_subsystem_api.py:37 | `convert_int_to_hex(1, 1)` is `01`: the leading '0' is kept because an int is compared with a bytes object |
| `SubsystemApi2.ConvertIntToHexIntended` | cdhs_samples/apis/sample_subsystem_api_2/sample_subsystem_api.py:36-38 | with the chop as its comment describes it, the function succeeds on the same inputs |
| `SubsystemApi2.ChopKeepsValue` | cdhs_samples/apis/sample_subsystem_api_2/sample_subsystem_api.py:37-38 | chopping a leading '0' keeps the hex value and leaves n of n + 1 digits when the value is below 16^n |
| `SubsystemApi2.ConvertIntToHexIntendedWidth` | cdhs_samples/apis/sample_subsystem_api_2/sample_subsystem_api.py:36-38 | the corrected renderer keeps the value and gives exactly n digits for an odd n when the value is below 16^n |
| `SubsystemApi2.GenerateCrc` | cdhs_samples/apis/sample_subsystem_api_2/sample_subsystem_api.py:67-74 | 8 upper-case hex characters that read back as crc32 of the input |
| `SubsystemApi2.GenerateCommand` | cdhs_samples/apis/sample_subsystem_api_2/sample_subsystem_api.py:76-84 | generate_command, the same text as the first copy; `SubsystemApi2.GenerateCommandEndsWithCr` and `Variants.SameCommand` state its properties |
| `SubsystemApi2.GenerateCommandEndsWithCr` | cdhs_samples/apis/sample_subsystem_api_2/sample_subsystem_api.py:76-84 | frames end in \r and not in the declared `TERMINATOR` "\n"; before it come a space and the CRC of everything before that space |
| `SubsystemApi2.ParseResponse` | cdhs_samples/apis/sample_subsystem_api_2/sample_subsystem_api.py:86-96 | parse_response as written: rsplit at the last space, split the whole response at its first '+', compare the CRC; its properties are stated by `SubsystemApi2.ParseFailsIff`, `SubsystemApi2.ParseResponseOutcome`, `SubsystemApi2.CrcFrameParses` and `SubsystemApi2.TerminatedFrameIsNone` |
| `SubsystemApi2.ParseFailsIff` | cdhs_samples/apis/sample_subsystem_api_2/sample_subsystem_api.py:90-91 | parse_response raises the unpacking ValueError iff the response has no space or no '+' |
| `SubsystemApi2.ParseResponseOutcome` | cdhs_samples/apis/sample_subsystem_api_2/sample_subsystem_api.py:90-96 | the answer is (None, None) iff the bytes after the last space are not generate_crc of the bytes before it; otherwise it is the whole response split at its first '+' |
| `SubsystemApi2.TerminatedResponseIsNone` | cdhs_samples/apis/sample_subsystem_api_2/sample_subsystem_api.py:92-94 | a response ending in anything but an upper-case hex digit (a \r terminator, say) is always (None, None) |
| `SubsystemApi2.NoSeparators` | cdhs_samples/apis/sample_subsystem_api_2/sample_subsystem_api.py:90-91 | the CRC digits never contain the space or the '+' the parser splits on |
| `SubsystemApi2.CrcFrameParses` | cdhs_samples/apis/sample_subsystem_api_2/sample_subsystem_api.py:90-96 | for `S+BODY c` with no '+' in S and no space in c, the reply is (S, BODY + " " + c) when c is the CRC of `S+BODY`, else (None, None) |
| `SubsystemApi2.UnterminatedFrameParses` | cdhs_samples/apis/sample_subsystem_api_2/sample_subsystem_api.py:90-96 | a frame sent without a terminator parses to (S, body + " " + crc): the body keeps the CRC suffix |
| `SubsystemApi2.TerminatedFrameIsNone` | cdhs_samples/apis/sample_subsystem_api_2/sample_subsystem_api.py:90-94 | the same frame closed with \r, as the device sends it, always yields (None, None) |
| `SubsystemApi2.ParseResponseIntended` | cdhs_samples/apis/sample_subsystem_api_2/sample_subsystem_api.py:86-96 | the corrected parser fails iff there is no space, or no '+' before the last space; every (status, body) it returns rebuilds the frame with its correct CRC |
| `SubsystemApi2.IntendedRoundTrip` | cdhs_samples/apis/sample_subsystem_api_2/sample_subsystem_api.py:86-96 | the corrected parser gives back status and body from a \r-terminated frame |
| `Variants.SameCrc` | cdhs_samples/apis/sample_subsystem_api_2/sample_subsystem_api.py:67-74 | both copies of generate_crc agree on every input |
| `Variants.SameCommand` | cdhs_samples/apis/sample_subsystem_api_2/sample_subsystem_api.py:76-84 | both copies of generate_command build the same frame |
| `Variants.RenderersCompared` | cdhs_samples/apis/sample_subsystem_api_2/sample_subsystem_api.py:33-39 | in range, int2hex and convert_int_to_hex agree for even widths; for odd widths int2hex lacks the first digit |

## Left out

- Serial I/O is not modelled: `send_msg`, the pyserial port, `read_until` and the timeouts are a foreign transport. So is the variant 2 reference to the non-existent `serial_info`.
- The `Lock` of variant 1 is not modelled; it only excludes concurrent writers.
- `send_command` only chains the encoder, the I/O and the parser, and prints; it is not modelled.
- `test_command` and `set_sensor_status` carry no protocol logic and are not modelled.
- `schema.py`, `service.py`, `models.py` and `setup.py` (service wiring, configuration, packaging) are not part of this model.
- `ByteCodec.ParseHexInt` accepts only a non-empty run of hex digits. Python's `int(s, 16)` also accepts surrounding whitespace, `_` between digits, a `0x` prefix and a sign. An ER body using those forms is reported as `InvalidErrorCode` here, where Python would decode it.
- `ByteCodec.CeilHalf` is exact integer arithmetic. `math.ceil(n / 2)` goes through a float and loses precision for |n| beyond 2^53.
- `ByteCodec.NatDigits` and `ByteCodec.Str` cover only ASCII decimal digits and an optional minus sign, which is all `str(int)` produces.
- Request ids of 100 or more are rendered in full, as the code does (`SubsystemApi.GenerateCommandLargeId`). The two-digit `zfill(2)` id field suggests ids 0 to 99, but the code never rejects larger ids, and the model follows the code.
- The CRC is a bitwise reference definition, not zlib's table-driven code; the two compute the same function. Only the check value of `b"a"` and the piecewise-update law are proved about it.
- `PyValue` models only the one comparison `result[0] == b"0"`: an int never equals a bytes object. It does not model Python equality in general.
- The variant 2 `TERMINATOR` constant is declared but never used by the code, and is kept only as a constant.
- Timeouts, retries and the transaction coordinator belong to the service and transport, and are not part of this layer.

## Findings

| source | as written | input that shows it | evidently intended | confidence | as-written member | corrected member |
|---|---|---|---|---|---|---|
| cdhs_samples/apis/sample_subsystem_api_2/sample_subsystem_api.py:37-38 | `result[0] == b"0"` compares an int with a bytes object, so it is always false and the leading '0' is never chopped | `convert_int_to_hex(1, 1)` returns `01`, two characters for a width of one | drop a leading '0' so an odd width gives that many digits | not executed | `SubsystemApi2.ConvertIntToHexNeverChops` | `SubsystemApi2.ConvertIntToHexIntendedWidth` |
| cdhs_samples/apis/sample_subsystem_api_2/sample_subsystem_api.py:90-94 | the bytes after the last space include the trailing `\r` that `send_msg` reads up to, so they never equal the eight-character CRC | any frame `OK+<body> <CRC>\r` with a correct CRC yields `(None, None)` | strip the terminator before comparing the CRC | not executed | `SubsystemApi2.TerminatedFrameIsNone` | `SubsystemApi2.IntendedRoundTrip` |
| cdhs_samples/apis/sample_subsystem_api_2/sample_subsystem_api.py:91 | the status/body split is taken over the whole response, not over the part before the CRC | `OK+41 <CRC of OK+41>` without `\r` yields body `41 <CRC>` | body is only the bytes between '+' and the last space | not executed | `SubsystemApi2.UnterminatedFrameParses` | `SubsystemApi2.ParseResponseIntended` |
