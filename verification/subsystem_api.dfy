/** The first copy of the sample subsystem protocol
    (cdhs_samples/apis/sample_subsystem_api/sample_subsystem_api.py):
    fixed-width hex rendering, the CRC-32 checksum as eight upper-case hex
    characters, request frames `XT+<W|R><id><params> <CRC>\r`, and the
    regular-expression response parser with its three failure kinds. */
module SubsystemApi {
  import opened Results
  import opened ByteCodec
  import Crc32

  const CMD_PREFIX: Bytes := [0x58, 0x54, 0x2B]   // "XT+"
  const READ_SYMBOL: byte := 0x52                 // 'R'
  const WRITE_SYMBOL: byte := 0x57                // 'W'
  const TERMINATOR: byte := CR
  const CRC_BYTES: nat := 4                       // crc32 result as 4 bytes

  // -----------------------------------------------------------------------
  // int2hex

  /** int2hex(value, size_ascii): value.to_bytes(ceil(size_ascii / 2)) in
      upper-case hex, with the first character dropped when size_ascii is
      odd. */
  function Int2Hex(value: int, sizeAscii: int): (r: Result<Bytes, ToBytesError>)
    ensures r.Success? <==> 0 <= CeilHalf(sizeAscii) && 0 <= value < Pow(256, CeilHalf(sizeAscii))
  {
    match IntToBytes(value, CeilHalf(sizeAscii))
    case Failure(e) => Failure(e)
    case Success(bs) =>
      var result := ToUpper(Hexlify(bs));
      Success(if sizeAscii % 2 != 0 then SliceFrom(result, 1) else result)
  }

  /** In range, int2hex is the last size_ascii characters of the upper-case
      hex of the big-endian bytes, which is at most one character longer. */
  lemma Int2HexInRange(value: nat, sizeAscii: nat)
    requires value < Pow(256, CeilHalf(sizeAscii))
    ensures var full := ToUpper(Hexlify(ToBytesBE(value, CeilHalf(sizeAscii))));
            sizeAscii <= |full| <= sizeAscii + 1 &&
            Int2Hex(value, sizeAscii) == Success(full[|full| - sizeAscii..])
  {
    var k := CeilHalf(sizeAscii);
    assert IntToBytes(value, k) == Success(ToBytesBE(value, k));
    UpperHexOfValue(value, k);
  }

  /** In range, int2hex returns exactly size_ascii upper-case hex digits. */
  lemma Int2HexShape(value: int, sizeAscii: nat)
    requires 0 <= value < Pow(256, CeilHalf(sizeAscii))
    ensures Int2Hex(value, sizeAscii).Success?
    ensures |Int2Hex(value, sizeAscii).value| == sizeAscii
    ensures AllUpperHex(Int2Hex(value, sizeAscii).value)
  {
    var k := CeilHalf(sizeAscii);
    UpperHexOfValue(value, k);
    Int2HexInRange(value, sizeAscii);
  }

  /** int2hex raises exactly when the value is negative or needs more than
      ceil(size_ascii / 2) bytes (OverflowError from int.to_bytes). */
  lemma Int2HexOverflow(value: int, sizeAscii: nat)
    ensures Int2Hex(value, sizeAscii) == Failure(Overflow)
        <==> value < 0 || value >= Pow(256, CeilHalf(sizeAscii))
  {
  }

  /** Read back as hex, int2hex(value, n) is value mod 16^n: for odd n only
      the top nibble is lost, and a value below 16^n comes back whole. */
  lemma Int2HexDecodes(value: nat, sizeAscii: nat)
    requires value < Pow(256, CeilHalf(sizeAscii))
    ensures AllHex(Int2Hex(value, sizeAscii).value)
    ensures HexValue(Int2Hex(value, sizeAscii).value) == value % Pow(16, sizeAscii)
    ensures value < Pow(16, sizeAscii) ==> HexValue(Int2Hex(value, sizeAscii).value) == value
  {
    var k := CeilHalf(sizeAscii);
    var full := ToUpper(Hexlify(ToBytesBE(value, k)));
    UpperHexOfValue(value, k);
    Int2HexInRange(value, sizeAscii);
    Pow256IsPow16(k);
    TrimmedDigits(full, value, sizeAscii);
  }

  /** Trimming the 2 * ceil(n / 2) upper-case digits of `value` to their
      last n keeps `value` modulo 16^n. */
  lemma TrimmedDigits(full: Bytes, value: nat, n: nat)
    requires |full| == 2 * CeilHalf(n) && AllUpperHex(full) && HexValue(full) == value
    requires value < Pow(16, |full|)
    ensures var r := full[|full| - n..];
      AllHex(r) && HexValue(r) == value % Pow(16, n) &&
      (value < Pow(16, n) ==> HexValue(r) == value)
  {
    if n % 2 != 0 {
      DropLeadingDigit(full);
      if value < Pow(16, n) {
        ModOfSum(value, 0, Pow(16, n), value);
      }
    } else {
      ModOfSum(value, 0, Pow(16, n), value);
    }
  }

  // -----------------------------------------------------------------------
  // Status, device error codes and MessageResponse.extract

  datatype ResponseStatus = OK | ER

  /** The closed set of fault codes a device reports in an ER body. */
  datatype CommandError =
    | CmdErrorNone
    | CmdErrorIncorrectLength
    | CmdErrorIncorrectFormat
    | CmdErrorIncorrectAddr
    | CmdErrorIncorrectCrc
    | CmdErrorInvalidCmdId
    | CmdErrorMessageTooSmall
  {
    function Code(): nat
    {
      match this
      case CmdErrorNone => 0x00
      case CmdErrorIncorrectLength => 0x01
      case CmdErrorIncorrectFormat => 0x02
      case CmdErrorIncorrectAddr => 0x03
      case CmdErrorIncorrectCrc => 0x04
      case CmdErrorInvalidCmdId => 0x05
      case CmdErrorMessageTooSmall => 0x06
    }
  }

  /** CommandError(code): the member with that value, None where Python's
      Enum lookup raises ValueError. */
  function CommandErrorOf(code: int): (r: Option<CommandError>)
    ensures r.Some? <==> 0 <= code <= 6
    ensures r.Some? ==> r.value.Code() == code
  {
    if code == 0x00 then Some(CmdErrorNone)
    else if code == 0x01 then Some(CmdErrorIncorrectLength)
    else if code == 0x02 then Some(CmdErrorIncorrectFormat)
    else if code == 0x03 then Some(CmdErrorIncorrectAddr)
    else if code == 0x04 then Some(CmdErrorIncorrectCrc)
    else if code == 0x05 then Some(CmdErrorInvalidCmdId)
    else if code == 0x06 then Some(CmdErrorMessageTooSmall)
    else None
  }

  /** Each member's value looks up that member again. */
  lemma CommandErrorOfCode(e: CommandError)
    ensures CommandErrorOf(e.Code()) == Some(e)
  {
  }

  /** What parse_response hands back: the OK body, or the device fault. */
  datatype Extracted = Payload(body: Bytes) | DeviceError(error: CommandError)

  /** Why parse_response raises: the regular expression did not match
      (AssertionError), the checksum differs (InvalidCRCException), or an
      ER body is not the hex value of a known fault (ValueError). */
  datatype ParseError = MalformedResponse | InvalidCrc | InvalidErrorCode

  datatype MessageResponse = MessageResponse(status: ResponseStatus, body: Bytes, crc: Bytes)
  {
    /** MessageResponse.extract. */
    function Extract(): (r: Result<Extracted, ParseError>)
      ensures status == OK ==> r == Success(Payload(body))
      ensures status == ER ==>
                (r.Success? <==> ParseHexInt(body).Some? && ParseHexInt(body).value <= 6)
      ensures r.Success? && status == ER ==> r.value.DeviceError? && r.value.error.Code() == HexValue(body)
      ensures r.Failure? ==> r.error == InvalidErrorCode
    {
      if status == ER then
        match ParseHexInt(body)
        case None => Failure(InvalidErrorCode)
        case Some(code) =>
          match CommandErrorOf(code)
          case None => Failure(InvalidErrorCode)
          case Some(e) => Success(DeviceError(e))
      else Success(Payload(body))
    }
  }

  // -----------------------------------------------------------------------
  // generate_crc and generate_command

  /** generate_crc: crc32 as four big-endian bytes, hexlified, upper-cased.
      Eight upper-case hex characters that read back as the CRC. */
  function GenerateCrc(command: Bytes): (r: Bytes)
    ensures |r| == 8 && AllUpperHex(r)
    ensures HexValue(r) == Crc32.Crc32(command)
  {
    UpperHexOfValue(Crc32.Crc32(command), CRC_BYTES);
    ToUpper(Hexlify(ToBytesBE(Crc32.Crc32(command), CRC_BYTES)))
  }

  /** generate_command: header, parameters, a space, the CRC of everything
      before the space, and a carriage return.  The id is str(cmd_id).zfill(2). */
  function GenerateCommand(cmdId: int, write: bool, params: Bytes): Bytes
  {
    var commandType := if write then WRITE_SYMBOL else READ_SYMBOL;
    var header := CMD_PREFIX + [commandType] + ZFill(Str(cmdId), 2);
    var withoutCrc := header + params;
    withoutCrc + [SPACE] + GenerateCrc(withoutCrc) + [CR]
  }

  /** The two zero-padded decimal digits of an id in 0..99. */
  function TwoDigits(cmdId: nat): Bytes
    requires cmdId <= 99
  {
    [ZERO + cmdId / 10, ZERO + cmdId % 10]
  }

  lemma TwoDigitsValue(cmdId: nat)
    requires cmdId <= 99
    ensures AllDecimal(TwoDigits(cmdId)) && DecimalValue(TwoDigits(cmdId)) == cmdId
  {
    var t := TwoDigits(cmdId);
    assert t[..1] == [ZERO + cmdId / 10];
    assert DecimalValue(t[..1]) == cmdId / 10;
  }

  lemma {:induction false} IdFieldSmall(cmdId: nat)
    requires cmdId <= 99
    ensures ZFill(Str(cmdId), 2) == TwoDigits(cmdId)
  {
    if cmdId >= 10 {
      NatDigitsValue(cmdId / 10);
    }
  }

  /** For ids 0..99 the frame is XT+, the direction, two decimal digits,
      the parameters, a space, the CRC of that prefix and \r: |params| + 16
      bytes in all, with the id digits reading back as the id. */
  lemma GenerateCommandSmallId(cmdId: nat, write: bool, params: Bytes)
    requires cmdId <= 99
    ensures var dir := if write then WRITE_SYMBOL else READ_SYMBOL;
            var withoutCrc := CMD_PREFIX + [dir] + TwoDigits(cmdId) + params;
            GenerateCommand(cmdId, write, params) == withoutCrc + [SPACE] + GenerateCrc(withoutCrc) + [CR]
    ensures |GenerateCommand(cmdId, write, params)| == |params| + 16
    ensures AllDecimal(GenerateCommand(cmdId, write, params)[4..6])
    ensures DecimalValue(GenerateCommand(cmdId, write, params)[4..6]) == cmdId
  {
    IdFieldSmall(cmdId);
    TwoDigitsValue(cmdId);
    var dir := if write then WRITE_SYMBOL else READ_SYMBOL;
    var withoutCrc := CMD_PREFIX + [dir] + TwoDigits(cmdId) + params;
    var f := withoutCrc + [SPACE] + GenerateCrc(withoutCrc) + [CR];
    assert GenerateCommand(cmdId, write, params) == f;
    assert f[4..6] == TwoDigits(cmdId);
  }

  /** Ids of 100 or more are written out in full, not cut to two digits. */
  lemma GenerateCommandLargeId(cmdId: nat, write: bool, params: Bytes)
    requires cmdId >= 100
    ensures var digits := NatDigits(cmdId);
            |digits| >= 3 && DecimalValue(digits) == cmdId
            && GenerateCommand(cmdId, write, params)[4..4 + |digits|] == digits
  {
    NatDigitsValue(cmdId);
    assert ZFill(Str(cmdId), 2) == NatDigits(cmdId);
  }

  /** Every frame, whatever the id, ends in a space, the eight-digit CRC of
      all bytes before that space, and the \r terminator. */
  lemma GenerateCommandChecksum(cmdId: int, write: bool, params: Bytes)
    ensures var f := GenerateCommand(cmdId, write, params);
            |f| >= 16 && f[|f| - 10] == SPACE && f[|f| - 1] == TERMINATOR
            && f[|f| - 9..|f| - 1] == GenerateCrc(f[..|f| - 10])
            && HexValue(f[|f| - 9..|f| - 1]) == Crc32.Crc32(f[..|f| - 10])
  {
    var commandType := if write then WRITE_SYMBOL else READ_SYMBOL;
    var withoutCrc := CMD_PREFIX + [commandType] + ZFill(Str(cmdId), 2) + params;
    var c := GenerateCrc(withoutCrc);
    var f := GenerateCommand(cmdId, write, params);
    assert f == withoutCrc + [SPACE] + c + [CR];
    FrameTail(withoutCrc, c);
    assert f[..|f| - 10] == withoutCrc;
    assert GenerateCrc(f[..|f| - 10]) == c;
  }

  /** generate_command(0, True) is b"XT+W00 " + generate_crc(b"XT+W00") + b"\r".
      (The arguments are parameters pinned by the requires so that the
      verifier does not try to evaluate the CRC of a literal.) */
  lemma GenerateCommandExample(cmdId: int, params: Bytes, header: Bytes)
    requires cmdId == 0 && params == []
    requires header == [0x58, 0x54, 0x2B, 0x57, 0x30, 0x30]
    ensures GenerateCommand(cmdId, true, params) == header + [SPACE] + GenerateCrc(header) + [CR]
  {
    GenerateCommandSmallId(cmdId, true, params);
    var withoutCrc := CMD_PREFIX + [WRITE_SYMBOL] + TwoDigits(cmdId) + params;
    assert withoutCrc == header;
    assert GenerateCrc(withoutCrc) == GenerateCrc(header);
  }

  // -----------------------------------------------------------------------
  // RESPONSE_RE = ^((OK|ER)\+(.*)) ([0-9A-F]{8})\r  and parse_response

  /** The response opens with OK+ or ER+. */
  predicate StatusPrefix(r: Bytes)
  {
    |r| >= 3 && r[2] == PLUS
    && ((r[0] == 0x4F && r[1] == 0x4B) || (r[0] == 0x45 && r[1] == 0x52))
  }

  /** The rest of the pattern with group 3 ending at k: no \n in r[3..k]
      (`.` does not match it), then a space, eight upper-case hex digits
      and \r.  Bytes after that \r are not looked at. */
  predicate SplitAt(r: Bytes, k: int)
  {
    3 <= k && k + 10 <= |r|
    && (forall i :: 3 <= i < k ==> r[i] != LF)
    && r[k] == SPACE && AllUpperHex(r[k + 1..k + 9]) && r[k + 9] == CR
  }

  /** The pattern matches with group 3 ending at k. */
  predicate MatchesAt(r: Bytes, k: int)
  {
    StatusPrefix(r) && SplitAt(r, k)
  }

  /** The largest split point not above k: where the greedy `.*` comes to
      rest after backtracking. */
  function LastSplit(r: Bytes, k: int): (m: Option<nat>)
    ensures m.Some? ==>
              3 <= m.value <= k && SplitAt(r, m.value) && forall j :: m.value < j <= k ==> !SplitAt(r, j)
    ensures m.None? ==> forall j :: j <= k ==> !SplitAt(r, j)
    decreases k
  {
    if k < 3 then None
    else if SplitAt(r, k) then Some(k)
    else LastSplit(r, k - 1)
  }

  /** RESPONSE_RE.match: the end of group 3, or None when nothing matches. */
  function RegexMatch(r: Bytes): (m: Option<nat>)
    ensures m.Some? ==> MatchesAt(r, m.value) && forall j :: j > m.value ==> !MatchesAt(r, j)
    ensures m.None? ==> forall j :: !MatchesAt(r, j)
  {
    if StatusPrefix(r) then LastSplit(r, |r| - 10) else None
  }

  /** The match RESPONSE_RE finds is the largest split point. */
  lemma RegexMatchIsLargest(response: Bytes, k: nat)
    requires MatchesAt(response, k) && forall j :: j > k ==> !MatchesAt(response, j)
    ensures RegexMatch(response) == Some(k)
  {
  }

  /** parse_response: match, recompute the CRC over group 1, compare it
      with group 4, then extract. */
  function ParseResponse(response: Bytes): (r: Result<Extracted, ParseError>)
  {
    match RegexMatch(response)
    case None => Failure(MalformedResponse)
    case Some(k) =>
      var withoutCrc := response[..k];
      var status := if response[0] == 0x4F then OK else ER;
      var body := response[3..k];
      var sentCrc := response[k + 1..k + 9];
      if GenerateCrc(withoutCrc) != sentCrc then Failure(InvalidCrc)
      else MessageResponse(status, body, sentCrc).Extract()
  }

  /** The assertion fails exactly on the responses the pattern rejects. */
  lemma ParseMalformedIff(response: Bytes)
    ensures ParseResponse(response) == Failure(MalformedResponse)
        <==> forall k :: !MatchesAt(response, k)
  {
    match RegexMatch(response)
    case None =>
    case Some(k) =>
      assert MatchesAt(response, k);
  }

  /** A response with no \r anywhere, or one not opening with OK+ or ER+, is
      malformed. */
  lemma MalformedCases(response: Bytes)
    requires !StatusPrefix(response) || forall i :: 0 <= i < |response| ==> response[i] != CR
    ensures ParseResponse(response) == Failure(MalformedResponse)
  {
    if StatusPrefix(response) {
      forall k ensures !MatchesAt(response, k) {
        if 0 <= k && k + 10 <= |response| {
          assert response[k + 9] != CR;
        }
      }
    }
    ParseMalformedIff(response);
  }

  /** A checksum field holding a lower-case hex digit does not match the
      pattern, so when that field closes the only \r of the response the
      whole response is malformed ("OK+ 0000000a\r").  A \r further on could
      still let the greedy match back off to an earlier split. */
  lemma LowercaseCrcMalformed(w: Bytes, c: Bytes)
    requires StatusPrefix(w) && CR !in w
    requires |c| == 8 && AllHex(c) && !AllUpperHex(c)
    ensures ParseResponse(w + [SPACE] + c + [CR]) == Failure(MalformedResponse)
  {
    var r := w + [SPACE] + c + [CR];
    forall k ensures !SplitAt(r, k) {
      if 3 <= k && k + 10 <= |r| {
        if k == |w| {
          assert r[k + 1..k + 9] == c;
        } else if k + 9 < |w| {
          assert r[k + 9] == w[k + 9];
        } else if k + 9 > |w| {
          assert r[k + 9] == c[k + 9 - |w| - 1];
          assert IsHexDigit(c[k + 9 - |w| - 1]);
        }
      }
    }
    ParseMalformedIff(r);
  }

  /** When the pattern matches but the transmitted CRC is not the CRC of
      group 1, InvalidCRCException is raised before the body is looked at,
      whatever the status. */
  lemma CrcMismatchRejected(response: Bytes, k: nat)
    requires MatchesAt(response, k) && forall j :: j > k ==> !MatchesAt(response, j)
    requires GenerateCrc(response[..k]) != response[k + 1..k + 9]
    ensures ParseResponse(response) == Failure(InvalidCrc)
  {
    RegexMatchIsLargest(response, k);
    ParseOnMatch(response, k);
  }

  /** parse_response once the pattern has matched with group 3 ending at k. */
  lemma ParseOnMatch(response: Bytes, k: nat)
    requires RegexMatch(response) == Some(k)
    ensures k + 10 <= |response|
    ensures ParseResponse(response)
         == if GenerateCrc(response[..k]) != response[k + 1..k + 9] then Failure(InvalidCrc)
            else MessageResponse(if response[0] == 0x4F then OK else ER, response[3..k], response[k + 1..k + 9]).Extract()
  {
  }

  /** Nothing is returned unless the transmitted CRC is the CRC of the
      covered span. */
  lemma SuccessMeansCrcChecked(response: Bytes)
    requires ParseResponse(response).Success?
    ensures exists k :: MatchesAt(response, k) && GenerateCrc(response[..k]) == response[k + 1..k + 9]
  {
    var k := RegexMatch(response).value;
    ParseOnMatch(response, k);
    assert MatchesAt(response, k);
  }

  /** The bytes of a status token. */
  function StatusBytes(s: ResponseStatus): Bytes
  {
    match s
    case OK => [0x4F, 0x4B]
    case ER => [0x45, 0x52]
  }

  /** The frame a device sends: STATUS+BODY, a space, the CRC of STATUS+BODY
      and \r. */
  function ResponseFrame(s: ResponseStatus, body: Bytes): Bytes
  {
    var withoutCrc := StatusBytes(s) + [PLUS] + body;
    withoutCrc + [SPACE] + GenerateCrc(withoutCrc) + [CR]
  }

  /** A well-formed frame whose body holds no \n is matched with group 3
      equal to the body, and its CRC checks out. */
  lemma FrameMatches(s: ResponseStatus, body: Bytes)
    requires forall i :: 0 <= i < |body| ==> body[i] != LF
    ensures var f := ResponseFrame(s, body);
            RegexMatch(f) == Some(3 + |body|)
            && f[..3 + |body|] == StatusBytes(s) + [PLUS] + body
            && f[3..3 + |body|] == body
            && f[4 + |body|..12 + |body|] == GenerateCrc(StatusBytes(s) + [PLUS] + body)
  {
    var w := StatusBytes(s) + [PLUS] + body;
    assert |w| == 3 + |body| && w[3..] == body;
    var c := GenerateCrc(w);
    assert ResponseFrame(s, body) == w + [SPACE] + c + [CR];
    SplitAtFrame(w, c);
  }

  /** Whatever eight upper-case hex digits follow it, a span opening with a
      status token and holding no \n after it is matched exactly up to its
      end. */
  lemma SplitAtFrame(w: Bytes, c: Bytes)
    requires StatusPrefix(w) && forall i :: 3 <= i < |w| ==> w[i] != LF
    requires |c| == 8 && AllUpperHex(c)
    ensures var f := w + [SPACE] + c + [CR];
            RegexMatch(f) == Some(|w|) && f[..|w|] == w && f[3..|w|] == w[3..]
            && f[|w| + 1..|w| + 9] == c
  {
    var f := w + [SPACE] + c + [CR];
    var k := |w|;
    assert f[..k] == w;
    assert f[k + 1..k + 9] == c;
    assert forall i :: 3 <= i < k ==> f[i] == w[i];
    assert SplitAt(f, k);
    assert MatchesAt(f, k);
    RegexMatchIsLargest(f, k);
  }

  /** A matched span whose CRC checks out is handed to extract with its
      status, group 3 as body and the transmitted CRC. */
  lemma ValidFrameExtracts(w: Bytes, c: Bytes)
    requires StatusPrefix(w) && forall i :: 3 <= i < |w| ==> w[i] != LF
    requires c == GenerateCrc(w)
    ensures ParseResponse(w + [SPACE] + c + [CR])
         == MessageResponse(if w[0] == 0x4F then OK else ER, w[3..], c).Extract()
  {
    SplitAtFrame(w, c);
    ParseOnMatch(w + [SPACE] + c + [CR], |w|);
  }

  /** An OK frame gives back its body unchanged. */
  lemma OkFrameRoundTrip(body: Bytes)
    requires forall i :: 0 <= i < |body| ==> body[i] != LF
    ensures ParseResponse(ResponseFrame(OK, body)) == Success(Payload(body))
  {
    var w := StatusBytes(OK) + [PLUS] + body;
    assert w[3..] == body;
    ValidFrameExtracts(w, GenerateCrc(w));
  }

  /** An ER frame gives back the fault whose code is the body read as hex,
      and fails with ValueError for any other body. */
  lemma ErFrameRoundTrip(body: Bytes)
    requires forall i :: 0 <= i < |body| ==> body[i] != LF
    ensures var r := ParseResponse(ResponseFrame(ER, body));
            match ParseHexInt(body)
            case Some(code) =>
              (code <= 6 ==> r.Success? && r.value.DeviceError? && r.value.error.Code() == code)
              && (code > 6 ==> r == Failure(InvalidErrorCode))
            case None => r == Failure(InvalidErrorCode)
  {
    var w := StatusBytes(ER) + [PLUS] + body;
    assert w[3..] == body;
    ValidFrameExtracts(w, GenerateCrc(w));
  }

  /** "ER+04" with a correct CRC is the device's own CRC fault. */
  lemma ErFrameIncorrectCrcExample(body: Bytes)
    requires body == [0x30, 0x34]
    ensures ParseResponse(ResponseFrame(ER, body)) == Success(DeviceError(CmdErrorIncorrectCrc))
  {
    assert body[..1] == [0x30];
    assert HexValue(body[..1]) == 0;
    assert ParseHexInt(body) == Some(4);
    ErFrameRoundTrip(body);
  }
}
