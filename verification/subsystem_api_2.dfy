/** The second copy of the sample subsystem protocol
    (cdhs_samples/apis/sample_subsystem_api_2/sample_subsystem_api.py):
    the same encoder and checksum, a hex renderer whose leading-zero chop
    never fires, and a split-based parser that answers (None, None) on a
    checksum mismatch instead of raising. */
module SubsystemApi2 {
  import opened Results
  import opened ByteCodec
  import Crc32

  const CMD_PREFIX: Bytes := [0x58, 0x54, 0x2B]   // "XT+"
  const READ_SYMBOL: byte := 0x52                 // 'R'
  const WRITE_SYMBOL: byte := 0x57                // 'W'
  /** Declared as "\n" but never used: frames are still closed with \r. */
  const TERMINATOR: byte := LF
  const CRC_BYTES: nat := 4                       // crc32 result as 4 bytes

  // -----------------------------------------------------------------------
  // convert_int_to_hex

  /** The two kinds of Python value compared at the chop test: indexing
      bytes yields an int, while b"0" is a bytes object. */
  datatype PyValue = PyInt(i: int) | PyBytes(b: Bytes)

  /** Python ==: values of different kinds are never equal. */
  predicate PyEquals(x: PyValue, y: PyValue)
  {
    match (x, y)
    case (PyInt(a), PyInt(b)) => a == b
    case (PyBytes(a), PyBytes(b)) => a == b
    case _ => false
  }

  /** Why convert_int_to_hex raises: int.to_bytes failed, or the rendered
      text is empty so result[0] is an IndexError. */
  datatype ConvertError = ToBytesFailed(cause: ToBytesError) | EmptyIndex

  /** convert_int_to_hex(value, num_characters), as written: the chop test
      compares an int with a bytes object. */
  function ConvertIntToHex(value: int, numCharacters: int): (r: Result<Bytes, ConvertError>)
    ensures r.Success? <==> 1 <= CeilHalf(numCharacters) && 0 <= value < Pow(256, CeilHalf(numCharacters))
    ensures r == Failure(EmptyIndex) <==> CeilHalf(numCharacters) == 0 && value == 0
  {
    match IntToBytes(value, CeilHalf(numCharacters))
    case Failure(e) => Failure(ToBytesFailed(e))
    case Success(bs) =>
      var result := ToUpper(Hexlify(bs));
      if |result| == 0 then Failure(EmptyIndex)
      else if PyEquals(PyInt(result[0]), PyBytes([ZERO])) then Success(result[1..])
      else Success(result)
  }

  /** In range, the result is always 2 * ceil(n / 2) upper-case hex digits
      reading back as the value: nothing is ever chopped. */
  lemma ConvertIntToHexShape(value: int, numCharacters: int)
    requires 1 <= CeilHalf(numCharacters)
    requires 0 <= value < Pow(256, CeilHalf(numCharacters))
    ensures var r := ConvertIntToHex(value, numCharacters);
            r.Success? && |r.value| == 2 * CeilHalf(numCharacters)
            && AllUpperHex(r.value) && HexValue(r.value) == value
  {
    var k := CeilHalf(numCharacters);
    UpperHexOfValue(value, k);
    assert IntToBytes(value, k) == Success(ToBytesBE(value, k));
  }

  /** convert_int_to_hex(1, 1) is b"01": two characters where one was asked
      for, because the chop test can never succeed. */
  lemma ConvertIntToHexNeverChops()
    ensures ConvertIntToHex(1, 1) == Success([ZERO, 0x31])
  {
    assert Pow(256, 1) == 256;
    assert ToBytesBE(1, 1) == [1];
    assert IntToBytes(1, 1) == Success([1]);
    assert Hexlify([1]) == [0x30, 0x31];
    assert ToUpper([0x30, 0x31]) == [0x30, 0x31];
  }

  /** The chop as its comment describes it: drop the first character when
      it is the digit 0. */
  function ConvertIntToHexIntended(value: int, numCharacters: int): (r: Result<Bytes, ConvertError>)
    ensures r.Success? <==> 1 <= CeilHalf(numCharacters) && 0 <= value < Pow(256, CeilHalf(numCharacters))
  {
    match IntToBytes(value, CeilHalf(numCharacters))
    case Failure(e) => Failure(ToBytesFailed(e))
    case Success(bs) =>
      var result := ToUpper(Hexlify(bs));
      if |result| == 0 then Failure(EmptyIndex)
      else if result[0] == ZERO then Success(result[1..])
      else Success(result)
  }

  /** With the chop working, the value is kept, and an odd width n with a
      value below 16^n gives exactly n characters. */
  lemma ConvertIntToHexIntendedWidth(value: nat, numCharacters: nat)
    requires 1 <= CeilHalf(numCharacters)
    requires value < Pow(256, CeilHalf(numCharacters))
    ensures var r := ConvertIntToHexIntended(value, numCharacters);
            r.Success? && AllUpperHex(r.value) && HexValue(r.value) == value
            && (numCharacters % 2 == 1 && value < Pow(16, numCharacters) ==> |r.value| == numCharacters)
  {
    var k := CeilHalf(numCharacters);
    var full := ToUpper(Hexlify(ToBytesBE(value, k)));
    UpperHexOfValue(value, k);
    assert IntToBytes(value, k) == Success(ToBytesBE(value, k));
    ChopKeepsValue(full, value, numCharacters);
  }

  /** Dropping a leading digit 0 keeps the value, and leaves exactly n digits
      of n + 1 when the value is below 16^n. */
  lemma ChopKeepsValue(full: Bytes, value: nat, n: nat)
    requires |full| >= 1 && AllUpperHex(full) && HexValue(full) == value
    ensures var r := if full[0] == ZERO then full[1..] else full;
            AllUpperHex(r) && HexValue(r) == value
            && (|full| == n + 1 && value < Pow(16, n) ==> |r| == n)
  {
    if full[0] == ZERO {
      LeadingZeroDrop(full);
    }
    if |full| == n + 1 && value < Pow(16, n) {
      SmallValueLeadingZero(full);
    }
  }

  // -----------------------------------------------------------------------
  // generate_crc and generate_command (the same text as the first copy)

  function GenerateCrc(command: Bytes): (r: Bytes)
    ensures |r| == 8 && AllUpperHex(r)
    ensures HexValue(r) == Crc32.Crc32(command)
  {
    UpperHexOfValue(Crc32.Crc32(command), CRC_BYTES);
    ToUpper(Hexlify(ToBytesBE(Crc32.Crc32(command), CRC_BYTES)))
  }

  function GenerateCommand(cmdId: int, write: bool, params: Bytes): Bytes
  {
    var commandType := if write then WRITE_SYMBOL else READ_SYMBOL;
    var header := CMD_PREFIX + [commandType] + ZFill(Str(cmdId), 2);
    var withoutCrc := header + params;
    withoutCrc + [SPACE] + GenerateCrc(withoutCrc) + [CR]
  }

  /** Frames end in \r, not in the declared TERMINATOR, and carry the CRC of
      everything before the final space. */
  lemma GenerateCommandEndsWithCr(cmdId: int, write: bool, params: Bytes)
    ensures var f := GenerateCommand(cmdId, write, params);
            |f| >= 16 && f[|f| - 1] == CR && f[|f| - 1] != TERMINATOR
            && f[|f| - 10] == SPACE && f[|f| - 9..|f| - 1] == GenerateCrc(f[..|f| - 10])
  {
    var commandType := if write then WRITE_SYMBOL else READ_SYMBOL;
    var withoutCrc := CMD_PREFIX + [commandType] + ZFill(Str(cmdId), 2) + params;
    var c := GenerateCrc(withoutCrc);
    var f := GenerateCommand(cmdId, write, params);
    assert f == withoutCrc + [SPACE] + c + [CR];
    FrameTail(withoutCrc, c);
    assert f[..|f| - 10] == withoutCrc;
    assert GenerateCrc(f[..|f| - 10]) == c;
  }

  // -----------------------------------------------------------------------
  // parse_response

  /** What parse_response returns: (None, None) or (status, body). */
  datatype Reply = NoneNone | Pair(status: Bytes, body: Bytes)

  /** Tuple unpacking of a one-element split raises ValueError. */
  datatype UnpackError = NotEnoughValues

  /** parse_response, as written: rsplit at the last space, split the
      WHOLE response at the first '+', and compare the CRC of the part
      before the last space with the bytes after it. */
  function ParseResponse(response: Bytes): (r: Result<Reply, UnpackError>)
  {
    var crcParts := RSplit1(response, SPACE);
    if |crcParts| != 2 then Failure(NotEnoughValues)
    else
      var statusParts := Split1(response, PLUS);
      if |statusParts| != 2 then Failure(NotEnoughValues)
      else if GenerateCrc(crcParts[0]) != crcParts[1] then Success(NoneNone)
      else Success(Pair(statusParts[0], statusParts[1]))
  }

  /** Unpacking fails exactly when there is no space or no '+'. */
  lemma ParseFailsIff(response: Bytes)
    ensures ParseResponse(response).Failure? <==> SPACE !in response || PLUS !in response
  {
  }

  /** With the last space at i and some '+', the answer is (None, None)
      exactly when the bytes after i are not the CRC of the bytes before;
      otherwise it is the split of the whole response at its first '+'. */
  lemma ParseResponseOutcome(response: Bytes, i: nat, p: nat)
    requires i < |response| && response[i] == SPACE
    requires forall j :: i < j < |response| ==> response[j] != SPACE
    requires p < |response| && response[p] == PLUS
    requires forall j :: 0 <= j < p ==> response[j] != PLUS
    ensures ParseResponse(response) == Success(NoneNone)
        <==> GenerateCrc(response[..i]) != response[i + 1..]
    ensures GenerateCrc(response[..i]) == response[i + 1..]
        ==> ParseResponse(response) == Success(Pair(response[..p], response[p + 1..]))
  {
    assert LastIndex(response, SPACE) == Some(i);
    assert FirstIndex(response, PLUS) == Some(p);
  }

  /** A response whose last byte is not an upper-case hex digit (a \r or \n
      terminator, say) is always answered with (None, None). */
  lemma TerminatedResponseIsNone(response: Bytes)
    requires SPACE in response && PLUS in response
    requires |response| > 0 && !IsUpperHexDigit(response[|response| - 1])
    ensures ParseResponse(response) == Success(NoneNone)
  {
    var i := LastIndex(response, SPACE).value;
    var p := FirstIndex(response, PLUS).value;
    var sent := response[i + 1..];
    if |sent| == 8 {
      assert sent[7] == response[|response| - 1];
    }
    ParseResponseOutcome(response, i, p);
  }

  /** STATUS+BODY, a space and the CRC of STATUS+BODY. */
  function UnterminatedFrame(status: Bytes, body: Bytes): Bytes
  {
    var withoutCrc := status + [PLUS] + body;
    withoutCrc + [SPACE] + GenerateCrc(withoutCrc)
  }

  /** Upper-case hex digits hold neither of the separators. */
  lemma NoSeparators(c: Bytes)
    requires AllUpperHex(c)
    ensures SPACE !in c && PLUS !in c
  {
  }

  /** A frame sent without a terminator, with no '+' in its status, comes
      back as (status, body + " " + crc): the body keeps the CRC suffix. */
  lemma UnterminatedFrameParses(status: Bytes, body: Bytes)
    requires PLUS !in status
    ensures var crc := GenerateCrc(status + [PLUS] + body);
            ParseResponse(UnterminatedFrame(status, body)) == Success(Pair(status, body + [SPACE] + crc))
  {
    var w := status + [PLUS] + body;
    NoSeparators(GenerateCrc(w));
    CrcFrameParses(status, body, GenerateCrc(w));
  }

  /** The split points of STATUS+BODY, a space and c, when c holds no space. */
  lemma CrcFrameParses(status: Bytes, body: Bytes, c: Bytes)
    requires PLUS !in status && SPACE !in c
    ensures ParseResponse(status + [PLUS] + body + [SPACE] + c)
         == Success(if GenerateCrc(status + [PLUS] + body) != c then NoneNone
                    else Pair(status, body + [SPACE] + c))
  {
    var w := status + [PLUS] + body;
    var f := w + [SPACE] + c;
    RSplit1Join(w, SPACE, c);
    assert f == status + [PLUS] + (body + [SPACE] + c);
    Split1Join(status, PLUS, body + [SPACE] + c);
  }

  /** The same frame closed with \r, as the device sends it, yields
      (None, None). */
  lemma TerminatedFrameIsNone(status: Bytes, body: Bytes)
    ensures ParseResponse(UnterminatedFrame(status, body) + [CR]) == Success(NoneNone)
  {
    var w := status + [PLUS] + body;
    var c := GenerateCrc(w);
    var f := w + [SPACE] + c + [CR];
    NoSeparators(c);
    assert SPACE !in c + [CR];
    assert f == w + [SPACE] + (c + [CR]);
    RSplit1Join(w, SPACE, c + [CR]);
    assert f[|status|] == PLUS;
  }

  /** parse_response as its comments describe it: drop one trailing \r, take
      the CRC after the last space, and split only the part before it at
      the first '+'. */
  function ParseResponseIntended(response: Bytes): (r: Result<Reply, UnpackError>)
    ensures r.Success? && r.value.Pair? ==>
              var w := r.value.status + [PLUS] + r.value.body;
              w + [SPACE] + GenerateCrc(w) == StripCr(response)
    ensures r.Failure? <==> SPACE !in StripCr(response) || PLUS !in RSplit1(StripCr(response), SPACE)[0]
  {
    var frame := StripCr(response);
    var crcParts := RSplit1(frame, SPACE);
    if |crcParts| != 2 then Failure(NotEnoughValues)
    else
      var statusParts := Split1(crcParts[0], PLUS);
      if |statusParts| != 2 then Failure(NotEnoughValues)
      else if GenerateCrc(crcParts[0]) != crcParts[1] then Success(NoneNone)
      else Success(Pair(statusParts[0], statusParts[1]))
  }

  /** The response with one trailing \r removed. */
  function StripCr(response: Bytes): Bytes
  {
    if |response| > 0 && response[|response| - 1] == CR then response[..|response| - 1] else response
  }

  /** Corrected, the parser recovers status and body from a terminated frame. */
  lemma IntendedRoundTrip(status: Bytes, body: Bytes)
    requires PLUS !in status
    ensures ParseResponseIntended(UnterminatedFrame(status, body) + [CR]) == Success(Pair(status, body))
  {
    var w := status + [PLUS] + body;
    var c := GenerateCrc(w);
    var u := w + [SPACE] + c;
    assert StripCr(u + [CR]) == u;
    NoSeparators(c);
    RSplit1Join(w, SPACE, c);
    Split1Join(status, PLUS, body);
  }
}
