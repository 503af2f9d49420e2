/** How the two copies of the protocol relate: they render checksums and
    build request frames identically, and differ in their hex renderer and
    their parser. */
module Variants {
  import opened Results
  import opened ByteCodec
  import SubsystemApi
  import SubsystemApi2

  /** Both copies of generate_crc compute the same eight characters. */
  lemma SameCrc(command: Bytes)
    ensures SubsystemApi2.GenerateCrc(command) == SubsystemApi.GenerateCrc(command)
  {
  }

  /** Both copies of generate_command build the same frame. */
  lemma SameCommand(cmdId: int, write: bool, params: Bytes)
    ensures SubsystemApi2.GenerateCommand(cmdId, write, params) == SubsystemApi.GenerateCommand(cmdId, write, params)
  {
    var dir := if write then SubsystemApi.WRITE_SYMBOL else SubsystemApi.READ_SYMBOL;
    var withoutCrc := SubsystemApi.CMD_PREFIX + [dir] + ZFill(Str(cmdId), 2) + params;
    SameCrc(withoutCrc);
  }

  /** Where int2hex is asked for an even width the two renderers agree;
      for an odd width convert_int_to_hex keeps the digit int2hex drops. */
  lemma RenderersCompared(value: nat, n: nat)
    requires 1 <= CeilHalf(n) && value < Pow(256, CeilHalf(n))
    ensures var r1 := SubsystemApi.Int2Hex(value, n);
            var r2 := SubsystemApi2.ConvertIntToHex(value, n);
            r1.Success? && r2.Success?
            && (n % 2 == 0 ==> r1.value == r2.value)
            && (n % 2 != 0 ==> r1.value == r2.value[1..])
  {
    var k := CeilHalf(n);
    SubsystemApi.Int2HexInRange(value, n);
    UpperHexOfValue(value, k);
    assert IntToBytes(value, k) == Success(ToBytesBE(value, k));
  }
}
