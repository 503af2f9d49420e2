/** The Python built-ins the protocol code leans on, stated over byte
    sequences: int.to_bytes(n, "big"), binascii.hexlify, bytes.upper,
    str(int).zfill, int(s, 16) and the one-split forms of bytes.split and
    bytes.rsplit.  Hexadecimal text is Base16 as in section 8 of RFC 4648. */
module ByteCodec {
  import opened Results

  type byte = x: int | 0 <= x < 256
  type Bytes = seq<byte>

  const LF: byte := 0x0A      // '\n'
  const CR: byte := 0x0D      // '\r'
  const SPACE: byte := 0x20   // ' '
  const PLUS: byte := 0x2B    // '+'
  const MINUS: byte := 0x2D   // '-'
  const ZERO: byte := 0x30    // '0'

  function Pow(b: nat, e: nat): (r: nat)
    ensures b > 0 ==> r > 0
  {
    if e == 0 then 1 else b * Pow(b, e - 1)
  }

  lemma {:induction false} Pow256IsPow16(k: nat)
    ensures Pow(256, k) == Pow(16, 2 * k)
  {
    if k > 0 {
      Pow256IsPow16(k - 1);
      assert Pow(16, 2 * k) == 16 * (16 * Pow(16, 2 * k - 2));
    }
  }

  /** math.ceil(n / 2): the fewest bytes that hold n hex digits. */
  function CeilHalf(n: int): (r: int)
    ensures n <= 2 * r <= n + 1
    ensures 2 * r == n <==> n % 2 == 0
  {
    (n + 1) / 2
  }

  lemma {:induction false} MulAtLeast(d: int, p: int)
    requires d >= 1 && p > 0
    ensures d * p >= p
  {
    if d > 1 {
      MulAtLeast(d - 1, p);
      assert d * p == (d - 1) * p + p;
    }
  }

  /** a % p == r whenever a == q * p + r with 0 <= r < p. */
  lemma ModOfSum(a: int, q: int, p: int, r: int)
    requires p > 0 && 0 <= r < p && a == q * p + r
    ensures a % p == r
  {
    var q', r' := a / p, a % p;
    assert a == q' * p + r';
    assert (q - q') * p == r' - r by {
      assert q * p - q' * p == (q - q') * p;
    }
    if q > q' {
      MulAtLeast(q - q', p);
    } else if q < q' {
      MulAtLeast(q' - q, p);
    }
  }

  // ---------------------------------------------------------------------
  // Hexadecimal digits

  predicate IsDecimalDigit(c: byte) { 0x30 <= c <= 0x39 }
  predicate IsUpperHexDigit(c: byte) { IsDecimalDigit(c) || 0x41 <= c <= 0x46 }
  predicate IsLowerHexDigit(c: byte) { IsDecimalDigit(c) || 0x61 <= c <= 0x66 }
  predicate IsHexDigit(c: byte) { IsUpperHexDigit(c) || IsLowerHexDigit(c) }

  predicate AllUpperHex(s: Bytes) { forall i :: 0 <= i < |s| ==> IsUpperHexDigit(s[i]) }
  predicate AllDecimal(s: Bytes) { forall i :: 0 <= i < |s| ==> IsDecimalDigit(s[i]) }
  predicate AllHex(s: Bytes) { forall i :: 0 <= i < |s| ==> IsHexDigit(s[i]) }

  /** The value of one hexadecimal digit, either case. */
  function DigitValue(c: byte): (v: nat)
    requires IsHexDigit(c)
    ensures v < 16
  {
    if IsDecimalDigit(c) then c - 0x30
    else if c <= 0x46 then c - 0x41 + 10
    else c - 0x61 + 10
  }

  /** The lower-case digit binascii.hexlify writes for a nibble. */
  function LowerDigit(v: nat): (c: byte)
    requires v < 16
    ensures IsLowerHexDigit(c) && DigitValue(c) == v
  {
    if v < 10 then 0x30 + v else 0x61 + v - 10
  }

  /** The big-endian value of a run of hexadecimal digits (int(s, 16)
      restricted to plain digits). */
  function HexValue(s: Bytes): (v: nat)
    requires AllHex(s)
  {
    if |s| == 0 then 0 else HexValue(s[..|s| - 1]) * 16 + DigitValue(s[|s| - 1])
  }

  lemma {:induction false} HexValueBound(s: Bytes)
    requires AllHex(s)
    ensures HexValue(s) < Pow(16, |s|)
  {
    if |s| > 0 {
      HexValueBound(s[..|s| - 1]);
    }
  }

  lemma ShiftWeight(d: int, p: int, x: int, y: int)
    ensures (d * p + x) * 16 + y == d * (16 * p) + (x * 16 + y)
  {
  }

  /** The leading digit of a run carries weight 16^(|s|-1). */
  lemma {:induction false} HexValueLeading(s: Bytes)
    requires AllHex(s) && |s| > 0
    ensures HexValue(s) == DigitValue(s[0]) * Pow(16, |s| - 1) + HexValue(s[1..])
  {
    if |s| == 1 {
      assert s[..0] == [] && s[1..] == [];
    } else {
      var init, last := s[..|s| - 1], DigitValue(s[|s| - 1]);
      var tail := s[1..];
      HexValueLeading(init);
      assert init[0] == s[0];
      assert init[1..] == tail[..|tail| - 1];
      assert HexValue(tail) == HexValue(init[1..]) * 16 + last;
      assert HexValue(s) == HexValue(init) * 16 + last;
      ShiftWeight(DigitValue(s[0]), Pow(16, |s| - 2), HexValue(init[1..]), last);
    }
  }

  /** A leading '0' adds nothing to the value. */
  lemma LeadingZeroDrop(s: Bytes)
    requires AllHex(s) && |s| > 0 && s[0] == ZERO
    ensures HexValue(s[1..]) == HexValue(s)
  {
    HexValueLeading(s);
    assert DigitValue(s[0]) == 0;
    assert DigitValue(s[0]) * Pow(16, |s| - 1) == 0;
  }

  /** A run of upper-case digits whose value is below 16^(|s|-1) starts
      with '0'. */
  lemma SmallValueLeadingZero(s: Bytes)
    requires AllUpperHex(s) && |s| > 0 && HexValue(s) < Pow(16, |s| - 1)
    ensures s[0] == ZERO
  {
    HexValueLeading(s);
    if DigitValue(s[0]) >= 1 {
      MulAtLeast(DigitValue(s[0]), Pow(16, |s| - 1));
    }
  }

  /** Dropping the leading digit keeps the value modulo 16^(|s|-1). */
  lemma DropLeadingDigit(s: Bytes)
    requires AllHex(s) && |s| > 0
    ensures HexValue(s[1..]) == HexValue(s) % Pow(16, |s| - 1)
  {
    HexValueLeading(s);
    HexValueBound(s[1..]);
    ModOfSum(HexValue(s), DigitValue(s[0]), Pow(16, |s| - 1), HexValue(s[1..]));
  }

  // ---------------------------------------------------------------------
  // int.to_bytes(length, byteorder="big") and int.from_bytes

  /** The unsigned big-endian value of a byte string (int.from_bytes). */
  function BigEndianValue(bs: Bytes): nat
  {
    if |bs| == 0 then 0 else BigEndianValue(bs[..|bs| - 1]) * 256 + bs[|bs| - 1]
  }

  function ToBytesBE(value: nat, length: nat): (bs: Bytes)
    requires value < Pow(256, length)
    ensures |bs| == length && BigEndianValue(bs) == value
  {
    if length == 0 then [] else
      var init := ToBytesBE(value / 256, length - 1);
      assert (init + [value % 256])[..length - 1] == init;
      init + [value % 256]
  }

  /** Why int.to_bytes raises: a negative length (ValueError) or a value
      that is negative or does not fit in the length (OverflowError). */
  datatype ToBytesError = NegativeLength | Overflow

  /** int.to_bytes(length, byteorder="big"); the length is checked first. */
  function IntToBytes(value: int, length: int): (r: Result<Bytes, ToBytesError>)
    ensures r.Success? <==> 0 <= length && 0 <= value < Pow(256, length)
    ensures r.Success? ==> |r.value| == length && BigEndianValue(r.value) == value
    ensures r == Failure(NegativeLength) <==> length < 0
  {
    if length < 0 then Failure(NegativeLength)
    else if value < 0 || value >= Pow(256, length) then Failure(Overflow)
    else Success(ToBytesBE(value, length))
  }

  // ---------------------------------------------------------------------
  // binascii.hexlify and bytes.upper

  /** binascii.hexlify: two lower-case digits per byte, high nibble first. */
  function Hexlify(bs: Bytes): (h: Bytes)
    ensures |h| == 2 * |bs|
    ensures forall i :: 0 <= i < |h| ==> IsLowerHexDigit(h[i])
  {
    if |bs| == 0 then [] else
      Hexlify(bs[..|bs| - 1]) + [LowerDigit(bs[|bs| - 1] / 16), LowerDigit(bs[|bs| - 1] % 16)]
  }

  lemma {:induction false} HexlifyValue(bs: Bytes)
    ensures AllHex(Hexlify(bs)) && HexValue(Hexlify(bs)) == BigEndianValue(bs)
  {
    if |bs| > 0 {
      var init, b := bs[..|bs| - 1], bs[|bs| - 1];
      HexlifyValue(init);
      var h := Hexlify(init);
      var full := h + [LowerDigit(b / 16), LowerDigit(b % 16)];
      assert full[..|full| - 1] == h + [LowerDigit(b / 16)];
      assert (h + [LowerDigit(b / 16)])[..|h|] == h;
    }
  }

  /** bytes.upper on one byte: only ASCII a-z change. */
  function UpperByte(c: byte): byte
  {
    if 0x61 <= c <= 0x7A then c - 0x20 else c
  }

  /** bytes.upper: no ASCII lower-case letter is left, each one becomes its
      capital, and every other byte is kept. */
  function ToUpper(s: Bytes): (u: Bytes)
    ensures |u| == |s|
    ensures forall i :: 0 <= i < |u| ==> !(0x61 <= u[i] <= 0x7A)
    ensures forall i :: 0 <= i < |s| && 0x61 <= s[i] <= 0x7A ==> u[i] == s[i] - 0x20
    ensures forall i :: 0 <= i < |s| && !(0x61 <= s[i] <= 0x7A) ==> u[i] == s[i]
  {
    seq(|s|, i requires 0 <= i < |s| => UpperByte(s[i]))
  }

  lemma {:induction false} ToUpperKeepsHexValue(s: Bytes)
    requires AllHex(s)
    ensures AllUpperHex(ToUpper(s)) && HexValue(ToUpper(s)) == HexValue(s)
  {
    if |s| > 0 {
      ToUpperKeepsHexValue(s[..|s| - 1]);
      assert ToUpper(s)[..|s| - 1] == ToUpper(s[..|s| - 1]);
    }
  }

  /** hexlify(value.to_bytes(length, "big")).upper() decodes back to value,
      has two digits per byte, and uses only 0-9 and A-F. */
  lemma UpperHexOfValue(value: nat, length: nat)
    requires value < Pow(256, length)
    ensures var h := ToUpper(Hexlify(ToBytesBE(value, length)));
      |h| == 2 * length && AllUpperHex(h) && HexValue(h) == value
  {
    var bs := ToBytesBE(value, length);
    HexlifyValue(bs);
    ToUpperKeepsHexValue(Hexlify(bs));
  }

  /** Python's s[i:] for i >= 0: empty once i passes the end. */
  function SliceFrom(s: Bytes, i: nat): (r: Bytes)
    ensures |r| == if i <= |s| then |s| - i else 0
    ensures i <= |s| ==> s[..i] + r == s
  {
    if i <= |s| then s[i..] else []
  }

  // ---------------------------------------------------------------------
  // str(int).zfill(width) and int(s, 16)

  /** The decimal digits of a natural number, without leading zeros. */
  function NatDigits(n: nat): (r: Bytes)
    ensures |r| >= 1 && AllDecimal(r)
  {
    if n < 10 then [ZERO + n] else NatDigits(n / 10) + [ZERO + n % 10]
  }

  /** The value of a run of decimal digits. */
  function DecimalValue(s: Bytes): nat
    requires AllDecimal(s)
  {
    if |s| == 0 then 0 else
      assert IsDecimalDigit(s[|s| - 1]);
      DecimalValue(s[..|s| - 1]) * 10 + (s[|s| - 1] - ZERO)
  }

  lemma {:induction false} NatDigitsValue(n: nat)
    ensures DecimalValue(NatDigits(n)) == n
    ensures |NatDigits(n)| == 1 <==> n < 10
    ensures n >= 10 ==> (|NatDigits(n)| == 2 <==> n < 100)
  {
    if n >= 10 {
      NatDigitsValue(n / 10);
      var d := NatDigits(n / 10);
      assert (d + [ZERO + n % 10])[..|d|] == d;
    }
  }

  /** str(n): a minus sign for negative numbers, then the digits. */
  function Str(n: int): (r: Bytes)
    ensures n >= 0 ==> AllDecimal(r) && DecimalValue(r) == n
    ensures n < 0 ==> |r| >= 2 && r[0] == MINUS && AllDecimal(r[1..]) && DecimalValue(r[1..]) == -n
  {
    if n < 0 then
      NatDigitsValue(-n);
      assert ([MINUS] + NatDigits(-n))[1..] == NatDigits(-n);
      [MINUS] + NatDigits(-n)
    else
      NatDigitsValue(n);
      NatDigits(n)
  }

  /** str.zfill(width): pad with '0' on the left, after a leading sign,
      up to width characters; longer strings are returned unchanged. */
  function ZFill(s: Bytes, width: nat): (r: Bytes)
    ensures |r| == if |s| >= width then |s| else width
    ensures |s| >= width ==> r == s
    ensures |s| < width && !(|s| > 0 && (s[0] == PLUS || s[0] == MINUS)) ==>
              r[width - |s|..] == s && forall i :: 0 <= i < width - |s| ==> r[i] == ZERO
    ensures |s| < width && |s| > 0 && (s[0] == PLUS || s[0] == MINUS) ==>
              r[0] == s[0] && r[width - |s| + 1..] == s[1..]
              && forall i :: 1 <= i <= width - |s| ==> r[i] == ZERO
  {
    if |s| >= width then s
    else
      var pad := seq(width - |s|, _ => ZERO);
      if |s| > 0 && (s[0] == PLUS || s[0] == MINUS) then [s[0]] + pad + s[1..]
      else pad + s
  }

  /** int(s, 16) for a run of hexadecimal digits in either case; None where
      Python raises ValueError. */
  function ParseHexInt(s: Bytes): (r: Option<nat>)
    ensures r.Some? <==> |s| > 0 && AllHex(s)
    ensures r.Some? ==> r.value == HexValue(s) && r.value < Pow(16, |s|)
  {
    if |s| > 0 && AllHex(s) then HexValueBound(s); Some(HexValue(s)) else None
  }

  // ---------------------------------------------------------------------
  // bytes.split(sep, 1) and bytes.rsplit(sep, 1)

  /** The index of the first occurrence of x in s. */
  function FirstIndex(s: Bytes, x: byte): (r: Option<nat>)
    ensures r.Some? ==>
              r.value < |s| && s[r.value] == x && forall j :: 0 <= j < r.value ==> s[j] != x
    ensures r.None? ==> forall j :: 0 <= j < |s| ==> s[j] != x
  {
    if |s| == 0 then None
    else if s[0] == x then Some(0)
    else match FirstIndex(s[1..], x)
      case None => None
      case Some(i) => Some(i + 1)
  }

  /** The index of the last occurrence of x in s. */
  function LastIndex(s: Bytes, x: byte): (r: Option<nat>)
    ensures r.Some? ==>
              r.value < |s| && s[r.value] == x && forall j :: r.value < j < |s| ==> s[j] != x
    ensures r.None? ==> forall j :: 0 <= j < |s| ==> s[j] != x
  {
    if |s| == 0 then None
    else if s[|s| - 1] == x then Some(|s| - 1)
    else LastIndex(s[..|s| - 1], x)
  }

  /** s.split(sep, 1): one part when sep is absent, else the parts before
      and after its first occurrence. */
  function Split1(s: Bytes, sep: byte): (parts: seq<Bytes>)
    ensures 1 <= |parts| <= 2
    ensures |parts| == 2 <==> sep in s
    ensures |parts| == 1 ==> parts[0] == s
    ensures |parts| == 2 ==> parts[0] + [sep] + parts[1] == s && sep !in parts[0]
  {
    match FirstIndex(s, sep)
    case None => [s]
    case Some(i) => [s[..i], s[i + 1..]]
  }

  /** s.rsplit(sep, 1): one part when sep is absent, else the parts before
      and after its last occurrence. */
  function RSplit1(s: Bytes, sep: byte): (parts: seq<Bytes>)
    ensures 1 <= |parts| <= 2
    ensures |parts| == 2 <==> sep in s
    ensures |parts| == 1 ==> parts[0] == s
    ensures |parts| == 2 ==> parts[0] + [sep] + parts[1] == s && sep !in parts[1]
  {
    match LastIndex(s, sep)
    case None => [s]
    case Some(i) => [s[..i], s[i + 1..]]
  }

  /** Splitting a join at its first separator gives the parts back. */
  lemma Split1Join(a: Bytes, sep: byte, b: Bytes)
    requires sep !in a
    ensures Split1(a + [sep] + b, sep) == [a, b]
  {
    var s := a + [sep] + b;
    assert s[|a|] == sep;
    assert FirstIndex(s, sep) == Some(|a|) by {
      forall j | 0 <= j < |a| ensures s[j] != sep {
        assert s[j] == a[j];
      }
    }
    assert s[..|a|] == a && s[|a| + 1..] == b;
  }

  /** Splitting a join at its last separator gives the parts back. */
  lemma RSplit1Join(a: Bytes, sep: byte, b: Bytes)
    requires sep !in b
    ensures RSplit1(a + [sep] + b, sep) == [a, b]
  {
    var s := a + [sep] + b;
    assert s[|a|] == sep;
    assert LastIndex(s, sep) == Some(|a|) by {
      forall j | |a| < j < |s| ensures s[j] != sep {
        assert s[j] == b[j - |a| - 1];
      }
    }
    assert s[..|a|] == a && s[|a| + 1..] == b;
  }

  /** The tail shared by every frame: a space, the checksum digits and \r
      after the bytes they cover. */
  lemma FrameTail(w: Bytes, c: Bytes)
    requires |c| == 8
    ensures var f := w + [SPACE] + c + [CR];
            |f| == |w| + 10 && f[|f| - 10] == SPACE && f[|f| - 1] == CR
            && f[..|f| - 10] == w && f[|f| - 9..|f| - 1] == c
  {
    var f := w + [SPACE] + c + [CR];
    assert f[..|w|] == w;
    assert f[|w| + 1..|w| + 9] == c;
  }
}
