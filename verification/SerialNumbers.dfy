/**
 Certificate serials: generation (`src/ca/serial.rs`) and the hexadecimal and
 decimal texts the database, OCSP, CRL and Intune see (`src/http/scep.rs`).
 */
module SerialNumbers {
  import opened Wrappers
  import opened Asn1

  // ----- hexadecimal text -----

  function HexDigit(n: nat): char
    requires n < 16
  {
    if n < 10 then '0' + n as char else 'a' + (n - 10) as char
  }

  function HexValue(c: char): Option<nat> {
    if '0' <= c <= '9' then Some(c as int - '0' as int)
    else if 'a' <= c <= 'f' then Some(c as int - 'a' as int + 10)
    else if 'A' <= c <= 'F' then Some(c as int - 'A' as int + 10)
    else None
  }

  function HexEncode(b: bytes): string {
    if b == [] then "" else [HexDigit(b[0] / 16), HexDigit(b[0] % 16)] + HexEncode(b[1..])
  }

  /** `hex::encode_upper` */
  function HexEncodeUpper(b: bytes): string {
    var s := HexEncode(b);
    seq(|s|, i requires 0 <= i < |s| => Upper(s[i]))
  }

  function Upper(c: char): char { if 'a' <= c <= 'f' then ('A' as int + c as int - 'a' as int) as char else c }

  function HexDecode(s: string): Option<bytes> {
    if s == "" then Some([])
    else if |s| == 1 then None
    else
      var high :- HexValue(s[0]);
      var low :- HexValue(s[1]);
      var rest :- HexDecode(s[2..]);
      if high < 16 && low < 16 then Some([high * 16 + low] + rest) else None
  }

  /** Stored hexadecimal text always decodes to the octets it was made from. */
  lemma {:induction false} HexRoundTrip(b: bytes)
    ensures HexDecode(HexEncode(b)) == Some(b)
  {
    if b != [] {
      HexRoundTrip(b[1..]);
      assert HexEncode(b)[2..] == HexEncode(b[1..]);
      assert b == [b[0]] + b[1..];
    }
  }

  /** Two digits an octet, lower-case. */
  lemma {:induction false} HexDigits(b: bytes)
    ensures |HexEncode(b)| == 2 * |b|
    ensures forall i :: 0 <= i < |HexEncode(b)| ==> '0' <= HexEncode(b)[i] <= '9' || 'a' <= HexEncode(b)[i] <= 'f'
  {
    if b != [] { HexDigits(b[1..]); }
  }

  lemma UpperDigit(n: nat)
    requires n < 16
    ensures HexValue(Upper(HexDigit(n))) == Some(n)
  {
  }

  /** The upper-case text decodes to the same octets. */
  lemma {:induction false} HexUpperRoundTrip(b: bytes)
    ensures HexDecode(HexEncodeUpper(b)) == Some(b)
  {
    if b != [] {
      HexUpperRoundTrip(b[1..]);
      var s, t := HexEncodeUpper(b), HexEncodeUpper(b[1..]);
      assert HexEncode(b)[2..] == HexEncode(b[1..]);
      assert s[2..] == t;
      UpperDigit(b[0] / 16);
      UpperDigit(b[0] % 16);
      assert b == [b[0]] + b[1..];
    }
  }

  /** Its digits are upper-case where the stored text's are lower-case. */
  lemma HexUpperDigits(b: bytes)
    ensures forall i :: 0 <= i < |HexEncodeUpper(b)| ==>
      '0' <= HexEncodeUpper(b)[i] <= '9' || 'A' <= HexEncodeUpper(b)[i] <= 'F'
  {
    HexDigits(b);
  }

  lemma HexInjective(a: bytes, b: bytes)
    requires HexEncode(a) == HexEncode(b)
    ensures a == b
  {
    HexRoundTrip(a);
    HexRoundTrip(b);
  }

  // ----- numeric value and decimal text -----

  function BigEndian(b: bytes): nat {
    if b == [] then 0 else BigEndian(b[..|b| - 1]) * 0x100 + b[|b| - 1]
  }

  function Decimal(n: nat): string {
    if n < 10 then ['0' + n as char] else Decimal(n / 10) + ['0' + (n % 10) as char]
  }

  function DecimalValue(s: string): nat
    requires forall i :: 0 <= i < |s| ==> '0' <= s[i] <= '9'
  {
    if s == "" then 0 else DecimalValue(s[..|s| - 1]) * 10 + (s[|s| - 1] as int - '0' as int)
  }

  /** The decimal text denotes the number and has no leading zero. */
  lemma {:induction false} DecimalDenotes(n: nat)
    ensures Decimal(n) != "" && forall i :: 0 <= i < |Decimal(n)| ==> '0' <= Decimal(n)[i] <= '9'
    ensures DecimalValue(Decimal(n)) == n
    ensures n > 0 ==> Decimal(n)[0] != '0'
  {
    if n >= 10 {
      DecimalDenotes(n / 10);
      assert Decimal(n)[..|Decimal(n)| - 1] == Decimal(n / 10);
    } else {
      assert Decimal(n)[..0] == "";
    }
  }

  function Pow256(k: nat): nat {
    if k == 0 then 1 else Pow256(k - 1) * 0x100
  }

  lemma {:induction false} BigEndianBelow(b: bytes)
    ensures BigEndian(b) < Pow256(|b|)
  {
    if b != [] {
      BigEndianBelow(b[..|b| - 1]);
    }
  }

  lemma {:induction false} Pow256Monotone(j: nat, k: nat)
    requires j <= k
    ensures Pow256(j) <= Pow256(k)
  {
    if j < k {
      Pow256Monotone(j, k - 1);
    }
  }

  lemma {:induction false} BigEndianInjective(a: bytes, b: bytes)
    requires |a| == |b| && BigEndian(a) == BigEndian(b)
    ensures a == b
  {
    if a != [] {
      BigEndianInjective(a[..|a| - 1], b[..|b| - 1]);
      assert a == a[..|a| - 1] + [a[|a| - 1]] && b == b[..|b| - 1] + [b[|b| - 1]];
    }
  }

  const U128: nat := 0x1_0000_0000_0000_0000_0000_0000_0000_0000

  lemma U128IsSixteenOctets()
    ensures Pow256(16) == U128
  {
    assert Pow256(4) == 0x1_0000_0000;
    assert Pow256(8) == 0x1_0000_0000_0000_0000;
    assert Pow256(12) == 0x1_0000_0000_0000_0000_0000_0000;
  }

  /** `serial_decimal`: a shift-and-or loop in 128 bits, and hexadecimal for longer serials. */
  method SerialDecimal(serial: bytes) returns (r: string)
    ensures r == if |serial| <= 16 then Decimal(BigEndian(serial)) else HexEncode(serial)
  {
    if |serial| <= 16 {
      var v: nat := 0;
      U128IsSixteenOctets();
      for i := 0 to |serial|
        invariant v == BigEndian(serial[..i])
      {
        BigEndianBelow(serial[..i]);
        assert serial[..i + 1][..i] == serial[..i];
        BigEndianBelow(serial[..i + 1]);
        Pow256Monotone(i + 1, 16);
        // the eight bits shifted in are zero, so the or is an addition
        v := v * 0x100 % U128 + serial[i];
      }
      assert serial[..|serial|] == serial;
      r := Decimal(v);
    } else {
      r := HexEncode(serial);
    }
  }

  // ----- generation -----

  /** What `random_serial` makes of sixteen random octets. */
  function SerialFrom(random: bytes): Serial
    requires |random| == 16
  {
    var first := random[0] % 0x80;
    [if first == 0 then 1 else first] + random[1..]
  }

  /** `random_serial`: clears the top bit of the first octet and avoids a zero one, in place. */
  method RandomSerial(random: bytes) returns (serial: Serial)
    requires |random| == 16
    ensures serial == SerialFrom(random)
  {
    var buffer := new byte[16](i requires 0 <= i < 16 => random[i]);
    assert buffer[..] == random;
    buffer[0] := buffer[0] % 0x80;
    if buffer[0] == 0 {
      buffer[0] := 1;
    }
    assert buffer[1..] == random[1..];
    assert buffer[..] == [buffer[0]] + buffer[1..];
    serial := buffer[..];
  }

  function StripZeros(b: bytes): bytes {
    if |b| > 1 && b[0] == 0 then StripZeros(b[1..]) else b
  }

  /** `SerialNumber::new`: an unsigned number as a positive INTEGER within the cap. */
  function SerialNew(b: bytes): Option<Serial> {
    var stripped := StripZeros(b);
    if stripped == [] then None
    else
      var content := if stripped[0] >= 0x80 then [0] + stripped else stripped;
      if CanonicalInteger(content) && StrictSerial(content) then Some(content) else None
  }

  /**
   Any other unsigned octets: the serial has the same value in canonical,
   non-negative form; refused are none at all and those beyond 20 octets.
   */
  lemma SerialNewExactly(b: bytes)
    ensures SerialNew(b).Some? ==>
      && BigEndian(SerialNew(b).value) == BigEndian(b) && SerialNew(b).value[0] < 0x80
      && CanonicalInteger(SerialNew(b).value) && |SerialNew(b).value| <= 20
    ensures SerialNew(b).None? <==> b == [] || BigEndian(b) >= Pow256(20) / 2
  {
    if b != [] {
      StrippedValue(b);
      var t := StripZeros(b);
      LeadingZero(t);
      SizeOfValue(t);
    }
  }

  lemma {:induction false} StrippedValue(b: bytes)
    requires b != []
    ensures StripZeros(b) != [] && BigEndian(StripZeros(b)) == BigEndian(b)
    ensures |StripZeros(b)| > 1 ==> StripZeros(b)[0] != 0
  {
    if |b| > 1 && b[0] == 0 {
      LeadingZero(b[1..]);
      assert b == [0] + b[1..];
      StrippedValue(b[1..]);
    }
  }

  lemma {:induction false} LeadingZero(b: bytes)
    ensures BigEndian([0] + b) == BigEndian(b)
  {
    var z := [0] + b;
    if b == [] {
      assert z[..0] == [];
    } else {
      assert z[..|z| - 1] == [0] + b[..|b| - 1];
      LeadingZero(b[..|b| - 1]);
    }
  }

  /** Twenty octets without the sign bit hold exactly the values below half of 256 to the 20. */
  lemma SizeOfValue(t: bytes)
    requires t != [] && (|t| > 1 ==> t[0] != 0)
    ensures BigEndian(t) < Pow256(20) / 2 <==> |t| < 20 || (|t| == 20 && t[0] < 0x80)
  {
    var k := |t| - 1;
    LeadingOctet(t, k);
    assert Pow256(20) == Pow256(19) * 0x100;
    if k < 19 {
      BigEndianBelow(t);
      Pow256Monotone(k + 1, 19);
    } else if k > 19 {
      Pow256Monotone(20, k);
      AtLeast(t[0], Pow256(k), BigEndian(t));
    } else {
      HalfBound(t[0], Pow256(19), BigEndian(t));
    }
  }

  lemma AtLeast(b: nat, p: nat, v: nat)
    requires b >= 1 && b * p <= v
    ensures p <= v
  {
    assert b * p >= p by { assert b * p == p + (b - 1) * p; }
  }

  lemma HalfBound(b: nat, p: nat, v: nat)
    requires p > 0 && b * p <= v < (b + 1) * p
    ensures v < 0x80 * p <==> b < 0x80
    ensures p * 0x100 / 2 == 0x80 * p
  {
    if b < 0x80 { assert (b + 1) * p <= 0x80 * p; } else { assert b * p >= 0x80 * p; }
  }

  /** A serial this server issues. */
  ghost predicate IssuedSerial(s: bytes) { |s| == 16 && 1 <= s[0] < 0x80 }

  /**
   Every sixteen random octets give a positive canonical serial, below 2^127 and
   above 2^120, that the strict type accepts unchanged. Of the random octets
   fifteen are kept, and of the first its low seven bits unless they are zero.
   */
  lemma SerialIsCanonical(random: bytes)
    requires |random| == 16
    ensures var s := SerialFrom(random);
      && IssuedSerial(s) && CanonicalInteger(s) && StrictSerial(s)
      && SerialNew(s) == Some(s)
      && s[1..] == random[1..] && s[0] as int == (if random[0] as int in {0x00, 0x80} then 1 else random[0] % 0x80)
      && Pow256(15) <= BigEndian(s) < U128 / 2
  {
    var s := SerialFrom(random);
    LeadingOctet(s, 15);
    U128IsSixteenOctets();
  }

  lemma ScaledBounds(b: nat, p: nat, v: nat, low: byte)
    requires b * p <= v < (b + 1) * p
    ensures b * (p * 0x100) <= v * 0x100 + low as int < (b + 1) * (p * 0x100)
  {
    assert b * (p * 0x100) == b * p * 0x100;
    assert (b + 1) * (p * 0x100) == (b + 1) * p * 0x100;
  }

  /** The leading octet bounds the value on both sides. */
  lemma {:induction false} LeadingOctet(s: bytes, k: nat)
    requires |s| == k + 1
    ensures s[0] * Pow256(k) <= BigEndian(s) < (s[0] as int + 1) * Pow256(k)
  {
    if k == 0 {
      assert s[..0] == [];
    } else {
      LeadingOctet(s[..k], k - 1);
      ScaledBounds(s[0], Pow256(k - 1), BigEndian(s[..k]), s[k]);
    }
  }

  /**
   The lookup chain: from a serial to its stored text and back, unchanged and
   injective, so no two serials share a database key.
   */
  lemma SerialChain(s: bytes, t: bytes)
    requires IssuedSerial(s) && IssuedSerial(t)
    ensures HexDecode(HexEncode(s)) == Some(s) && SerialNew(s) == Some(s)
    ensures HexEncode(s) == HexEncode(t) <==> s == t
    ensures Decimal(BigEndian(s)) == Decimal(BigEndian(t)) <==> s == t
  {
    HexRoundTrip(s);
    HexRoundTrip(t);
    DecimalDenotes(BigEndian(s));
    DecimalDenotes(BigEndian(t));
    if BigEndian(s) == BigEndian(t) {
      BigEndianInjective(s, t);
    }
  }
}
