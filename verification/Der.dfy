/**
 Distinguished encoding of tag/length/value triples: single-octet tags and
 definite, minimal lengths (section 10.1 of ITU-T X.690) of at most four length
 octets. Structured values are sequences of such triples, so a SEQUENCE or SET
 is read by splitting its content and matching the list of fields.
 */
module Der {
  import opened Wrappers

  /** Largest encoding the `der` crate produces or accepts (u32 lengths). */
  const MAX_LEN: nat := 0xFFFF_FFFF

  const BIT_STRING: Tag := 0x03
  const BOOLEAN: Tag := 0x01
  const INTEGER: Tag := 0x02
  const OCTET_STRING: Tag := 0x04
  const NULL: Tag := 0x05
  const OID: Tag := 0x06
  const UTF8_STRING: Tag := 0x0C
  const PRINTABLE_STRING: Tag := 0x13
  const IA5_STRING: Tag := 0x16
  const SEQUENCE: Tag := 0x30
  const SET: Tag := 0x31
  /** Context-specific `[n]`, primitive and constructed. */
  const CONTEXT_0: Tag := 0x80
  const CONTEXT_0_CONSTRUCTED: Tag := 0xA0
  const CONTEXT_1_CONSTRUCTED: Tag := 0xA1

  /** Tags the decoder knows: the listed universal ones, and every other class in low-tag-number form. */
  predicate KnownTag(t: int) {
    || 1 <= t <= 6 || t == 9 || t == 10 || t == 12
    || 18 <= t <= 24 || t == 26 || t == 30 || t == 48 || t == 49
    || (0x40 <= t < 0x100 && t % 32 != 31)
  }

  /** The universal tags the decoder knows, by their numbers, constructed ones with bit 6 set. */
  lemma KnownTagExactly(t: int)
    ensures KnownTag(t) <==>
      || t in {1, 2, 3, 4, 5, 6, 9, 10, 12, 18, 19, 20, 21, 22, 23, 24, 26, 30, 48, 49}
      || (64 <= t <= 255 && t % 32 != 31)
  {
  }

  type Tag = t: byte | KnownTag(t) witness 5

  /** One tag/length/value triple, the content kept raw. */
  datatype Any = Any(tag: Tag, value: bytes)

  /** Minimal length octets. A length no u32 holds becomes the reserved octet 0xFF, which no decoder accepts. */
  function LengthOctets(n: nat): (r: bytes)
    ensures 1 <= |r| <= 5
  {
    if n < 0x80 then [n]
    else if n < 0x100 then [0x81, n]
    else if n < 0x1_0000 then [0x82, n / 0x100, n % 0x100]
    else if n < 0x100_0000 then [0x83, n / 0x100 / 0x100, n / 0x100 % 0x100, n % 0x100]
    else if n <= MAX_LEN then
      [0x84, n / 0x100 / 0x100 / 0x100, n / 0x100 / 0x100 % 0x100, n / 0x100 % 0x100, n % 0x100]
    else [0xFF]
  }

  function EncodeAny(a: Any): (r: bytes)
    ensures |r| >= |a.value| + 2
  {
    [a.tag] + LengthOctets(|a.value|) + a.value
  }

  function EncodeAll(anys: seq<Any>): bytes {
    if anys == [] then [] else EncodeAny(anys[0]) + EncodeAll(anys[1..])
  }

  /** Shifts one more octet into a big-endian number. */
  function Append(high: nat, low: byte): (r: nat)
    ensures r / 0x100 == high && r % 0x100 == low
  {
    high * 0x100 + low
  }

  /** Reads length octets: the length and how many octets it took. Indefinite and non-minimal forms are rejected. */
  function DecodeLength(b: bytes): (r: Option<(nat, nat)>)
    ensures r.Some? ==> 1 <= r.value.1 <= |b|
  {
    if |b| >= 1 && b[0] < 0x80 then Some((b[0], 1))
    else if |b| >= 2 && b[0] == 0x81 && b[1] >= 0x80 then Some((b[1], 2))
    else if |b| >= 3 && b[0] == 0x82 && b[1] > 0 then Some((Append(b[1], b[2]), 3))
    else if |b| >= 4 && b[0] == 0x83 && b[1] > 0 then Some((Append(Append(b[1], b[2]), b[3]), 4))
    else if |b| >= 5 && b[0] == 0x84 && b[1] > 0 then
      Some((Append(Append(Append(b[1], b[2]), b[3]), b[4]), 5))
    else None
  }

  /** Reads one triple from the front; returns it with what is left. */
  function DecodeAny(b: bytes): (r: Option<(Any, bytes)>)
    ensures r.Some? ==> |r.value.1| < |b|
  {
    if b == [] || !KnownTag(b[0]) then None
    else
      var (n, k) :- DecodeLength(b[1..]);
      if 1 + k + n > |b| then None
      else Some((Any(b[0], b[1 + k..1 + k + n]), b[1 + k + n..]))
  }

  function DecodeAll(b: bytes): Option<seq<Any>>
    decreases |b|
  {
    if b == [] then Some([])
    else
      var (a, rest) :- DecodeAny(b);
      var more :- DecodeAll(rest);
      Some([a] + more)
  }

  /** `from_der`: one triple and nothing after it. */
  function DecodeOnly(b: bytes): Option<Any> {
    var (a, rest) :- DecodeAny(b);
    if rest == [] then Some(a) else None
  }

  /** The content length is one the length octets can state. */
  predicate Fits(a: Any) { |a.value| <= MAX_LEN }

  // ----- lengths -----

  lemma LengthRoundTrip(n: nat, rest: bytes)
    requires n <= MAX_LEN
    ensures DecodeLength(LengthOctets(n) + rest) == Some((n, |LengthOctets(n)|))
  {
  }

  /** Lengths reach exactly as far as four octets do. */
  lemma LengthsReach(n: nat)
    ensures DecodeLength(LengthOctets(n)) == if n < 0x1_0000_0000 then Some((n, |LengthOctets(n)|)) else None
  {
    if n < 0x1_0000_0000 {
      LengthRoundTrip(n, []);
      assert LengthOctets(n) + [] == LengthOctets(n);
    }
  }

  lemma LengthCanonical(b: bytes)
    requires DecodeLength(b).Some?
    ensures DecodeLength(b).value.0 <= MAX_LEN
    ensures b[..DecodeLength(b).value.1] == LengthOctets(DecodeLength(b).value.0)
  {
  }

  lemma AnySize(a: Any)
    ensures |EncodeAny(a)| <= |a.value| + 6
  {
  }

  lemma OneMore(k: nat, m: nat)
    ensures (k + 1) * m == k * m + m
  {
  }

  /** A list of triples with contents of at most `n` octets. */
  lemma {:induction false} StructSize(fields: seq<Any>, n: nat)
    requires forall i :: 0 <= i < |fields| ==> |fields[i].value| <= n
    ensures |EncodeAll(fields)| <= |fields| * (n + 6)
  {
    if fields != [] {
      var k := |fields| - 1;
      AnySize(fields[0]);
      StructSize(fields[1..], n);
      OneMore(k, n + 6);
    }
  }

  lemma AtMostEight(k: nat, m: nat)
    requires k <= 8
    ensures k * m <= 8 * m
  {
  }

  lemma AnyMonotone(a: Any, b: Any)
    requires |a.value| <= |b.value| <= MAX_LEN
    ensures |EncodeAny(a)| <= |EncodeAny(b)|
  {
  }

  lemma {:induction false} AllMonotone(xs: seq<Any>, ys: seq<Any>)
    requires |xs| == |ys|
    requires forall i :: 0 <= i < |xs| ==> |EncodeAny(xs[i])| <= |EncodeAny(ys[i])|
    ensures |EncodeAll(xs)| <= |EncodeAll(ys)|
  {
    if xs != [] { AllMonotone(xs[1..], ys[1..]); }
  }

  // ----- one triple -----

  /** Printing then reading returns the triple and leaves exactly what followed it. */
  lemma AnyRoundTrip(a: Any, rest: bytes)
    requires Fits(a)
    ensures DecodeAny(EncodeAny(a) + rest) == Some((a, rest))
  {
    var n, l := |a.value|, LengthOctets(|a.value|);
    var b := EncodeAny(a) + rest;
    LengthRoundTrip(n, a.value + rest);
    assert b[1..] == l + (a.value + rest);
    assert b[1 + |l|..1 + |l| + n] == a.value;
    assert b[1 + |l| + n..] == rest;
  }

  /** Whatever is read was the only encoding of what it was read as. */
  lemma AnyCanonical(b: bytes)
    requires DecodeAny(b).Some?
    ensures b == EncodeAny(DecodeAny(b).value.0) + DecodeAny(b).value.1
    ensures |DecodeAny(b).value.0.value| <= MAX_LEN
  {
    var (n, k) := DecodeLength(b[1..]).value;
    LengthCanonical(b[1..]);
    assert b == [b[0]] + b[1..][..k] + b[1 + k..1 + k + n] + b[1 + k + n..];
  }

  /** No encoding is a proper prefix of another: concatenations split in one way. */
  lemma AnyPrefixFree(a: Any, b: Any, s: bytes, t: bytes)
    requires EncodeAny(a) + s == EncodeAny(b) + t
    requires Fits(a) && Fits(b)
    ensures a == b && s == t
  {
    AnyRoundTrip(a, s);
    AnyRoundTrip(b, t);
  }

  /** Equal encodings carry equal contents, even where the length is beyond what lengths can state. */
  lemma SameContent(a: Any, b: Any)
    requires EncodeAny(a) == EncodeAny(b)
    ensures a == b
  {
    var x, y := EncodeAny(a), EncodeAny(b);
    assert x[0] == a.tag && y[0] == b.tag;
    assert x[1] == LengthOctets(|a.value|)[0] && y[1] == LengthOctets(|b.value|)[0];
    assert |a.value| == |b.value|;
    assert x[|x| - |a.value|..] == a.value && y[|y| - |b.value|..] == b.value;
  }

  // ----- lists of triples -----

  lemma {:induction false} PartsAreSmall(anys: seq<Any>, i: nat)
    requires i < |anys|
    ensures |EncodeAny(anys[i])| <= |EncodeAll(anys)|
  {
    if i > 0 {
      PartsAreSmall(anys[1..], i - 1);
    }
  }

  lemma PartsFit(anys: seq<Any>)
    requires |EncodeAll(anys)| <= MAX_LEN
    ensures forall i :: 0 <= i < |anys| ==> Fits(anys[i])
  {
    forall i | 0 <= i < |anys| ensures Fits(anys[i]) {
      PartsAreSmall(anys, i);
    }
  }

  /** A list of triples is recovered from its concatenated encodings. */
  lemma {:induction false} AllRoundTrip(anys: seq<Any>)
    requires |EncodeAll(anys)| <= MAX_LEN
    ensures DecodeAll(EncodeAll(anys)) == Some(anys)
  {
    if anys == [] {
    } else {
      PartsAreSmall(anys, 0);
      AllRoundTrip(anys[1..]);
      AnyRoundTrip(anys[0], EncodeAll(anys[1..]));
      assert [anys[0]] + anys[1..] == anys;
    }
  }

  /** Reading is injective too: accepted content re-encodes to itself. */
  lemma {:induction false} AllCanonical(b: bytes)
    requires DecodeAll(b).Some?
    ensures EncodeAll(DecodeAll(b).value) == b
    decreases |b|
  {
    if b == [] {
    } else {
      AnyCanonical(b);
      AllCanonical(DecodeAny(b).value.1);
    }
  }

  lemma OnlyRoundTrip(a: Any)
    requires Fits(a)
    ensures DecodeOnly(EncodeAny(a)) == Some(a)
  {
    AnyRoundTrip(a, []);
    assert EncodeAny(a) + [] == EncodeAny(a);
  }

  lemma OnlyCanonical(b: bytes)
    requires DecodeOnly(b).Some?
    ensures EncodeAny(DecodeOnly(b).value) == b && Fits(DecodeOnly(b).value)
  {
    AnyCanonical(b);
  }

  /** A structured triple: its fields come back and each fits where the whole did. */
  lemma FieldsRoundTrip(fields: seq<Any>)
    requires |EncodeAll(fields)| <= MAX_LEN
    ensures DecodeAll(EncodeAll(fields)) == Some(fields)
    ensures forall i :: 0 <= i < |fields| ==> Fits(fields[i])
  {
    AllRoundTrip(fields);
    PartsFit(fields);
  }
}
