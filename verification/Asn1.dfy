/**
 The ASN.1 types the server reads and writes: object identifiers, algorithm
 identifiers, certificates and the CMS ContentInfo. Each has a printer to one
 DER triple and a reader back.
 */
module Asn1 {
  import opened Wrappers
  import opened Der

  // ----- object identifiers (content octets) -----

  /** Non-empty, at most 39 octets, every sub-identifier minimal and complete. */
  predicate ValidOid(b: bytes) {
    && 0 < |b| <= 39
    && b[|b| - 1] < 0x80
    && (forall i :: 0 <= i < |b| && b[i] == 0x80 ==> i > 0 && b[i - 1] >= 0x80)
  }

  type Oid = b: bytes | ValidOid(b) witness [0x2A]

  const ID_DATA: Oid := [0x2A, 0x86, 0x48, 0x86, 0xF7, 0x0D, 0x01, 0x07, 0x01]
  const ID_SIGNED_DATA: Oid := [0x2A, 0x86, 0x48, 0x86, 0xF7, 0x0D, 0x01, 0x07, 0x02]
  const ID_ENVELOPED_DATA: Oid := [0x2A, 0x86, 0x48, 0x86, 0xF7, 0x0D, 0x01, 0x07, 0x03]
  const RSA_ENCRYPTION: Oid := [0x2A, 0x86, 0x48, 0x86, 0xF7, 0x0D, 0x01, 0x01, 0x01]
  const SHA256_WITH_RSA: Oid := [0x2A, 0x86, 0x48, 0x86, 0xF7, 0x0D, 0x01, 0x01, 0x0B]
  const ID_SHA1: Oid := [0x2B, 0x0E, 0x03, 0x02, 0x1A]
  const ID_SHA256: Oid := [0x60, 0x86, 0x48, 0x01, 0x65, 0x03, 0x04, 0x02, 0x01]
  const ID_AES_128_CBC: Oid := [0x60, 0x86, 0x48, 0x01, 0x65, 0x03, 0x04, 0x01, 0x02]
  const ID_AES_192_CBC: Oid := [0x60, 0x86, 0x48, 0x01, 0x65, 0x03, 0x04, 0x01, 0x16]
  const ID_AES_256_CBC: Oid := [0x60, 0x86, 0x48, 0x01, 0x65, 0x03, 0x04, 0x01, 0x2A]
  const ID_DES_EDE3_CBC: Oid := [0x2A, 0x86, 0x48, 0x86, 0xF7, 0x0D, 0x03, 0x07]
  const ID_DES_CBC: Oid := [0x2B, 0x0E, 0x03, 0x02, 0x07]
  const ID_CE_SUBJECT_KEY_IDENTIFIER: Oid := [0x55, 0x1D, 0x0E]

  // ----- helpers -----

  function Struct(fields: seq<Any>): Any { Any(SEQUENCE, EncodeAll(fields)) }

  function Fields(a: Any, tag: Tag): Option<seq<Any>> {
    if a.tag == tag then DecodeAll(a.value) else None
  }

  lemma FieldsOfStruct(tag: Tag, fields: seq<Any>)
    requires Fits(Any(tag, EncodeAll(fields)))
    ensures Fields(Any(tag, EncodeAll(fields)), tag) == Some(fields)
    ensures forall i :: 0 <= i < |fields| ==> Fits(fields[i])
  {
    FieldsRoundTrip(fields);
  }

  function EncodeOptional(tag: Tag, value: Option<bytes>): seq<Any> {
    match value
    case Some(v) => [Any(tag, v)]
    case None => []
  }

  /** An OPTIONAL field: taken when the next field carries its tag. */
  function TakeOptional(fields: seq<Any>, tag: Tag): (Option<bytes>, seq<Any>) {
    if fields != [] && fields[0].tag == tag then (Some(fields[0].value), fields[1..])
    else (None, fields)
  }

  /** An optional field is recovered when what follows cannot be mistaken for it. */
  lemma OptionalRoundTrip(tag: Tag, value: Option<bytes>, rest: seq<Any>)
    requires rest != [] ==> rest[0].tag != tag
    ensures TakeOptional(EncodeOptional(tag, value) + rest, tag) == (value, rest)
  {
    match value
    case Some(v) => assert ([Any(tag, v)] + rest)[1..] == rest;
    case None => assert [] + rest == rest;
  }

  /** INTEGER content: non-empty and without a redundant leading octet. */
  predicate CanonicalInteger(b: bytes) {
    && b != []
    && (|b| > 1 ==> !(b[0] == 0 && b[1] < 0x80) && !(b[0] == 0xFF && b[1] >= 0x80))
  }

  /** A serial number of any length (the `Raw` profile). */
  type Serial = b: bytes | CanonicalInteger(b) witness [1]

  /** The cap of the strict serial type (section 4.1.2.2 of RFC 5280). */
  const STRICT_SERIAL_OCTETS: nat := 20

  predicate StrictSerial(s: Serial) { |s| <= STRICT_SERIAL_OCTETS }

  // ----- AlgorithmIdentifier -----

  datatype Algorithm = Algorithm(oid: Oid, parameters: Option<Any>)

  function AlgorithmToAny(a: Algorithm): Any {
    Struct([Any(OID, a.oid)] + if a.parameters.Some? then [a.parameters.value] else [])
  }

  function AlgorithmFromAny(a: Any): Option<Algorithm> {
    var f :- Fields(a, SEQUENCE);
    if !(1 <= |f| <= 2) || f[0].tag != OID || !ValidOid(f[0].value) then None
    else Some(Algorithm(f[0].value, if |f| == 2 then Some(f[1]) else None))
  }

  lemma AlgorithmRoundTrip(a: Algorithm)
    requires Fits(AlgorithmToAny(a))
    ensures AlgorithmFromAny(AlgorithmToAny(a)) == Some(a)
  {
    FieldsOfStruct(SEQUENCE, [Any(OID, a.oid)] + if a.parameters.Some? then [a.parameters.value] else []);
  }

  // ----- names and certificates -----

  /** A distinguished name, its RDN sequence kept as raw octets. */
  datatype Name = Name(rdns: bytes)

  function NameToAny(n: Name): Any { Any(SEQUENCE, n.rdns) }

  /** BIT STRING content: a count of unused bits, then the bits. */
  type BitString = b: bytes | b != [] && b[0] <= 7 witness [0]

  /** A certificate; the parts the server never looks into are raw octets. */
  datatype Certificate = Certificate(
    version: Option<bytes>, serial: Serial, signatureAlg: bytes, issuer: Name, validity: bytes,
    subject: Name, keyAlg: bytes, keyBits: BitString, extensions: Option<bytes>,
    outerAlg: bytes, signature: BitString)
  {
    function PublicKey(): bytes { keyBits[1..] }
  }

  const EXTENSIONS: Tag := 0xA3

  function KeyInfoToAny(c: Certificate): Any {
    Struct([Any(SEQUENCE, c.keyAlg), Any(BIT_STRING, c.keyBits)])
  }

  function TbsFields(c: Certificate): seq<Any> {
    [Any(INTEGER, c.serial), Any(SEQUENCE, c.signatureAlg), NameToAny(c.issuer),
     Any(SEQUENCE, c.validity), NameToAny(c.subject), KeyInfoToAny(c)]
  }

  function TbsToAny(c: Certificate): Any {
    Struct(EncodeOptional(CONTEXT_0_CONSTRUCTED, c.version)
           + (TbsFields(c) + EncodeOptional(EXTENSIONS, c.extensions)))
  }

  function CertificateToAny(c: Certificate): Any {
    Struct([TbsToAny(c), Any(SEQUENCE, c.outerAlg), Any(BIT_STRING, c.signature)])
  }

  predicate IsBitString(a: Any) { a.tag == BIT_STRING && a.value != [] && a.value[0] <= 7 }

  function KeyInfoFromAny(a: Any): Option<(bytes, BitString)> {
    var f :- Fields(a, SEQUENCE);
    if |f| != 2 || f[0].tag != SEQUENCE || !IsBitString(f[1]) then None
    else Some((f[0].value, f[1].value))
  }

  /** The TBSCertificate fields, read in order; the outer parts complete the certificate. */
  function TbsFromFields(tbs: seq<Any>, outerAlg: bytes, signature: BitString): Option<Certificate> {
    var (version, f) := TakeOptional(tbs, CONTEXT_0_CONSTRUCTED);
    if |f| < 6 || f[0].tag != INTEGER || !CanonicalInteger(f[0].value)
       || f[1].tag != SEQUENCE || f[2].tag != SEQUENCE || f[3].tag != SEQUENCE || f[4].tag != SEQUENCE then None
    else
      var (keyAlg, keyBits) :- KeyInfoFromAny(f[5]);
      var (extensions, rest) := TakeOptional(f[6..], EXTENSIONS);
      if rest != [] then None
      else Some(Certificate(version, f[0].value, f[1].value, Name(f[2].value), f[3].value,
                            Name(f[4].value), keyAlg, keyBits, extensions, outerAlg, signature))
  }

  /** Reads a certificate without the 20-octet serial cap. */
  function CertificateFromAny(a: Any): Option<Certificate> {
    var top :- Fields(a, SEQUENCE);
    if |top| != 3 || top[1].tag != SEQUENCE || !IsBitString(top[2]) then None
    else
      var tbs :- Fields(top[0], SEQUENCE);
      TbsFromFields(tbs, top[1].value, top[2].value)
  }

  lemma KeyInfoRoundTrip(c: Certificate)
    requires Fits(KeyInfoToAny(c))
    ensures KeyInfoFromAny(KeyInfoToAny(c)) == Some((c.keyAlg, c.keyBits))
  {
    FieldsOfStruct(SEQUENCE, [Any(SEQUENCE, c.keyAlg), Any(BIT_STRING, c.keyBits)]);
  }

  /** A certificate of any serial length survives printing and relaxed reading. */
  lemma CertificateRoundTrip(c: Certificate)
    requires Fits(CertificateToAny(c))
    ensures CertificateFromAny(CertificateToAny(c)) == Some(c)
  {
    FieldsOfStruct(SEQUENCE, [TbsToAny(c), Any(SEQUENCE, c.outerAlg), Any(BIT_STRING, c.signature)]);
    assert Fits(TbsToAny(c)) by {
      assert [TbsToAny(c), Any(SEQUENCE, c.outerAlg), Any(BIT_STRING, c.signature)][0] == TbsToAny(c);
    }
    var tail := TbsFields(c) + EncodeOptional(EXTENSIONS, c.extensions);
    var tbs := EncodeOptional(CONTEXT_0_CONSTRUCTED, c.version) + tail;
    FieldsOfStruct(SEQUENCE, tbs);
    OptionalRoundTrip(CONTEXT_0_CONSTRUCTED, c.version, tail);
    OptionalRoundTrip(EXTENSIONS, c.extensions, []);
    assert tail[6..] == EncodeOptional(EXTENSIONS, c.extensions) + [];
    assert tbs[|tbs| - |tail| + 5] == KeyInfoToAny(c);
    KeyInfoRoundTrip(c);
  }

  lemma FieldsCanonical(a: Any, tag: Tag)
    requires Fields(a, tag).Some?
    ensures a == Any(tag, EncodeAll(Fields(a, tag).value))
  {
    AllCanonical(a.value);
  }

  lemma OptionalCanonical(fields: seq<Any>, tag: Tag)
    ensures var (value, rest) := TakeOptional(fields, tag);
      fields == EncodeOptional(tag, value) + rest
  {
  }

  lemma KeyInfoCanonical(a: Any)
    requires KeyInfoFromAny(a).Some?
    ensures var (keyAlg, keyBits) := KeyInfoFromAny(a).value;
      a == Struct([Any(SEQUENCE, keyAlg), Any(BIT_STRING, keyBits)])
  {
    FieldsCanonical(a, SEQUENCE);
    var (keyAlg, keyBits) := KeyInfoFromAny(a).value;
    assert Fields(a, SEQUENCE).value == [Any(SEQUENCE, keyAlg), Any(BIT_STRING, keyBits)];
  }

  lemma TbsCanonical(tbs: seq<Any>, outerAlg: bytes, signature: BitString)
    requires TbsFromFields(tbs, outerAlg, signature).Some?
    ensures var c := TbsFromFields(tbs, outerAlg, signature).value;
      tbs == EncodeOptional(CONTEXT_0_CONSTRUCTED, c.version) +
        (TbsFields(c) + EncodeOptional(EXTENSIONS, c.extensions))
  {
    var c := TbsFromFields(tbs, outerAlg, signature).value;
    var f := TakeOptional(tbs, CONTEXT_0_CONSTRUCTED).1;
    OptionalCanonical(tbs, CONTEXT_0_CONSTRUCTED);
    OptionalCanonical(f[6..], EXTENSIONS);
    KeyInfoCanonical(f[5]);
    assert f[..6] == TbsFields(c);
    assert f == f[..6] + f[6..];
  }

  /** Reading loses nothing: the certificate prints back to the triple it was read from. */
  lemma CertificateCanonical(a: Any)
    requires CertificateFromAny(a).Some?
    ensures CertificateToAny(CertificateFromAny(a).value) == a
  {
    var c := CertificateFromAny(a).value;
    var top := Fields(a, SEQUENCE).value;
    FieldsCanonical(a, SEQUENCE);
    FieldsCanonical(top[0], SEQUENCE);
    TbsCanonical(Fields(top[0], SEQUENCE).value, top[1].value, top[2].value);
    assert top == [TbsToAny(c), Any(SEQUENCE, c.outerAlg), Any(BIT_STRING, c.signature)];
  }

  /** `Certificate::from_der`, which caps the serial. */
  function StrictCertificate(der: bytes): Option<Certificate> {
    var a :- DecodeOnly(der);
    var c :- CertificateFromAny(a);
    if StrictSerial(c.serial) then Some(c) else None
  }

  function CertificateDer(c: Certificate): bytes { EncodeAny(CertificateToAny(c)) }

  /** A certificate is read exactly from its DER, and exactly within the cap of 20 octets. */
  lemma StrictCertificateExactly(c: Certificate, der: bytes)
    requires Fits(CertificateToAny(c))
    ensures StrictCertificate(der) == Some(c) <==> der == CertificateDer(c) && |c.serial| <= 20
  {
    OnlyRoundTrip(CertificateToAny(c));
    CertificateRoundTrip(c);
    if StrictCertificate(der) == Some(c) {
      OnlyCanonical(der);
      CertificateCanonical(DecodeOnly(der).value);
    }
  }

  // ----- subject key identifier -----

  /** An extension: identifier, optional criticality, value octets. */
  function ExtensionValue(a: Any): Option<(Oid, bytes)> {
    var f :- Fields(a, SEQUENCE);
    if |f| < 2 || f[0].tag != OID || !ValidOid(f[0].value) then None
    else
      var (critical, rest) := TakeOptional(f[1..], BOOLEAN);
      if |rest| == 1 && rest[0].tag == OCTET_STRING then Some((f[0].value, rest[0].value)) else None
  }

  function KeyIdentifiers(extensions: seq<Any>): seq<bytes> {
    if extensions == [] then []
    else
      var e := ExtensionValue(extensions[0]);
      (if e.Some? && e.value.0 == ID_CE_SUBJECT_KEY_IDENTIFIER then [e.value.1] else [])
      + KeyIdentifiers(extensions[1..])
  }

  /** The certificate's subject key identifier, when it carries exactly one. */
  function SubjectKeyIdentifier(c: Certificate): Option<bytes> {
    var raw :- c.extensions;
    var outer :- DecodeOnly(raw);
    var extensions :- Fields(outer, SEQUENCE);
    var ids := KeyIdentifiers(extensions);
    if |ids| != 1 then None
    else
      var id :- DecodeOnly(ids[0]);
      if id.tag == OCTET_STRING then Some(id.value) else None
  }

  /** An extension as a certificate carries it (section 4.1 of RFC 5280); its criticality as it stands. */
  datatype Extension = Extension(oid: Oid, critical: Option<bytes>, value: bytes)

  function ExtensionToAny(x: Extension): Any {
    Struct([Any(0x06, x.oid)] + (EncodeOptional(0x01, x.critical) + [Any(0x04, x.value)]))
  }

  function ExtensionAnys(xs: seq<Extension>): (r: seq<Any>)
    ensures |r| == |xs|
  {
    seq(|xs|, i requires 0 <= i < |xs| => ExtensionToAny(xs[i]))
  }

  lemma ExtensionReads(x: Extension)
    requires Fits(ExtensionToAny(x))
    ensures ExtensionValue(ExtensionToAny(x)) == Some((x.oid, x.value))
  {
    var f := [Any(0x06, x.oid)] + (EncodeOptional(0x01, x.critical) + [Any(0x04, x.value)]);
    FieldsOfStruct(SEQUENCE, f);
    assert f[1..] == EncodeOptional(0x01, x.critical) + [Any(0x04, x.value)];
    OptionalRoundTrip(0x01, x.critical, [Any(0x04, x.value)]);
  }

  /** The values of the extensions that are subject key identifiers, 2.5.29.14. */
  function KeyIdentifierValues(xs: seq<Extension>): seq<bytes> {
    if xs == [] then []
    else (if xs[0].oid == [0x55, 0x1D, 0x0E] then [xs[0].value] else []) + KeyIdentifierValues(xs[1..])
  }

  lemma {:induction false} KeyIdentifiersRead(xs: seq<Extension>)
    requires forall i :: 0 <= i < |xs| ==> Fits(ExtensionToAny(xs[i]))
    ensures KeyIdentifiers(ExtensionAnys(xs)) == KeyIdentifierValues(xs)
  {
    if xs != [] {
      ExtensionReads(xs[0]);
      KeyIdentifiersRead(xs[1..]);
      assert ExtensionAnys(xs)[1..] == ExtensionAnys(xs[1..]);
    }
  }

  /**
   The subject key identifier of a certificate is the octets of its one such
   extension, wherever that stands; with none or several there is none.
   */
  lemma SubjectKeyIdentifierExactly(c: Certificate, xs: seq<Extension>, id: bytes)
    requires c.extensions == Some(EncodeAny(Struct(ExtensionAnys(xs)))) && Fits(Struct(ExtensionAnys(xs)))
    ensures KeyIdentifierValues(xs) == [EncodeAny(Any(0x04, id))] ==> SubjectKeyIdentifier(c) == Some(id)
    ensures |KeyIdentifierValues(xs)| != 1 ==> SubjectKeyIdentifier(c) == None
    ensures SubjectKeyIdentifier(c) == Some(id) ==> KeyIdentifierValues(xs) == [EncodeAny(Any(0x04, id))]
  {
    var anys, ids := ExtensionAnys(xs), KeyIdentifierValues(xs);
    OnlyRoundTrip(Struct(anys));
    FieldsOfStruct(SEQUENCE, anys);
    assert forall i :: 0 <= i < |xs| ==> anys[i] == ExtensionToAny(xs[i]);
    KeyIdentifiersRead(xs);
    if ids == [EncodeAny(Any(0x04, id))] {
      KeyIdentifierFits(xs, EncodeAny(Any(0x04, id)));
      OnlyRoundTrip(Any(0x04, id));
    }
    if SubjectKeyIdentifier(c) == Some(id) { OnlyCanonical(ids[0]); }
  }

  /** An extension's value is no longer than the extension. */
  lemma {:induction false} KeyIdentifierFits(xs: seq<Extension>, value: bytes)
    requires forall i :: 0 <= i < |xs| ==> Fits(ExtensionToAny(xs[i]))
    requires value in KeyIdentifierValues(xs)
    ensures |value| <= MAX_LEN
  {
    if xs[0].oid == [0x55, 0x1D, 0x0E] && value == xs[0].value {
      var f := [Any(0x06, xs[0].oid)] + (EncodeOptional(0x01, xs[0].critical) + [Any(0x04, value)]);
      PartsAreSmall(f, |f| - 1);
    } else {
      KeyIdentifierFits(xs[1..], value);
    }
  }

  // ----- ContentInfo -----

  function ContentInfoToAny(contentType: Oid, content: Any): Any {
    Struct([Any(OID, contentType), Any(CONTEXT_0_CONSTRUCTED, EncodeAny(content))])
  }

  function ContentInfoFromAny(a: Any): Option<(Oid, Any)> {
    var f :- Fields(a, SEQUENCE);
    if |f| != 2 || f[0].tag != OID || !ValidOid(f[0].value) || f[1].tag != CONTEXT_0_CONSTRUCTED then None
    else
      var content :- DecodeOnly(f[1].value);
      Some((f[0].value, content))
  }

  lemma ContentInfoRoundTrip(contentType: Oid, content: Any)
    requires Fits(ContentInfoToAny(contentType, content))
    ensures ContentInfoFromAny(ContentInfoToAny(contentType, content)) == Some((contentType, content))
    ensures Fits(content)
  {
    var wrapped := Any(CONTEXT_0_CONSTRUCTED, EncodeAny(content));
    FieldsOfStruct(SEQUENCE, [Any(OID, contentType), wrapped]);
    assert Fits(wrapped) by { assert [Any(OID, contentType), wrapped][1] == wrapped; }
    OnlyRoundTrip(content);
  }

  /** Printing a whole message: refused when longer than the encoder's lengths reach. */
  function ToDer(a: Any): Result<bytes> {
    if |EncodeAny(a)| <= MAX_LEN then Ok(EncodeAny(a)) else Err(CryptoError)
  }

  lemma FitsOfToDer(a: Any)
    requires ToDer(a).Ok?
    ensures Fits(a)
  {
  }

  /** A certificate of parts of at most `n` octets. */
  lemma CertificateSize(c: Certificate, n: nat)
    requires n >= 100 && (c.version.Some? ==> |c.version.value| <= n) && |c.serial| <= n && |c.signatureAlg| <= n
    requires |c.issuer.rdns| <= n && |c.validity| <= n && |c.subject.rdns| <= n && |c.keyAlg| <= n && |c.keyBits| <= n
    requires (c.extensions.Some? ==> |c.extensions.value| <= n) && |c.outerAlg| <= n && |c.signature| <= n
    ensures |CertificateDer(c)| <= 100 * n
  {
    StructSize([Any(SEQUENCE, c.keyAlg), Any(BIT_STRING, c.keyBits)], n);
    var tbs := EncodeOptional(CONTEXT_0_CONSTRUCTED, c.version) +
      (TbsFields(c) + EncodeOptional(EXTENSIONS, c.extensions));
    forall i | 0 <= i < |tbs| ensures |tbs[i].value| <= 2 * n + 12 {
      TbsPart(c, n, tbs, i);
    }
    StructSize(tbs, 2 * n + 12);
    assert |tbs| <= 8;
    AtMostEight(|tbs|, 2 * n + 18);
    StructSize([TbsToAny(c), Any(SEQUENCE, c.outerAlg), Any(BIT_STRING, c.signature)], 16 * n + 144);
    AnySize(CertificateToAny(c));
  }

  lemma TbsPart(c: Certificate, n: nat, tbs: seq<Any>, i: nat)
    requires tbs == EncodeOptional(CONTEXT_0_CONSTRUCTED, c.version) +
      (TbsFields(c) + EncodeOptional(EXTENSIONS, c.extensions))
    requires (c.version.Some? ==> |c.version.value| <= n) && |c.serial| <= n && |c.signatureAlg| <= n
    requires |c.issuer.rdns| <= n && |c.validity| <= n && |c.subject.rdns| <= n && |KeyInfoToAny(c).value| <= 2 * n + 12
    requires c.extensions.Some? ==> |c.extensions.value| <= n
    requires i < |tbs|
    ensures |tbs[i].value| <= 2 * n + 12 && |tbs| <= 8
  {
    var v := |EncodeOptional(CONTEXT_0_CONSTRUCTED, c.version)|;
    if v <= i < v + 6 { assert tbs[i] == TbsFields(c)[i - v]; }
  }
}
