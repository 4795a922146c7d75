/** Printing a signed SCEP message (`src/crypto/sign.rs`): a CMS SignedData with one signer. */
module Sign {
  import opened Wrappers
  import opened Der
  import opened Asn1
  import opened Primitives
  import opened Attributes
  import SetOf

  const CMS_V1: Any := Any(INTEGER, [1])

  const SHA256_ALG := Algorithm(ID_SHA256, Some(Any(NULL, [])))

  function ContentTypeAttribute(): Attribute { Attribute(ID_CONTENT_TYPE, [Any(OID, ID_DATA)]) }

  function DigestAttribute(p: Primitives, content: bytes): Attribute {
    Attribute(ID_MESSAGE_DIGEST, [Any(OCTET_STRING, p.hash(Sha256, content))])
  }

  /** What gets signed: the caller's attributes with the content type, and the digest when there is content. */
  function AttributeList(p: Primitives, content: Option<bytes>, attrs: seq<Attribute>): seq<Attribute> {
    match content
    case None => [ContentTypeAttribute()] + attrs
    case Some(data) => attrs + [DigestAttribute(p, data), ContentTypeAttribute()]
  }

  /** The octets under the signature (section 5.4 of RFC 5652): the attributes as an explicit SET OF. */
  function SignedOctets(attrs: seq<Attribute>): bytes { EncodeAny(Any(SET, EncodeAttributes(attrs))) }

  function ContentFields(content: Option<bytes>): seq<Any> {
    [Any(OID, ID_DATA)]
    + match content
      case None => []
      case Some(data) => [Any(CONTEXT_0_CONSTRUCTED, EncodeAny(Any(OCTET_STRING, data)))]
  }

  function SignerInfoFields(cert: Certificate, attrs: seq<Attribute>, signature: bytes): seq<Any> {
    [CMS_V1, Struct([NameToAny(cert.issuer), Any(INTEGER, cert.serial)]), AlgorithmToAny(SHA256_ALG),
     Any(CONTEXT_0_CONSTRUCTED, EncodeAttributes(attrs)),
     AlgorithmToAny(Algorithm(SHA256_WITH_RSA, Some(Any(NULL, [])))), Any(OCTET_STRING, signature)]
  }

  function SignedDataFields(cert: Certificate, content: Option<bytes>, attrs: seq<Attribute>,
                            signature: bytes): seq<Any> {
    [CMS_V1, Any(SET, EncodeAny(AlgorithmToAny(SHA256_ALG))), Struct(ContentFields(content)),
     Any(CONTEXT_0_CONSTRUCTED, EncodeAny(CertificateToAny(cert))),
     Any(SET, EncodeAny(Struct(SignerInfoFields(cert, attrs, signature))))]
  }

  /** The whole message for an attribute list: ordered, signed, printed. */
  function SignedMessage(p: Primitives, key: bytes, cert: Certificate, content: Option<bytes>,
                         list: seq<Attribute>): Result<bytes> {
    var sorted :- SetOf.FromSeq(list, AttributeDer).OkOr(CryptoError);
    var signature :- p.sign(key, SignedOctets(sorted)).OkOr(CryptoError);
    ToDer(ContentInfoToAny(ID_SIGNED_DATA, Struct(SignedDataFields(cert, content, sorted, signature))))
  }

  function SignedReply(p: Primitives, key: bytes, cert: Certificate, content: Option<bytes>,
                   attrs: seq<Attribute>): Result<bytes> {
    SignedMessage(p, key, cert, content, AttributeList(p, content, attrs))
  }

  /** The accumulator `SignerInfoBuilder`: the attributes added so far. */
  class SignerInfoBuilder {
    var attributes: seq<Attribute>

    constructor ()
      ensures attributes == []
    {
      attributes := [];
    }

    method AddSignedAttribute(a: Attribute)
      modifies this
      ensures attributes == old(attributes) + [a]
    {
      attributes := attributes + [a];
    }
  }

  /** `build_cert_rep`. */
  method BuildCertRep(p: Primitives, key: bytes, cert: Certificate, content: Option<bytes>,
                      attrs: seq<Attribute>) returns (r: Result<bytes>)
    ensures r == SignedReply(p, key, cert, content, attrs)
  {
    var signerInfo := new SignerInfoBuilder();
    if content.None? {
      signerInfo.AddSignedAttribute(ContentTypeAttribute());
    }
    for i := 0 to |attrs|
      invariant signerInfo.attributes ==
        (if content.None? then [ContentTypeAttribute()] else []) + attrs[..i]
    {
      signerInfo.AddSignedAttribute(attrs[i]);
    }
    if content.Some? {
      signerInfo.AddSignedAttribute(DigestAttribute(p, content.value));
      signerInfo.AddSignedAttribute(ContentTypeAttribute());
    }
    assert signerInfo.attributes == AttributeList(p, content, attrs);
    r := SignedMessage(p, key, cert, content, signerInfo.attributes);
  }

  /** The attributes a caller may pass: distinct identifiers, none of the two CMS ones, values in DER order. */
  ghost predicate ScepAttributes(attrs: seq<Attribute>) {
    && DistinctOids(attrs)
    && forall i :: 0 <= i < |attrs| ==>
         ValidAttribute(attrs[i]) && attrs[i].oid != ID_CONTENT_TYPE && attrs[i].oid != ID_MESSAGE_DIGEST
  }

  lemma AttributeListDistinct(p: Primitives, content: Option<bytes>, attrs: seq<Attribute>)
    requires ScepAttributes(attrs)
    ensures DistinctOids(AttributeList(p, content, attrs))
  {
    IdentifiersDiffer();
    match content
    case None => DistinctTogether([ContentTypeAttribute()], attrs);
    case Some(data) => DistinctTogether(attrs, [DigestAttribute(p, data), ContentTypeAttribute()]);
  }

  lemma DistinctTogether(own: seq<Attribute>, attrs: seq<Attribute>)
    requires DistinctOids(own) && DistinctOids(attrs)
    requires forall i, j :: 0 <= i < |own| && 0 <= j < |attrs| ==> own[i].oid != attrs[j].oid
    ensures DistinctOids(own + attrs)
  {
  }

  /** The message does not depend on the order the attributes were added in. */
  lemma CanonicalMessage(p: Primitives, key: bytes, cert: Certificate, content: Option<bytes>,
                         xs: seq<Attribute>, ys: seq<Attribute>)
    requires multiset(xs) == multiset(ys)
    ensures SignedReply(p, key, cert, content, xs) == SignedReply(p, key, cert, content, ys)
  {
    var a, b := AttributeList(p, content, xs), AttributeList(p, content, ys);
    assert multiset(a) == multiset(b);
    SetOf.InsertionOrderIrrelevant(a, b, AttributeDer);
  }

  // ----- when a message can be printed -----

  function MessageToAny(cert: Certificate, content: Option<bytes>, sorted: seq<Attribute>, signature: bytes): Any {
    ContentInfoToAny(ID_SIGNED_DATA, Struct(SignedDataFields(cert, content, sorted, signature)))
  }

  /** The key signs the attributes, and the message is no longer than lengths reach. */
  ghost predicate SignsAndFits(p: Primitives, key: bytes, cert: Certificate, content: Option<bytes>,
                               sorted: seq<Attribute>) {
    match p.sign(key, SignedOctets(sorted))
    case None => false
    case Some(signature) => |EncodeAny(MessageToAny(cert, content, sorted, signature))| <= MAX_LEN
  }

  /** Printing a SCEP message fails exactly when the signature fails or the message is too long. */
  lemma SignedExactly(p: Primitives, key: bytes, cert: Certificate, content: Option<bytes>, attrs: seq<Attribute>)
    returns (sorted: seq<Attribute>)
    requires ScepAttributes(attrs)
    ensures SetOf.FromSeq(AttributeList(p, content, attrs), AttributeDer) == Some(sorted)
    ensures multiset(sorted) == multiset(AttributeList(p, content, attrs))
    ensures SignedReply(p, key, cert, content, attrs).Ok? <==> SignsAndFits(p, key, cert, content, sorted)
  {
    var list := AttributeList(p, content, attrs);
    AttributeListDistinct(p, content, attrs);
    DistinctBuildsSet(list);
    SetOf.FromSeqOrdered(list, AttributeDer);
    sorted := SetOf.FromSeq(list, AttributeDer).value;
  }

  /** One value of at most `n` octets. */
  ghost predicate ShortAttribute(a: Attribute, n: nat) { |a.values| == 1 && |a.values[0].value| <= n }

  lemma AttributeSize(a: Attribute, n: nat)
    requires n >= 100 && ShortAttribute(a, n)
    ensures |AttributeToAny(a).value| <= 2 * n + 36
  {
    StructSize(a.values, n);
    StructSize([Any(OID, a.oid), Any(SET, EncodeAll(a.values))], n + 6);
  }

  /** Up to eight short attributes, in any order. */
  lemma AttributesSize(attrs: seq<Attribute>, n: nat)
    requires n >= 100 && |attrs| <= 8 && forall i :: 0 <= i < |attrs| ==> ShortAttribute(attrs[i], n)
    ensures |EncodeAttributes(attrs)| <= 20 * n
  {
    forall i | 0 <= i < |attrs| ensures |ToAnys(attrs)[i].value| <= 2 * n + 36 { AttributeSize(attrs[i], n); }
    StructSize(ToAnys(attrs), 2 * n + 36);
    AtMostEight(|attrs|, 2 * n + 42);
  }

  lemma SignerInfoSize(cert: Certificate, sorted: seq<Attribute>, signature: bytes, n: nat)
    requires n >= 100 && |EncodeAttributes(sorted)| <= 20 * n && |signature| <= n
    requires |cert.issuer.rdns| <= n && |cert.serial| <= n
    ensures |EncodeAll(SignerInfoFields(cert, sorted, signature))| <= 121 * n
  {
    var f := SignerInfoFields(cert, sorted, signature);
    var rsa, sha := [Any(OID, SHA256_WITH_RSA), Any(NULL, [])], [Any(OID, ID_SHA256), Any(NULL, [])];
    StructSize([NameToAny(cert.issuer), Any(INTEGER, cert.serial)], n);
    StructSize(rsa, 9);
    StructSize(sha, 9);
    assert f[2].value == EncodeAll(sha) && f[4].value == EncodeAll(rsa);
    StructSize(f, 20 * n);
  }

  lemma ContentSize(content: Option<bytes>, n: nat)
    requires n >= 100 && (content.Some? ==> |content.value| <= n)
    ensures |EncodeAll(ContentFields(content))| <= 2 * n + 30
  {
    match content
    case None => StructSize(ContentFields(content), 9);
    case Some(data) =>
      AnySize(Any(OCTET_STRING, data));
      StructSize(ContentFields(content), n + 6);
  }

  /** A message of parts of at most `n` octets, around content of at most 660 `n`, has at most 14000 `n`. */
  lemma MessageSize(cert: Certificate, content: Option<bytes>, sorted: seq<Attribute>, signature: bytes, n: nat)
    requires n >= 100 && |EncodeAttributes(sorted)| <= 20 * n && |signature| <= n
    requires |cert.issuer.rdns| <= n && |cert.serial| <= n && |CertificateDer(cert)| <= n
    requires content.Some? ==> |content.value| <= 660 * n
    ensures |EncodeAny(MessageToAny(cert, content, sorted, signature))| <= 14000 * n
  {
    var f := SignedDataFields(cert, content, sorted, signature);
    SignerInfoSize(cert, sorted, signature, n);
    ContentSize(content, 660 * n);
    AnySize(Struct(SignerInfoFields(cert, sorted, signature)));
    DigestAlgorithmSize();
    StructSize(f, 1321 * n);
    AnySize(Struct(f));
    StructSize([Any(OID, ID_SIGNED_DATA), Any(CONTEXT_0_CONSTRUCTED, EncodeAny(Struct(f)))], 6606 * n + 36);
    AnySize(MessageToAny(cert, content, sorted, signature));
  }

  lemma DigestAlgorithmSize()
    ensures |EncodeAny(AlgorithmToAny(SHA256_ALG))| <= 40
  {
    var sha := [Any(OID, ID_SHA256), Any(NULL, [])];
    StructSize(sha, 9);
    assert AlgorithmToAny(SHA256_ALG).value == EncodeAll(sha);
    AnySize(AlgorithmToAny(SHA256_ALG));
  }
}
