/**
 Reading and verifying a signed SCEP message (`src/crypto/verify.rs`) with the
 relaxed structures: the signer certificate without the serial cap, the signer
 identifier raw.
 */
module Verify {
  import opened Wrappers
  import opened Der
  import opened Asn1
  import opened Primitives
  import opened Attributes
  import opened Sign
  import opened Text
  import Envelope
  import SetOf

  datatype SignedData = SignedData(content: Option<bytes>, certificates: Option<bytes>, signerInfos: bytes)

  datatype SignerInfo = SignerInfo(digestAlg: Algorithm, signedAttrs: Option<seq<Attribute>>, signature: bytes)

  /** A message whose signature and digest check out: its attributes in DER order, its content, its signer. */
  datatype Verified = Verified(attrs: seq<Attribute>, content: Option<bytes>, signer: Certificate)

  datatype ParsedRequest = ParsedRequest(
    messageType: MessageType, transactionId: string, senderNonce: bytes,
    recipient: Envelope.Recipient, enveloped: Option<Envelope.EnvelopedData>)

  // ----- reading -----

  /** `EncapsulatedContentInfo`: an OBJECT IDENTIFIER and an optional explicitly tagged value. */
  function ContentFromAny(a: Any): Option<Option<bytes>> {
    var f :- Fields(a, SEQUENCE);
    if f == [] || f[0].tag != OID || !ValidOid(f[0].value) then None
    else if |f| == 1 then Some(None)
    else if |f| != 2 || f[1].tag != CONTEXT_0_CONSTRUCTED then None
    else
      var inner :- DecodeOnly(f[1].value);
      Some(Some(inner.value))
  }

  function SignedDataFromAny(a: Any): Option<SignedData> {
    var f :- Fields(a, SEQUENCE);
    if |f| < 4 then None
    else
      var content :- ContentFromAny(f[2]);
      var (certificates, g) := TakeOptional(f[3..], CONTEXT_0_CONSTRUCTED);
      var (crls, h) := TakeOptional(g, CONTEXT_1_CONSTRUCTED);
      if |h| == 1 then Some(SignedData(content, certificates, h[0].value)) else None
  }

  function AttributesOf(raw: Option<bytes>): Option<Option<seq<Attribute>>> {
    match raw
    case None => Some(None)
    case Some(content) =>
      var attrs :- DecodeAttributes(content);
      Some(Some(attrs))
  }

  function SignerInfoFromAny(a: Any): Option<SignerInfo> {
    var f :- Fields(a, SEQUENCE);
    if |f| < 3 then None
    else
      var digestAlg :- AlgorithmFromAny(f[2]);
      var (raw, g) := TakeOptional(f[3..], CONTEXT_0_CONSTRUCTED);
      var signedAttrs :- AttributesOf(raw);
      if |g| < 2 || g[1].tag != OCTET_STRING then None
      else
        var signatureAlg :- AlgorithmFromAny(g[0]);
        var (unsigned, rest) := TakeOptional(g[2..], CONTEXT_1_CONSTRUCTED);
        if rest == [] then Some(SignerInfo(digestAlg, signedAttrs, g[1].value)) else None
  }

  /** `decode_first`: the first triple of a container. */
  function DecodeFirst(container: bytes): Option<Any> {
    var (a, rest) :- DecodeAny(container);
    Some(a)
  }

  function HashOf(oid: Oid): Option<Hash> {
    if oid == ID_SHA256 then Some(Sha256) else if oid == ID_SHA1 then Some(Sha1) else None
  }

  /** The digest check, made only when the message carries content. */
  function CheckDigest(p: Primitives, h: Hash, attrs: seq<Attribute>, content: Option<bytes>): Result<()> {
    if content.None? then Ok(())
    else
      var claimed :- ReadOctets(attrs, ID_MESSAGE_DIGEST);
      if claimed == p.hash(h, content.value) then Ok(()) else Err(BadRequest)
  }

  /** Signature over the re-encoded attribute set, then the digest. */
  function CheckSigner(p: Primitives, signer: SignerInfo, cert: Certificate, content: Option<bytes>): Result<Verified> {
    var attrs :- signer.signedAttrs.OkOr(BadRequest);
    if !p.isRsaKey(cert.PublicKey()) then Err(CryptoError)
    else
      var signed :- ToDer(Any(SET, EncodeAttributes(attrs)));
      var h :- HashOf(signer.digestAlg.oid).OkOr(BadRequest);
      if !p.verifies(h, cert.PublicKey(), signed, signer.signature) then Err(BadRequest)
      else
        var _ :- CheckDigest(p, h, attrs, content);
        Ok(Verified(attrs, content, cert))
  }

  /** The first signer and the first certificate of a SignedData. */
  function ReadSigner(sd: SignedData): Result<(SignerInfo, Certificate)> {
    var first :- DecodeFirst(sd.signerInfos).OkOr(BadRequest);
    var signer :- SignerInfoFromAny(first).OkOr(BadRequest);
    var certs :- sd.certificates.OkOr(BadRequest);
    var firstCert :- DecodeFirst(certs).OkOr(BadRequest);
    var cert :- CertificateFromAny(firstCert).OkOr(BadRequest);
    Ok((signer, cert))
  }

  /** The decoding half: the signer, its certificate and the content. */
  function ReadMessage(der: bytes): Result<(SignerInfo, Certificate, Option<bytes>)> {
    var a :- DecodeOnly(der).OkOr(BadRequest);
    var (contentType, inner) :- ContentInfoFromAny(a).OkOr(BadRequest);
    if contentType != ID_SIGNED_DATA then Err(BadRequest)
    else
      var sd :- SignedDataFromAny(inner).OkOr(BadRequest);
      var (signer, cert) :- ReadSigner(sd);
      Ok((signer, cert, sd.content))
  }

  function VerifyMessage(p: Primitives, der: bytes): Result<Verified> {
    var (signer, cert, content) :- ReadMessage(der);
    CheckSigner(p, signer, cert, content)
  }

  /** Message types whose content is an envelope. */
  predicate Enveloping(t: MessageType) { t.PkcsReq? || t.RenewalReq? || t.CertRep? }

  /** The SCEP fields of a verified message. */
  function Extract(v: Verified): Result<ParsedRequest> {
    var typeText :- ReadString(v.attrs, ID_MESSAGE_TYPE);
    var messageType :- MessageTypeFromValue(typeText);
    var transactionId :- ReadString(v.attrs, ID_TRANSACTION_ID);
    var senderNonce :- ReadOctets(v.attrs, ID_SENDER_NONCE);
    var recipient := Envelope.Recipient(v.signer.PublicKey(), v.signer.issuer, v.signer.serial);
    if Enveloping(messageType) && v.content.Some? then
      var e :- Envelope.Parse(v.content.value);
      Ok(ParsedRequest(messageType, transactionId, senderNonce, recipient, Some(e)))
    else Ok(ParsedRequest(messageType, transactionId, senderNonce, recipient, None))
  }

  /** `parse_and_verify`. */
  function ParseAndVerify(p: Primitives, der: bytes): Result<ParsedRequest> {
    var v :- VerifyMessage(p, der);
    Extract(v)
  }

  // ----- acceptance -----

  /**
   The signer's attributes verify under the certificate's RSA key with this hash, and any content has their digest.
   */
  ghost predicate Accepts(p: Primitives, h: Hash, signer: SignerInfo, cert: Certificate, content: Option<bytes>) {
    && signer.signedAttrs.Some? && p.isRsaKey(cert.PublicKey())
    && var attrs := signer.signedAttrs.value;
       && |SignedOctets(attrs)| <= MAX_LEN
       && p.verifies(h, cert.PublicKey(), SignedOctets(attrs), signer.signature)
       && (content.Some? ==> ReadOctets(attrs, ID_MESSAGE_DIGEST) == Ok(p.hash(h, content.value)))
  }

  /**
   Acceptance, for either digest: a signer naming SHA-256 or SHA-1 is accepted
   exactly when its signature and the digest of its content check with that very
   hash, and any other identifier is refused.
   */
  lemma AcceptsExactly(p: Primitives, signer: SignerInfo, cert: Certificate, content: Option<bytes>)
    ensures var r := CheckSigner(p, signer, cert, content);
      && (signer.digestAlg.oid == [0x60, 0x86, 0x48, 0x01, 0x65, 0x03, 0x04, 0x02, 0x01] ==>
            (r.Ok? <==> Accepts(p, Sha256, signer, cert, content)))
      && (signer.digestAlg.oid == [0x2B, 0x0E, 0x03, 0x02, 0x1A] ==>
            (r.Ok? <==> Accepts(p, Sha1, signer, cert, content)))
      && (signer.digestAlg.oid !in {[0x60, 0x86, 0x48, 0x01, 0x65, 0x03, 0x04, 0x02, 0x01],
                                    [0x2B, 0x0E, 0x03, 0x02, 0x1A]} ==>
            r.Err?)
      && (r.Ok? ==> r.value == Verified(signer.signedAttrs.value, content, cert))
  {
    assert |ID_SHA256| != |ID_SHA1|;
    if h: Hash :| HashOf(signer.digestAlg.oid) == Some(h) { CheckedWith(p, h, signer, cert, content); }
  }

  lemma CheckedWith(p: Primitives, h: Hash, signer: SignerInfo, cert: Certificate, content: Option<bytes>)
    requires HashOf(signer.digestAlg.oid) == Some(h)
    ensures CheckSigner(p, signer, cert, content).Ok? <==> Accepts(p, h, signer, cert, content)
  {
  }

  // ----- the signed-message round trip -----

  lemma ContentRoundTrip(content: Option<bytes>)
    requires Fits(Struct(ContentFields(content)))
    ensures ContentFromAny(Struct(ContentFields(content))) == Some(content)
  {
    var f := ContentFields(content);
    FieldsOfStruct(SEQUENCE, f);
    if content.Some? {
      assert Fits(f[1]);
      OnlyRoundTrip(Any(OCTET_STRING, content.value));
    }
  }

  lemma SignerInfoRoundTrip(cert: Certificate, attrs: seq<Attribute>, signature: bytes)
    requires ValidSet(attrs)
    requires Fits(Struct(SignerInfoFields(cert, attrs, signature)))
    ensures SignerInfoFromAny(Struct(SignerInfoFields(cert, attrs, signature)))
      == Some(SignerInfo(SHA256_ALG, Some(attrs), signature))
    ensures |EncodeAttributes(attrs)| <= MAX_LEN
  {
    var f := SignerInfoFields(cert, attrs, signature);
    FieldsOfStruct(SEQUENCE, f);
    assert Fits(f[2]) && Fits(f[3]) && Fits(f[4]);
    AlgorithmRoundTrip(SHA256_ALG);
    AlgorithmRoundTrip(Algorithm(SHA256_WITH_RSA, Some(Any(NULL, []))));
    AttributesRoundTrip(attrs);
    assert f[3..][1..] == [f[4], f[5]];
    assert [f[4], f[5]][2..] == [];
  }

  lemma FirstRoundTrip(a: Any)
    requires Fits(a)
    ensures DecodeFirst(EncodeAny(a)) == Some(a)
  {
    OnlyRoundTrip(a);
  }

  /** What the relaxed reader sees in a printed SignedData. */
  lemma SignedDataRoundTrip(cert: Certificate, content: Option<bytes>, attrs: seq<Attribute>, signature: bytes)
    requires Fits(Struct(SignedDataFields(cert, content, attrs, signature)))
    ensures SignedDataFromAny(Struct(SignedDataFields(cert, content, attrs, signature)))
      == Some(SignedData(content, Some(EncodeAny(CertificateToAny(cert))),
                         EncodeAny(Struct(SignerInfoFields(cert, attrs, signature)))))
    ensures Fits(CertificateToAny(cert)) && Fits(Struct(SignerInfoFields(cert, attrs, signature)))
  {
    var f := SignedDataFields(cert, content, attrs, signature);
    FieldsOfStruct(SEQUENCE, f);
    assert Fits(f[2]) && Fits(f[3]) && Fits(f[4]);
    ContentRoundTrip(content);
    assert f[3..][1..] == [f[4]];
  }

  lemma ReadPrinted(cert: Certificate, content: Option<bytes>, attrs: seq<Attribute>, signature: bytes, der: bytes)
    requires ValidSet(attrs)
    requires ToDer(ContentInfoToAny(ID_SIGNED_DATA, Struct(SignedDataFields(cert, content, attrs, signature)))) ==
      Ok(der)
    ensures ReadMessage(der) == Ok((SignerInfo(SHA256_ALG, Some(attrs), signature), cert, content))
    ensures ToDer(Any(SET, EncodeAttributes(attrs))).Ok?
  {
    var inner := Struct(SignedDataFields(cert, content, attrs, signature));
    FitsOfToDer(ContentInfoToAny(ID_SIGNED_DATA, inner));
    OnlyRoundTrip(ContentInfoToAny(ID_SIGNED_DATA, inner));
    ContentInfoRoundTrip(ID_SIGNED_DATA, inner);
    SignedDataRoundTrip(cert, content, attrs, signature);
    FirstRoundTrip(Struct(SignerInfoFields(cert, attrs, signature)));
    SignerInfoRoundTrip(cert, attrs, signature);
    FirstRoundTrip(CertificateToAny(cert));
    CertificateRoundTrip(cert);
    SignedFits(cert, content, attrs, signature);
  }

  /** A key's signature over the attributes verifies under the certificate's key. */
  ghost predicate SignatureChecks(p: Primitives, key: bytes, cert: Certificate, attrs: seq<Attribute>) {
    && p.isRsaKey(cert.PublicKey()) && p.sign(key, SignedOctets(attrs)).Some?
    && p.verifies(Sha256, cert.PublicKey(), SignedOctets(attrs), p.sign(key, SignedOctets(attrs)).value)
  }

  /** A certificate that carries the key it signs with always does. */
  lemma OwnSignatureChecks(p: Primitives, key: bytes, cert: Certificate, attrs: seq<Attribute>)
    requires Lawful(p) && cert.PublicKey() == p.publicKey(key)
    requires p.sign(key, SignedOctets(attrs)).Some?
    ensures SignatureChecks(p, key, cert, attrs)
  {
    assert p.isRsaKey(p.publicKey(key));
  }

  /** With a digest attribute that matches, a signer is accepted exactly for its signature. */
  lemma SignerAccepted(p: Primitives, key: bytes, cert: Certificate, content: Option<bytes>, attrs: seq<Attribute>,
                       signature: bytes)
    requires p.sign(key, SignedOctets(attrs)) == Some(signature)
    requires ToDer(Any(SET, EncodeAttributes(attrs))).Ok?
    requires content.Some? ==> ReadOctets(attrs, ID_MESSAGE_DIGEST) == Ok(p.hash(Sha256, content.value))
    ensures CheckSigner(p, SignerInfo(SHA256_ALG, Some(attrs), signature), cert, content).Ok? <==>
      SignatureChecks(p, key, cert, attrs)
    ensures SignatureChecks(p, key, cert, attrs) ==>
      CheckSigner(p, SignerInfo(SHA256_ALG, Some(attrs), signature), cert, content) ==
        Ok(Verified(attrs, content, cert))
  {
  }

  /** Looking up a SCEP attribute in the signed set is looking it up in the caller's list. */
  lemma LookupUnchanged(p: Primitives, content: Option<bytes>, attrs: seq<Attribute>, sorted: seq<Attribute>, oid: Oid)
    requires ScepAttributes(attrs)
    requires multiset(sorted) == multiset(AttributeList(p, content, attrs))
    requires oid != ID_CONTENT_TYPE && oid != ID_MESSAGE_DIGEST
    ensures Find(sorted, oid) == Find(attrs, oid)
  {
    var list := AttributeList(p, content, attrs);
    AttributeListDistinct(p, content, attrs);
    FindOrderIrrelevant(list, sorted, oid);
    FindIsMember(list, oid);
    FindIsMember(attrs, oid);
    if Find(attrs, oid).Some? {
      FindMember(list, Find(attrs, oid).value);
    }
  }

  /** The digest attribute of a message with content, found wherever it was sorted to. */
  lemma DigestFound(p: Primitives, content: bytes, attrs: seq<Attribute>, sorted: seq<Attribute>)
    requires ScepAttributes(attrs)
    requires multiset(sorted) == multiset(AttributeList(p, Some(content), attrs))
    ensures Find(sorted, ID_MESSAGE_DIGEST) == Some(DigestAttribute(p, content))
  {
    var list := AttributeList(p, Some(content), attrs);
    AttributeListDistinct(p, Some(content), attrs);
    assert list[|attrs|] == DigestAttribute(p, content);
    FindMember(list, DigestAttribute(p, content));
    FindOrderIrrelevant(list, sorted, ID_MESSAGE_DIGEST);
  }

  lemma SortedIsValid(p: Primitives, content: Option<bytes>, attrs: seq<Attribute>)
    requires ScepAttributes(attrs)
    requires SetOf.FromSeq(AttributeList(p, content, attrs), AttributeDer).Some?
    ensures var sorted := SetOf.FromSeq(AttributeList(p, content, attrs), AttributeDer).value;
      ValidSet(sorted) && multiset(sorted) == multiset(AttributeList(p, content, attrs))
  {
    var list := AttributeList(p, content, attrs);
    AttributeListDistinct(p, content, attrs);
    SetOf.FromSeqOrdered(list, AttributeDer);
    var sorted := SetOf.FromSeq(list, AttributeDer).value;
    forall i | 0 <= i < |sorted| ensures ValidAttribute(sorted[i]) {
      assert sorted[i] in multiset(sorted);
      assert sorted[i] in list;
    }
  }

  /** What a printed message was made of. */
  lemma SignedParts(p: Primitives, key: bytes, cert: Certificate, content: Option<bytes>, attrs: seq<Attribute>,
                    der: bytes)
    returns (sorted: seq<Attribute>, signature: bytes)
    requires SignedReply(p, key, cert, content, attrs) == Ok(der)
    ensures SetOf.FromSeq(AttributeList(p, content, attrs), AttributeDer) == Some(sorted)
    ensures p.sign(key, SignedOctets(sorted)) == Some(signature)
    ensures ToDer(ContentInfoToAny(ID_SIGNED_DATA, Struct(SignedDataFields(cert, content, sorted, signature)))) ==
      Ok(der)
  {
    sorted := SetOf.FromSeq(AttributeList(p, content, attrs), AttributeDer).value;
    signature := p.sign(key, SignedOctets(sorted)).value;
  }

  /**
   A printed message verifies exactly when its signature checks under the
   certificate it carries, whatever the insertion order, with or without
   content, and keeps everything.
   */
  lemma SignedVerifiesExactly(p: Primitives, key: bytes, cert: Certificate, content: Option<bytes>,
                              attrs: seq<Attribute>, der: bytes)
    returns (v: Verified)
    requires ScepAttributes(attrs)
    requires SignedReply(p, key, cert, content, attrs) == Ok(der)
    ensures VerifyMessage(p, der).Ok? <==> SignatureChecks(p, key, cert, v.attrs)
    ensures VerifyMessage(p, der).Ok? ==> VerifyMessage(p, der) == Ok(v)
    ensures v.content == content && v.signer == cert && p.sign(key, SignedOctets(v.attrs)).Some?
    ensures ValidSet(v.attrs) && multiset(v.attrs) == multiset(AttributeList(p, content, attrs))
  {
    var sorted, signature := SignedParts(p, key, cert, content, attrs, der);
    SortedIsValid(p, content, attrs);
    ReadPrinted(cert, content, sorted, signature, der);
    if content.Some? {
      DigestFound(p, content.value, attrs, sorted);
    }
    SignerAccepted(p, key, cert, content, sorted, signature);
    v := Verified(sorted, content, cert);
  }

  /** Signed with the key its certificate carries, a printed message always verifies. */
  lemma SignedRoundTrip(p: Primitives, key: bytes, cert: Certificate, content: Option<bytes>, attrs: seq<Attribute>,
                        der: bytes)
    returns (v: Verified)
    requires Lawful(p) && cert.PublicKey() == p.publicKey(key)
    requires ScepAttributes(attrs)
    requires SignedReply(p, key, cert, content, attrs) == Ok(der)
    ensures VerifyMessage(p, der) == Ok(v)
    ensures v.content == content && v.signer == cert
    ensures ValidSet(v.attrs) && multiset(v.attrs) == multiset(AttributeList(p, content, attrs))
  {
    v := SignedVerifiesExactly(p, key, cert, content, attrs, der);
    OwnSignatureChecks(p, key, cert, v.attrs);
  }

  /** The signed octets are shorter than the message that carries them. */
  lemma SignedFits(cert: Certificate, content: Option<bytes>, attrs: seq<Attribute>, signature: bytes)
    requires ToDer(ContentInfoToAny(ID_SIGNED_DATA, Struct(SignedDataFields(cert, content, attrs, signature)))).Ok?
    ensures ToDer(Any(SET, EncodeAttributes(attrs))).Ok?
  {
    var inner := Struct(SignedDataFields(cert, content, attrs, signature));
    var f, g := SignedDataFields(cert, content, attrs, signature), SignerInfoFields(cert, attrs, signature);
    PartsAreSmall([Any(OID, ID_SIGNED_DATA), Any(CONTEXT_0_CONSTRUCTED, EncodeAny(inner))], 1);
    PartsAreSmall(f, 4);
    PartsAreSmall(g, 3);
    SameLength(SET, CONTEXT_0_CONSTRUCTED, EncodeAttributes(attrs));
  }

  lemma SameLength(s: Tag, t: Tag, content: bytes)
    ensures |EncodeAny(Any(s, content))| == |EncodeAny(Any(t, content))|
  {
  }

  /** What is extracted depends on the attributes only through lookup. */
  lemma ExtractByLookup(v: Verified, attrs: seq<Attribute>)
    requires forall oid :: oid in ReplyOids() ==> Find(v.attrs, oid) == Find(attrs, oid)
    ensures Extract(v) == Extract(Verified(attrs, v.content, v.signer))
  {
    assert ID_MESSAGE_TYPE in ReplyOids() && ID_TRANSACTION_ID in ReplyOids() && ID_SENDER_NONCE in ReplyOids();
  }

  lemma LookupsUnchanged(p: Primitives, content: Option<bytes>, attrs: seq<Attribute>, sorted: seq<Attribute>)
    requires ScepAttributes(attrs)
    requires multiset(sorted) == multiset(AttributeList(p, content, attrs))
    ensures forall oid :: oid in ReplyOids() ==> Find(sorted, oid) == Find(attrs, oid)
  {
    IdentifiersDiffer();
    forall oid | oid in ReplyOids() ensures Find(sorted, oid) == Find(attrs, oid) {
      LookupUnchanged(p, content, attrs, sorted, oid);
    }
  }

  /** Reading a printed message back is reading the caller's own list: order and DER leave no trace. */
  lemma MessageRoundTrip(p: Primitives, key: bytes, cert: Certificate, content: Option<bytes>, attrs: seq<Attribute>,
                         der: bytes)
    requires Lawful(p) && cert.PublicKey() == p.publicKey(key)
    requires ScepAttributes(attrs)
    requires SignedReply(p, key, cert, content, attrs) == Ok(der)
    ensures ParseAndVerify(p, der) == Extract(Verified(attrs, content, cert))
  {
    var v := SignedRoundTrip(p, key, cert, content, attrs, der);
    LookupsUnchanged(p, content, attrs, v.attrs);
    ExtractByLookup(v, attrs);
    ParseOfVerified(p, der, v);
  }

  lemma ParseOfVerified(p: Primitives, der: bytes, v: Verified)
    requires VerifyMessage(p, der) == Ok(v)
    ensures ParseAndVerify(p, der) == Extract(v)
  {
  }

  /**
   What a verified message must have: a type, an ID and a nonce, and if its type
   is 3, 17 or 19, content that is an envelope or none at all.
   */
  lemma ExtractExactly(v: Verified)
    ensures Extract(v).Ok? <==>
      && ReadString(v.attrs, ID_MESSAGE_TYPE).Ok? && ReadString(v.attrs, ID_TRANSACTION_ID).Ok?
      && ReadOctets(v.attrs, ID_SENDER_NONCE).Ok?
      && var number := Trim(ReadString(v.attrs, ID_MESSAGE_TYPE).value);
         && number in {"3", "17", "19", "20", "21", "22"}
         && (number in {"3", "17", "19"} && v.content.Some? ==> Envelope.Parse(v.content.value).Ok?)
    ensures Extract(v).Ok? ==>
      var number := Trim(ReadString(v.attrs, ID_MESSAGE_TYPE).value);
      && Extract(v).value.messageType.AsValue() == number
      && Ok(Extract(v).value.transactionId) == ReadString(v.attrs, ID_TRANSACTION_ID)
      && Ok(Extract(v).value.senderNonce) == ReadOctets(v.attrs, ID_SENDER_NONCE)
      && Extract(v).value.recipient == Envelope.Recipient(v.signer.PublicKey(), v.signer.issuer, v.signer.serial)
      && Extract(v).value.enveloped ==
         if number in {"3", "17", "19"} && v.content.Some? then Some(Envelope.Parse(v.content.value).value) else None
  {
    var text := ReadString(v.attrs, ID_MESSAGE_TYPE);
    if text.Ok? { NumbersExactly(text.value); }
  }

  lemma NumbersExactly(text: string)
    ensures MessageTypeFromValue(text).Ok? <==> Trim(text) in {"3", "17", "19", "20", "21", "22"}
    ensures MessageTypeFromValue(text).Ok? ==>
      && MessageTypeFromValue(text).value.AsValue() == Trim(text)
      && (Enveloping(MessageTypeFromValue(text).value) <==> Trim(text) in {"3", "17", "19"})
  {
    assert |"3"| == 1 && |"17"| == 2 && "17"[1] == '7' && "19"[1] == '9';
    assert "20"[1] == '0' && "21"[1] == '1' && "22"[1] == '2';
  }

  /** A list that reads as a message of this type, ID and nonce. */
  ghost predicate ReadsAs(attrs: seq<Attribute>, t: MessageType, id: string, nonce: bytes) {
    && ReadString(attrs, ID_MESSAGE_TYPE) == Ok(t.AsValue())
    && ReadString(attrs, ID_TRANSACTION_ID) == Ok(id)
    && ReadOctets(attrs, ID_SENDER_NONCE) == Ok(nonce)
  }

  /**
   Type, transaction ID and nonce survive, whatever else is in the list and
   whichever string type carries the ID. The message is accepted exactly when
   its content, if its type calls for an envelope, is one.
   */
  lemma FieldsRoundTripThroughMessage(
    p: Primitives, key: bytes, cert: Certificate, content: Option<bytes>, attrs: seq<Attribute>,
    t: MessageType, id: string, nonce: bytes, der: bytes)
    requires Lawful(p) && cert.PublicKey() == p.publicKey(key)
    requires ScepAttributes(attrs) && ReadsAs(attrs, t, id, nonce)
    requires SignedReply(p, key, cert, content, attrs) == Ok(der)
    ensures var r := ParseAndVerify(p, der);
      && (r.Ok? <==> (content.Some? && t in {CertRep, RenewalReq, PkcsReq} ==> Envelope.Parse(content.value).Ok?))
      && (r.Ok? ==>
            && r.value.messageType == t && r.value.transactionId == id && r.value.senderNonce == nonce
            && r.value.recipient == Envelope.Recipient(cert.PublicKey(), cert.issuer, cert.serial)
            && r.value.enveloped ==
               if content.Some? && t in {CertRep, RenewalReq, PkcsReq}
               then Some(Envelope.Parse(content.value).value) else None)
  {
    MessageRoundTrip(p, key, cert, content, attrs, der);
    ExtractOfList(Verified(attrs, content, cert), t, id, nonce);
  }

  lemma ExtractOfList(v: Verified, t: MessageType, id: string, nonce: bytes)
    requires ReadsAs(v.attrs, t, id, nonce)
    ensures Extract(v) ==
      if v.content.Some? && t in {CertRep, RenewalReq, PkcsReq} && Envelope.Parse(v.content.value).Err?
      then Err(Envelope.Parse(v.content.value).error)
      else Ok(ParsedRequest(t, id, nonce, Envelope.Recipient(v.signer.PublicKey(), v.signer.issuer, v.signer.serial),
                            if v.content.Some? && t in {CertRep, RenewalReq, PkcsReq}
                            then Some(Envelope.Parse(v.content.value).value) else None))
  {
    MessageTypeRoundTrip(t, "", "");
  }

  // ----- content taken out -----

  lemma ContentInfoCanonical(a: Any)
    requires Fits(a) && ContentInfoFromAny(a).Some?
    ensures var (contentType, inner) := ContentInfoFromAny(a).value;
      a == ContentInfoToAny(contentType, inner) && Fits(inner)
  {
    var f := Fields(a, SEQUENCE).value;
    FieldsCanonical(a, SEQUENCE);
    OnlyCanonical(f[1].value);
    assert f == [f[0], f[1]];
  }

  /** A message whose SignedData names its content type and nothing more, everything else as it was. */
  function Stripped(der: bytes): Option<bytes> {
    var a :- DecodeOnly(der);
    var (contentType, inner) :- ContentInfoFromAny(a);
    var f :- Fields(inner, SEQUENCE);
    if |f| < 3 then None
    else
      var g :- Fields(f[2], SEQUENCE);
      if g == [] then None
      else Some(EncodeAny(ContentInfoToAny(contentType, Struct(f[2 := Struct([g[0]])]))))
  }

  /** A ContentInfo does not outgrow the lengths when its content shrinks. */
  lemma SmallerFits(contentType: Oid, x: Any, y: Any)
    requires |x.value| <= |y.value| && Fits(ContentInfoToAny(contentType, y))
    ensures Fits(ContentInfoToAny(contentType, x))
  {
    var b, a := Any(CONTEXT_0_CONSTRUCTED, EncodeAny(x)), Any(CONTEXT_0_CONSTRUCTED, EncodeAny(y));
    ContentInfoRoundTrip(contentType, y);
    AnyMonotone(x, y);
    PartsAreSmall([Any(OID, contentType), a], 1);
    AnyMonotone(b, a);
    AllMonotone([Any(OID, contentType), b], [Any(OID, contentType), a]);
  }

  lemma {:induction false} ReplacedIsSmaller(f: seq<Any>, i: nat, x: Any)
    requires i < |f| && |EncodeAny(x)| <= |EncodeAny(f[i])|
    ensures |EncodeAll(f[i := x])| <= |EncodeAll(f)|
  {
    AllMonotone(f[i := x], f);
  }

  /** Naming the content type alone is no longer than naming it beside the content. */
  lemma TypeAloneIsShorter(f: seq<Any>, g: seq<Any>)
    requires |f| >= 3 && Fits(f[2]) && Fields(f[2], SEQUENCE) == Some(g) && g != []
    ensures |EncodeAll(f[2 := Struct([g[0]])])| <= |EncodeAll(f)|
    ensures Fits(Struct([g[0]]))
  {
    FieldsCanonical(f[2], SEQUENCE);
    PartsAreSmall(g, 0);
    assert EncodeAll([g[0]]) == EncodeAny(g[0]) + EncodeAll([g[0]][1..]) && [g[0]][1..] == [];
    AnyMonotone(Struct([g[0]]), f[2]);
    ReplacedIsSmaller(f, 2, Struct([g[0]]));
  }

  /** The SignedData reads as before, without content. */
  lemma StrippedData(inner: Any, f: seq<Any>, g: seq<Any>, sd: SignedData)
    requires SignedDataFromAny(inner) == Some(sd) && Fields(inner, SEQUENCE) == Some(f)
    requires Fields(f[2], SEQUENCE) == Some(g) && Fits(Struct([g[0]]))
    requires Fits(Struct(f[2 := Struct([g[0]])]))
    ensures SignedDataFromAny(Struct(f[2 := Struct([g[0]])])) == Some(sd.(content := None))
  {
    var h := f[2 := Struct([g[0]])];
    FieldsOfStruct(SEQUENCE, h);
    FieldsOfStruct(SEQUENCE, [g[0]]);
    assert h[3..] == f[3..];
  }

  /** The parts of a readable message: its SignedData, the fields of it and of its content info. */
  lemma MessageParts(der: bytes) returns (inner: Any, f: seq<Any>, g: seq<Any>, sd: SignedData)
    requires ReadMessage(der).Ok?
    ensures der == EncodeAny(ContentInfoToAny(ID_SIGNED_DATA, inner)) && Fits(ContentInfoToAny(ID_SIGNED_DATA, inner))
    ensures ContentInfoFromAny(ContentInfoToAny(ID_SIGNED_DATA, inner)) == Some((ID_SIGNED_DATA, inner))
    ensures Fits(inner) && SignedDataFromAny(inner) == Some(sd)
    ensures Fields(inner, SEQUENCE) == Some(f) && |f| >= 3 && Fields(f[2], SEQUENCE) == Some(g) && g != []
  {
    var a := DecodeOnly(der).value;
    var (contentType, data) := ContentInfoFromAny(a).value;
    OnlyCanonical(der);
    ContentInfoCanonical(a);
    inner := data;
    sd := SignedDataFromAny(inner).value;
    f := Fields(inner, SEQUENCE).value;
    g := Fields(f[2], SEQUENCE).value;
  }

  lemma ReadsData(x: Any, sd: SignedData)
    requires Fits(ContentInfoToAny(ID_SIGNED_DATA, x)) && SignedDataFromAny(x) == Some(sd)
    ensures ReadMessage(EncodeAny(ContentInfoToAny(ID_SIGNED_DATA, x))) ==
      match ReadSigner(sd) case Ok((signer, cert)) => Ok((signer, cert, sd.content)) case Err(e) => Err(e)
  {
    OnlyRoundTrip(ContentInfoToAny(ID_SIGNED_DATA, x));
    ContentInfoRoundTrip(ID_SIGNED_DATA, x);
  }

  /** Messages that agree outside the content read alike. */
  lemma ReadsWithout(x: Any, y: Any, sd: SignedData)
    requires Fits(ContentInfoToAny(ID_SIGNED_DATA, x)) && SignedDataFromAny(x) == Some(sd)
    requires Fits(ContentInfoToAny(ID_SIGNED_DATA, y)) && SignedDataFromAny(y) == Some(sd.(content := None))
    ensures var m := ReadMessage(EncodeAny(ContentInfoToAny(ID_SIGNED_DATA, x)));
      m.Ok? ==> ReadMessage(EncodeAny(ContentInfoToAny(ID_SIGNED_DATA, y))) == Ok((m.value.0, m.value.1, None))
  {
    ReadsData(x, sd);
    ReadsData(y, sd.(content := None));
    SignerElsewhere(sd);
  }

  lemma SignerElsewhere(sd: SignedData)
    ensures ReadSigner(sd.(content := None)) == ReadSigner(sd)
  {
  }

  lemma StrippedIs(der: bytes, inner: Any, f: seq<Any>, g: seq<Any>)
    requires Fits(ContentInfoToAny(ID_SIGNED_DATA, inner)) && der == EncodeAny(ContentInfoToAny(ID_SIGNED_DATA, inner))
    requires Fields(inner, SEQUENCE) == Some(f) && |f| >= 3 && Fields(f[2], SEQUENCE) == Some(g) && g != []
    ensures Stripped(der) == Some(EncodeAny(ContentInfoToAny(ID_SIGNED_DATA, Struct(f[2 := Struct([g[0]])]))))
  {
    OnlyRoundTrip(ContentInfoToAny(ID_SIGNED_DATA, inner));
    ContentInfoRoundTrip(ID_SIGNED_DATA, inner);
  }

  /** Stripping is always possible for a readable message, and signer and certificate stay. */
  lemma StrippedReads(der: bytes, signer: SignerInfo, cert: Certificate, content: Option<bytes>)
    returns (stripped: bytes)
    requires ReadMessage(der) == Ok((signer, cert, content))
    ensures Stripped(der) == Some(stripped)
    ensures ReadMessage(stripped) == Ok((signer, cert, None))
  {
    var inner, f, g, sd := MessageParts(der);
    FieldsCanonical(inner, SEQUENCE);
    PartsFit(f);
    TypeAloneIsShorter(f, g);
    var x := Struct(f[2 := Struct([g[0]])]);
    SmallerFits(ID_SIGNED_DATA, x, inner);
    StrippedData(inner, f, g, sd);
    StrippedIs(der, inner, f, g);
    stripped := EncodeAny(ContentInfoToAny(ID_SIGNED_DATA, x));
    ReadsWithout(inner, x, sd);
  }

  /** What the signer check accepts with content it accepts without. */
  lemma AcceptedWithoutContent(p: Primitives, signer: SignerInfo, cert: Certificate, content: Option<bytes>,
                               v: Verified)
    requires CheckSigner(p, signer, cert, content) == Ok(v)
    ensures CheckSigner(p, signer, cert, None) == Ok(v.(content := None))
  {
  }

  lemma ExtractStripped(v: Verified, r: ParsedRequest)
    requires Extract(v) == Ok(r)
    ensures Extract(v.(content := None)) == Ok(r.(enveloped := None))
  {
  }

  /**
   The digest check needs content: any accepted octets with their content left
   out, signature and attributes unchanged, are accepted with the same type, ID,
   nonce and requester, and no envelope.
   */
  lemma StrippedMessageIsAccepted(p: Primitives, der: bytes, r: ParsedRequest) returns (stripped: bytes)
    requires ParseAndVerify(p, der) == Ok(r)
    ensures Stripped(der) == Some(stripped)
    ensures ParseAndVerify(p, stripped) == Ok(r.(enveloped := None))
  {
    var (signer, cert, content) := ReadMessage(der).value;
    var v := CheckSigner(p, signer, cert, content).value;
    stripped := StrippedReads(der, signer, cert, content);
    AcceptedWithoutContent(p, signer, cert, content, v);
    ExtractStripped(v, r);
  }
}
