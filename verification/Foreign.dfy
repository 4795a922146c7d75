/**
 What other implementations may send: messages and envelopes with every part the
 standards allow, and not only those this server's own printers produce.
 */
module Foreign {
  import opened Wrappers
  import opened Der
  import opened Asn1
  import opened Primitives
  import opened BlockCipher
  import opened Attributes
  import opened Sign
  import opened Verify
  import opened Envelope
  import SetOf

  // ----- envelopes -----

  function RecipientAnys(infos: seq<RecipientInfo>): (r: seq<Any>)
    ensures |r| == |infos|
  {
    seq(|infos|, i requires 0 <= i < |infos| => RecipientToAny(infos[i]))
  }

  /** Section 6.1 of RFC 5652, with originator information and unprotected attributes where there are any. */
  function EnvelopedFields(e: EnvelopedData): seq<Any> {
    [VersionToAny(e.version)]
    + (EncodeOptional(0xA0, e.originator)
       + ([Any(0x31, EncodeAll(RecipientAnys(e.recipients))), EncryptedToAny(e.encrypted)] +
         EncodeOptional(0xA1, e.unprotected)))
  }

  /** Known versions, and recipients in DER order: key transport within any cap, or one of the other kinds. */
  ghost predicate WellFormed(e: EnvelopedData, capped: bool) {
    && e.version <= 5 && SetOf.Ordered(e.recipients, RecipientDer)
    && forall i :: 0 <= i < |e.recipients| ==> WellFormedRecipient(e.recipients[i], capped)
  }

  ghost predicate WellFormedRecipient(r: RecipientInfo, capped: bool) {
    match r
    case Ktri(version, rid, _, _) => version <= 5 && (capped && rid.IssuerAndSerial? ==> |rid.serial| <= 20)
    case Other(raw) => raw.tag in {0xA1, 0xA2, 0xA3, 0xA4}
  }

  lemma AnyRecipientReads(r: RecipientInfo, capped: bool)
    requires WellFormedRecipient(r, capped) && Fits(RecipientToAny(r))
    ensures RecipientFromAny(RecipientToAny(r), capped) == Some(r)
  {
    if r.Ktri? { RecipientRoundTrip(r, capped); }
  }

  lemma {:induction false} AnyRecipientsRead(infos: seq<RecipientInfo>, capped: bool)
    requires forall i :: 0 <= i < |infos| ==> WellFormedRecipient(infos[i], capped) && Fits(RecipientToAny(infos[i]))
    ensures RecipientsFromAnys(RecipientAnys(infos), capped) == Some(infos)
  {
    if infos != [] {
      AnyRecipientReads(infos[0], capped);
      AnyRecipientsRead(infos[1..], capped);
      assert RecipientAnys(infos)[1..] == RecipientAnys(infos[1..]);
      assert infos == [infos[0]] + infos[1..];
    }
  }

  lemma RecipientSetReads(infos: seq<RecipientInfo>, capped: bool)
    requires |EncodeAll(RecipientAnys(infos))| <= MAX_LEN
    requires forall i :: 0 <= i < |infos| ==> WellFormedRecipient(infos[i], capped)
    ensures Fields(Any(0x31, EncodeAll(RecipientAnys(infos))), SET) == Some(RecipientAnys(infos))
    ensures RecipientsFromAnys(RecipientAnys(infos), capped) == Some(infos)
  {
    FieldsRoundTrip(RecipientAnys(infos));
    assert forall i :: 0 <= i < |infos| ==> RecipientAnys(infos)[i] == RecipientToAny(infos[i]);
    AnyRecipientsRead(infos, capped);
  }

  /** The tail of the fields, from the recipients on. */
  lemma TailReads(e: EnvelopedData, g: seq<Any>)
    requires g == [Any(0x31, EncodeAll(RecipientAnys(e.recipients))), EncryptedToAny(e.encrypted)] +
      EncodeOptional(0xA1, e.unprotected)
    requires forall i :: 0 <= i < |g| ==> Fits(g[i])
    ensures EncryptedFromAny(g[1]) == Some(e.encrypted)
    ensures TakeOptional(g[2..], CONTEXT_1_CONSTRUCTED) == (e.unprotected, [])
  {
    assert Fits(g[1]);
    EncryptedRoundTrip(e.encrypted);
    OptionalRoundTrip(0xA1, e.unprotected, []);
    assert g[2..] == EncodeOptional(0xA1, e.unprotected) + [];
  }

  lemma AnyOrderReads(sent: EnvelopedData, e: EnvelopedData, capped: bool)
    requires SentAs(sent, e, capped) && Fits(Struct(EnvelopedFields(sent)))
    ensures EnvelopedFromAny(Struct(EnvelopedFields(sent)), capped) == Some(e)
  {
    var f := EnvelopedFields(sent);
    var g := [Any(0x31, EncodeAll(RecipientAnys(sent.recipients))), EncryptedToAny(sent.encrypted)]
      + EncodeOptional(0xA1, sent.unprotected);
    FieldsOfStruct(SEQUENCE, f);
    assert f[1..] == EncodeOptional(0xA0, sent.originator) + g;
    OptionalRoundTrip(0xA0, sent.originator, g);
    forall i | 0 <= i < |g| ensures Fits(g[i]) { assert g[i] == f[|f| - |g| + i]; }
    TailReads(sent, g);
    assert Fits(g[0]);
    RecipientSetReads(sent.recipients, capped);
  }

  lemma AnyEnvelopedReads(e: EnvelopedData, capped: bool)
    requires WellFormed(e, capped) && Fits(Struct(EnvelopedFields(e)))
    ensures EnvelopedFromAny(Struct(EnvelopedFields(e)), capped) == Some(e)
  {
    SetOf.OrderedFixed(e.recipients, RecipientDer);
    AnyOrderReads(e, e, capped);
  }

  /** Every well-formed envelope is read as it was meant, wrapped in a ContentInfo or bare. */
  lemma AnyEnvelopeParses(e: EnvelopedData, capped: bool)
    requires WellFormed(e, capped) && Fits(ContentInfoToAny(ID_ENVELOPED_DATA, Struct(EnvelopedFields(e))))
    ensures ParseAs(EncodeAny(ContentInfoToAny(ID_ENVELOPED_DATA, Struct(EnvelopedFields(e)))), capped) == Ok(e)
    ensures ParseAs(EncodeAny(Struct(EnvelopedFields(e))), capped) == Ok(e)
  {
    ContentInfoRoundTrip(ID_ENVELOPED_DATA, Struct(EnvelopedFields(e)));
    ParsePrinted(Struct(EnvelopedFields(e)), capped);
    AnyEnvelopedReads(e, capped);
    BareParses(e, capped);
  }

  lemma BareParses(e: EnvelopedData, capped: bool)
    requires Fits(Struct(EnvelopedFields(e)))
    ensures ParseAs(EncodeAny(Struct(EnvelopedFields(e))), capped) ==
      EnvelopedFromAny(Struct(EnvelopedFields(e)), capped).OkOr(CryptoError)
  {
    OnlyRoundTrip(Struct(EnvelopedFields(e)));
    FieldsOfStruct(SEQUENCE, EnvelopedFields(e));
    assert EnvelopedFields(e)[0].tag == INTEGER;
  }

  /**
   Whatever a sender encrypts with one of the five ciphers, however many
   recipients it names and whatever else it adds: the server reads the envelope
   and opens it to the plaintext, given that the recipient chosen is the one the
   key was wrapped for.
   */
  lemma AnyEnvelopeOpens(p: Primitives, e: EnvelopedData, ca: Certificate, caKey: bytes, k: int, oid: Oid, c: Cipher,
                         key: bytes, iv: bytes, rand: bytes, plaintext: bytes)
    requires Lawful(p)
    requires WellFormed(e, true) && Fits(ContentInfoToAny(ID_ENVELOPED_DATA, Struct(EnvelopedFields(e))))
    requires (oid, c, |key|, |iv|) in {
      (ID_AES_128_CBC, Aes128, 16, 16), (ID_AES_192_CBC, Aes192, 24, 16), (ID_AES_256_CBC, Aes256, 32, 16),
      (ID_DES_EDE3_CBC, TripleDes, 24, 8), (ID_DES_CBC, Des, 8, 8)}
    requires Chosen(e.recipients, ca, k) && p.wrap(p.publicKey(caKey), key, rand) == Some(e.recipients[k].encKey)
    requires e.encrypted.alg == Algorithm(oid, Some(Any(OCTET_STRING, iv)))
    requires e.encrypted.content == Some(CbcEncrypt(p, c, key, iv, Pad(plaintext, |iv|)))
    ensures forall der ::
      (|| der == EncodeAny(ContentInfoToAny(ID_ENVELOPED_DATA, Struct(EnvelopedFields(e))))
       || der == EncodeAny(Struct(EnvelopedFields(e)))) ==>
      Parse(der).Ok? && Open(p, Parse(der).value, ca, caKey) == Ok(plaintext)
  {
    AnyEnvelopeParses(e, true);
    SuiteOpens(p, e, ca, caKey, k, oid, c, key, iv, rand, plaintext);
  }

  // ----- signed messages -----

  /** A message with one or more signers and certificates, the parts that are not looked into raw. */
  datatype Message = Message(
    version: Any, digests: Any, contentType: Oid, content: Option<Any>, cert: Certificate, moreCerts: bytes,
    crls: Option<bytes>, signersTag: Tag, signer: Signer, moreSigners: bytes)

  /** `attrs` are the content octets of the attribute set as it was sent, in whatever order. */
  datatype Signer = Signer(
    version: Any, sid: Any, digestAlg: Algorithm, attrs: bytes, signatureAlg: Algorithm, signature: bytes,
    unsigned: Option<bytes>)

  /** Section 5.3 of RFC 5652. */
  function SignerFields(s: Signer): seq<Any> {
    [s.version, s.sid, AlgorithmToAny(s.digestAlg), Any(0xA0, s.attrs), AlgorithmToAny(s.signatureAlg),
     Any(0x04, s.signature)] + EncodeOptional(0xA1, s.unsigned)
  }

  function EncapFields(m: Message): seq<Any> {
    [Any(0x06, m.contentType)] + match m.content case None => [] case Some(a) => [Any(0xA0, EncodeAny(a))]
  }

  /** Section 5.1 of RFC 5652. */
  function MessageFields(m: Message): seq<Any> {
    [m.version, m.digests, Struct(EncapFields(m)), Any(0xA0, EncodeAny(CertificateToAny(m.cert)) + m.moreCerts)]
    + (EncodeOptional(0xA1, m.crls) + [Any(m.signersTag, EncodeAny(Struct(SignerFields(m.signer))) + m.moreSigners)])
  }

  /** The octets of a message. */
  function MessageDer(m: Message): bytes { EncodeAny(ContentInfoToAny(ID_SIGNED_DATA, Struct(MessageFields(m)))) }

  /** The attributes, in whatever order they were sent, as they are verified. */
  ghost predicate SortedAs(attrs: seq<Attribute>, sorted: seq<Attribute>) {
    && (forall i :: 0 <= i < |attrs| ==> ValidAttribute(attrs[i]))
    && SetOf.FromSeq(attrs, AttributeDer) == Some(sorted)
  }

  lemma UnsortedDecodes(attrs: seq<Attribute>, sorted: seq<Attribute>)
    requires SortedAs(attrs, sorted) && |EncodeAttributes(attrs)| <= MAX_LEN
    ensures DecodeAttributes(EncodeAttributes(attrs)) == Some(sorted)
  {
    FieldsRoundTrip(ToAnys(attrs));
    forall i | 0 <= i < |attrs| ensures Fits(AttributeToAny(attrs[i])) {
      assert Fits(ToAnys(attrs)[i]);
    }
    AttributesFromAnys(attrs);
  }

  lemma AnySignerReads(s: Signer, sorted: seq<Attribute>)
    requires DecodeAttributes(s.attrs) == Some(sorted) && Fits(Struct(SignerFields(s)))
    ensures SignerInfoFromAny(Struct(SignerFields(s))) == Some(SignerInfo(s.digestAlg, Some(sorted), s.signature))
  {
    var f := SignerFields(s);
    FieldsOfStruct(SEQUENCE, f);
    assert Fits(f[2]) && Fits(f[3]) && Fits(f[4]);
    AlgorithmRoundTrip(s.digestAlg);
    AlgorithmRoundTrip(s.signatureAlg);
    SignerTail(s, f);
  }

  lemma SignerTail(s: Signer, f: seq<Any>)
    requires f == SignerFields(s)
    ensures TakeOptional(f[3..], CONTEXT_0_CONSTRUCTED) == (Some(s.attrs), f[4..])
    ensures f[4..][0] == f[4] && f[4..][1] == f[5]
    ensures TakeOptional(f[4..][2..], CONTEXT_1_CONSTRUCTED) == (s.unsigned, [])
  {
    assert f[3..][1..] == f[4..];
    assert f[4..][2..] == EncodeOptional(0xA1, s.unsigned) + [];
    OptionalRoundTrip(0xA1, s.unsigned, []);
  }

  lemma AnyContentReads(m: Message)
    requires Fits(Struct(EncapFields(m)))
    ensures ContentFromAny(Struct(EncapFields(m))) == Some(ContentOf(m))
  {
    var f := EncapFields(m);
    FieldsOfStruct(SEQUENCE, f);
    if m.content.Some? {
      assert Fits(f[1]);
      OnlyRoundTrip(m.content.value);
    }
  }

  lemma FirstOfMany(a: Any, more: bytes)
    requires Fits(a)
    ensures DecodeFirst(EncodeAny(a) + more) == Some(a)
  {
    AnyRoundTrip(a, more);
  }

  function ContentOf(m: Message): Option<bytes> { match m.content case None => None case Some(a) => Some(a.value) }

  /** The signers cannot be mistaken for revocation lists; theirs is the tag of a SET, but any other is read alike. */
  predicate Told(m: Message) { m.signersTag == 0xA1 ==> m.crls.Some? }

  lemma LastField(m: Message, signers: Any)
    requires signers == Any(m.signersTag, EncodeAny(Struct(SignerFields(m.signer))) + m.moreSigners)
    requires Told(m)
    ensures TakeOptional(EncodeOptional(0xA1, m.crls) + [signers], CONTEXT_1_CONSTRUCTED) == (m.crls, [signers])
  {
    if m.crls.None? { OptionalRoundTrip(0xA1, m.crls, [signers]); }
  }

  lemma AnySignedDataReads(m: Message)
    requires Fits(Struct(MessageFields(m))) && Told(m)
    ensures SignedDataFromAny(Struct(MessageFields(m))) ==
      Some(SignedData(ContentOf(m), Some(EncodeAny(CertificateToAny(m.cert)) + m.moreCerts),
                      EncodeAny(Struct(SignerFields(m.signer))) + m.moreSigners))
    ensures Fits(CertificateToAny(m.cert)) && Fits(Struct(SignerFields(m.signer)))
  {
    var f := MessageFields(m);
    var signers := Any(m.signersTag, EncodeAny(Struct(SignerFields(m.signer))) + m.moreSigners);
    FieldsOfStruct(SEQUENCE, f);
    assert Fits(f[2]) && Fits(f[3]);
    AnyContentReads(m);
    assert f[|f| - 1] == signers && Fits(signers);
    assert f[3..][1..] == EncodeOptional(0xA1, m.crls) + [signers];
    LastField(m, signers);
  }

  /** Whatever else it carries, a message is read as its first signer, its first certificate and its content. */
  lemma AnyMessageReads(m: Message, sorted: seq<Attribute>)
    requires Told(m) && DecodeAttributes(m.signer.attrs) == Some(sorted) &&
      Fits(ContentInfoToAny(ID_SIGNED_DATA, Struct(MessageFields(m))))
    ensures ReadMessage(MessageDer(m)) ==
      Ok((SignerInfo(m.signer.digestAlg, Some(sorted), m.signer.signature), m.cert, ContentOf(m)))
  {
    var inner := Struct(MessageFields(m));
    ContentInfoRoundTrip(ID_SIGNED_DATA, inner);
    AnySignedDataReads(m);
    ReadsData(inner, SignedDataFromAny(inner).value);
    FirstOfMany(Struct(SignerFields(m.signer)), m.moreSigners);
    FirstOfMany(CertificateToAny(m.cert), m.moreCerts);
    AnySignerReads(m.signer, sorted);
    CertificateRoundTrip(m.cert);
  }

  /**
   A message any implementation sends, with either digest: it verifies exactly
   when its key is RSA, the signature over its sorted attributes checks with the
   hash it names, and any content has the digest it claims under that hash.
   */
  lemma AnyMessageVerifiesExactly(p: Primitives, m: Message, sorted: seq<Attribute>, h: Hash)
    requires Told(m) && DecodeAttributes(m.signer.attrs) == Some(sorted) &&
      Fits(ContentInfoToAny(ID_SIGNED_DATA, Struct(MessageFields(m))))
    requires (m.signer.digestAlg.oid, h) in {(ID_SHA256, Sha256), (ID_SHA1, Sha1)}
    ensures VerifyMessage(p, MessageDer(m)).Ok? <==>
      && p.isRsaKey(m.cert.PublicKey()) && |SignedOctets(sorted)| <= MAX_LEN
      && p.verifies(h, m.cert.PublicKey(), SignedOctets(sorted), m.signer.signature)
      && (m.content.Some? ==> ReadOctets(sorted, ID_MESSAGE_DIGEST) == Ok(p.hash(h, m.content.value.value)))
    ensures VerifyMessage(p, MessageDer(m)).Ok? ==>
      VerifyMessage(p, MessageDer(m)) == Ok(Verified(sorted, ContentOf(m), m.cert))
  {
    AnyMessageReads(m, sorted);
    assert |ID_SHA256| == 9 && |ID_SHA1| == 5;
    AcceptsExactly(p, SignerInfo(m.signer.digestAlg, Some(sorted), m.signer.signature), m.cert, ContentOf(m));
  }

  // ----- and nothing else is read -----

  lemma AlgorithmCanonical(a: Any)
    requires AlgorithmFromAny(a).Some?
    ensures AlgorithmToAny(AlgorithmFromAny(a).value) == a
  {
    var f := Fields(a, SEQUENCE).value;
    FieldsCanonical(a, SEQUENCE);
    assert f == [f[0]] + if |f| == 2 then [f[1]] else [];
  }

  lemma FirstIsFirst(container: bytes) returns (more: bytes)
    requires DecodeFirst(container).Some?
    ensures container == EncodeAny(DecodeFirst(container).value) + more
  {
    AnyCanonical(container);
    more := DecodeAny(container).value.1;
  }

  /** A signer is only ever read from fields as section 5.3 has them. */
  lemma SignerIsOnly(a: Any) returns (s: Signer)
    requires SignerInfoFromAny(a).Some? && SignerInfoFromAny(a).value.signedAttrs.Some?
    ensures a == Struct(SignerFields(s))
    ensures var i := SignerInfoFromAny(a).value;
      && s.digestAlg == i.digestAlg && DecodeAttributes(s.attrs) == i.signedAttrs && s.signature == i.signature
  {
    var f := Fields(a, SEQUENCE).value;
    FieldsCanonical(a, SEQUENCE);
    AlgorithmCanonical(f[2]);
    OptionalCanonical(f[3..], CONTEXT_0_CONSTRUCTED);
    var raw, g := TakeOptional(f[3..], CONTEXT_0_CONSTRUCTED).0.value, f[3..][1..];
    AlgorithmCanonical(g[0]);
    OptionalCanonical(g[2..], CONTEXT_1_CONSTRUCTED);
    s := Signer(f[0], f[1], AlgorithmFromAny(f[2]).value, raw, AlgorithmFromAny(g[0]).value, g[1].value,
                TakeOptional(g[2..], CONTEXT_1_CONSTRUCTED).0);
    SignerFieldsAre(s, f, g);
  }

  lemma SignerFieldsAre(s: Signer, f: seq<Any>, g: seq<Any>)
    requires |f| >= 6 && f[3] == Any(0xA0, s.attrs) && g == f[4..] && |g| >= 2
    requires f[0] == s.version && f[1] == s.sid && f[2] == AlgorithmToAny(s.digestAlg)
    requires g[0] == AlgorithmToAny(s.signatureAlg) && g[1] == Any(0x04, s.signature)
    requires g[2..] == EncodeOptional(0xA1, s.unsigned) + []
    ensures f == SignerFields(s)
  {
    assert f == [f[0], f[1], f[2], f[3], g[0], g[1]] + g[2..];
  }

  lemma EncapIsOnly(a: Any) returns (contentType: Oid, content: Option<Any>)
    requires ContentFromAny(a).Some?
    ensures a == Struct([Any(0x06, contentType)] +
      match content case None => [] case Some(c) => [Any(0xA0, EncodeAny(c))])
    ensures ContentFromAny(a).value == match content case None => None case Some(c) => Some(c.value)
  {
    var f := Fields(a, SEQUENCE).value;
    FieldsCanonical(a, SEQUENCE);
    contentType := f[0].value;
    if |f| == 1 {
      content := None;
      assert f == [f[0]] + [];
    } else {
      content := DecodeOnly(f[1].value);
      OnlyCanonical(f[1].value);
      assert f == [f[0]] + [f[1]];
    }
  }

  /** The fields of a SignedData, once its parts are known. */
  lemma MessageFieldsAre(m: Message, f: seq<Any>, g: seq<Any>)
    requires |f| >= 5 && f[0] == m.version && f[1] == m.digests && f[2] == Struct(EncapFields(m))
    requires f[3] == Any(0xA0, EncodeAny(CertificateToAny(m.cert)) + m.moreCerts) && g == f[4..]
    requires g == EncodeOptional(0xA1, m.crls) +
      [Any(m.signersTag, EncodeAny(Struct(SignerFields(m.signer))) + m.moreSigners)]
    ensures f == MessageFields(m)
  {
    assert f == [f[0], f[1], f[2], f[3]] + g;
  }

  /** The fields of a SignedData that was read, with what the options took. */
  lemma DataFields(a: Any, sd: SignedData) returns (f: seq<Any>, g: seq<Any>, crls: Option<bytes>, h: seq<Any>)
    requires SignedDataFromAny(a) == Some(sd) && sd.certificates.Some?
    ensures a == Struct(f) && |f| >= 5 && ContentFromAny(f[2]) == Some(sd.content)
    ensures f[3] == Any(0xA0, sd.certificates.value) && g == f[4..]
    ensures g == EncodeOptional(0xA1, crls) + h && |h| == 1 && h[0].value == sd.signerInfos
    ensures crls.None? ==> h[0].tag != 0xA1
  {
    f := Fields(a, SEQUENCE).value;
    FieldsCanonical(a, SEQUENCE);
    OptionalCanonical(f[3..], CONTEXT_0_CONSTRUCTED);
    g := f[3..][1..];
    OptionalCanonical(g, CONTEXT_1_CONSTRUCTED);
    var (c, rest) := TakeOptional(g, CONTEXT_1_CONSTRUCTED);
    crls, h := c, rest;
  }

  lemma DataIsOnly(a: Any, sd: SignedData, signer: SignerInfo, cert: Certificate) returns (m: Message)
    requires SignedDataFromAny(a) == Some(sd) && ReadSigner(sd) == Ok((signer, cert)) && signer.signedAttrs.Some?
    ensures a == Struct(MessageFields(m)) && Told(m) && m.cert == cert && ContentOf(m) == sd.content
    ensures m.signer.digestAlg == signer.digestAlg && m.signer.signature == signer.signature
    ensures DecodeAttributes(m.signer.attrs) == signer.signedAttrs
  {
    var f, g, crls, h := DataFields(a, sd);
    var contentType, content := EncapIsOnly(f[2]);
    var s, moreSigners, moreCerts := SignerParts(sd, signer, cert);
    m := Message(f[0], f[1], contentType, content, cert, moreCerts, crls, h[0].tag, s, moreSigners);
    assert h == [h[0]];
    MessageFieldsAre(m, f, g);
  }

  lemma SignerParts(sd: SignedData, signer: SignerInfo, cert: Certificate)
    returns (s: Signer, moreSigners: bytes, moreCerts: bytes)
    requires ReadSigner(sd) == Ok((signer, cert)) && signer.signedAttrs.Some?
    ensures sd.signerInfos == EncodeAny(Struct(SignerFields(s))) + moreSigners
    ensures sd.certificates == Some(EncodeAny(CertificateToAny(cert)) + moreCerts)
    ensures s.digestAlg == signer.digestAlg && s.signature == signer.signature
    ensures DecodeAttributes(s.attrs) == signer.signedAttrs
  {
    s := SignerIsOnly(DecodeFirst(sd.signerInfos).value);
    moreSigners := FirstIsFirst(sd.signerInfos);
    moreCerts := FirstIsFirst(sd.certificates.value);
    CertificateCanonical(DecodeFirst(sd.certificates.value).value);
  }

  /**
   The reader takes exactly the messages of section 5.1 of RFC 5652: whatever it
   reads with signed attributes is one, and is read as what that one says.
   */
  lemma ReadExactly(der: bytes, signer: SignerInfo, cert: Certificate, content: Option<bytes>)
    requires signer.signedAttrs.Some?
    ensures Verify.ReadMessage(der) == Ok((signer, cert, content)) <==>
      exists m :: Says(m, signer, cert, content) && der == MessageDer(m)
  {
    if Verify.ReadMessage(der) == Ok((signer, cert, content)) {
      var inner, f, g, sd := MessageParts(der);
      ReadsData(inner, sd);
      var m := DataIsOnly(inner, sd, signer, cert);
      assert Says(m, signer, cert, content);
    }
    if m :| Says(m, signer, cert, content) && der == MessageDer(m) { AnyMessageReads(m, signer.signedAttrs.value); }
  }

  /** What is read of a message that is not too long. */
  ghost predicate Says(m: Message, signer: SignerInfo, cert: Certificate, content: Option<bytes>) {
    && Told(m) && Fits(ContentInfoToAny(ID_SIGNED_DATA, Struct(MessageFields(m))))
    && m.cert == cert && ContentOf(m) == content && m.signer.digestAlg == signer.digestAlg
    && m.signer.signature == signer.signature && DecodeAttributes(m.signer.attrs) == signer.signedAttrs
  }

  lemma VersionIsOnly(a: Any)
    requires VersionFromAny(a).Some?
    ensures VersionToAny(VersionFromAny(a).value) == a && VersionFromAny(a).value <= 5
  {
    assert a.value == [a.value[0]];
  }

  lemma RidIsOnly(a: Any, capped: bool)
    requires RidFromAny(a, capped).Some?
    ensures RidToAny(RidFromAny(a, capped).value) == a
    ensures capped && RidFromAny(a, capped).value.IssuerAndSerial? ==> |RidFromAny(a, capped).value.serial| <= 20
  {
    if a.tag != CONTEXT_0 {
      var f := Fields(a, SEQUENCE).value;
      FieldsCanonical(a, SEQUENCE);
      assert f == [NameToAny(Name(f[0].value)), Any(INTEGER, f[1].value)];
    }
  }

  lemma RecipientIsOnly(a: Any, capped: bool)
    requires RecipientFromAny(a, capped).Some?
    ensures RecipientToAny(RecipientFromAny(a, capped).value) == a
    ensures WellFormedRecipient(RecipientFromAny(a, capped).value, capped)
  {
    if !(0xA1 <= a.tag <= 0xA4) {
      var f := Fields(a, SEQUENCE).value;
      FieldsCanonical(a, SEQUENCE);
      VersionIsOnly(f[0]);
      RidIsOnly(f[1], capped);
      AlgorithmCanonical(f[2]);
      assert f == [f[0], f[1], f[2], Any(OCTET_STRING, f[3].value)];
    }
  }

  lemma {:induction false} RecipientsAreOnly(anys: seq<Any>, capped: bool)
    requires RecipientsFromAnys(anys, capped).Some?
    ensures RecipientAnys(RecipientsFromAnys(anys, capped).value) == anys
    ensures forall r :: r in RecipientsFromAnys(anys, capped).value ==> WellFormedRecipient(r, capped)
  {
    if anys != [] {
      RecipientIsOnly(anys[0], capped);
      RecipientsAreOnly(anys[1..], capped);
      var r, rest := RecipientFromAny(anys[0], capped).value, RecipientsFromAnys(anys[1..], capped).value;
      assert RecipientAnys([r] + rest) == [anys[0]] + RecipientAnys(rest);
    }
  }

  lemma EncryptedIsOnly(a: Any)
    requires EncryptedFromAny(a).Some?
    ensures EncryptedToAny(EncryptedFromAny(a).value) == a
  {
    var f := Fields(a, SEQUENCE).value;
    FieldsCanonical(a, SEQUENCE);
    AlgorithmCanonical(f[1]);
    OptionalCanonical(f[2..], CONTEXT_0);
    EncryptedFieldsAre(EncryptedFromAny(a).value, f);
  }

  lemma EncryptedFieldsAre(e: EncryptedContent, f: seq<Any>)
    requires |f| >= 2 && f[0] == Any(0x06, e.contentType) && f[1] == AlgorithmToAny(e.alg)
    requires f[2..] == EncodeOptional(0x80, e.content) + []
    ensures EncryptedToAny(e) == Struct(f)
  {
    assert f == [f[0], f[1]] + f[2..];
    assert f[2..] == EncodeOptional(0x80, e.content);
  }

  /** An envelope as it was sent, its recipients in whatever order, is read as this one. */
  ghost predicate SentAs(sent: EnvelopedData, e: EnvelopedData, capped: bool) {
    && sent == e.(recipients := sent.recipients) && sent.version <= 5
    && (forall r :: r in sent.recipients ==> WellFormedRecipient(r, capped))
    && SetOf.FromSeq(sent.recipients, RecipientDer) == Some(e.recipients)
  }

  lemma EnvelopedFieldsAre(e: EnvelopedData, f: seq<Any>, g: seq<Any>)
    requires f != [] && f[0] == VersionToAny(e.version) && f[1..] == EncodeOptional(0xA0, e.originator) + g
    requires |g| >= 2 && g[0] == Any(0x31, EncodeAll(RecipientAnys(e.recipients))) &&
      g[1] == EncryptedToAny(e.encrypted)
    requires g[2..] == EncodeOptional(0xA1, e.unprotected) + []
    ensures f == EnvelopedFields(e)
  {
    assert f == [f[0]] + f[1..];
    assert g == [g[0], g[1]] + g[2..];
  }

  lemma EnvelopedIsOnly(a: Any, capped: bool, e: EnvelopedData) returns (sent: EnvelopedData)
    requires EnvelopedFromAny(a, capped) == Some(e)
    ensures a == Struct(EnvelopedFields(sent)) && SentAs(sent, e, capped)
  {
    var f := Fields(a, SEQUENCE).value;
    FieldsCanonical(a, SEQUENCE);
    VersionIsOnly(f[0]);
    OptionalCanonical(f[1..], CONTEXT_0_CONSTRUCTED);
    var (originator, g) := TakeOptional(f[1..], CONTEXT_0_CONSTRUCTED);
    FieldsCanonical(g[0], SET);
    var anys := Fields(g[0], SET).value;
    RecipientsAreOnly(anys, capped);
    EncryptedIsOnly(g[1]);
    OptionalCanonical(g[2..], CONTEXT_1_CONSTRUCTED);
    sent := e.(recipients := RecipientsFromAnys(anys, capped).value);
    EnvelopedFieldsAre(sent, f, g);
  }

  /**
   The reader takes exactly the envelopes of section 6.1 of RFC 5652, in any
   order of their recipients, which it puts in DER order.
   */
  lemma EnvelopedExactly(a: Any, capped: bool, e: EnvelopedData)
    requires Fits(a)
    ensures EnvelopedFromAny(a, capped) == Some(e) <==>
      exists sent :: SentAs(sent, e, capped) && a == Struct(EnvelopedFields(sent))
  {
    if EnvelopedFromAny(a, capped) == Some(e) { var sent := EnvelopedIsOnly(a, capped, e); }
    if sent :| SentAs(sent, e, capped) && a == Struct(EnvelopedFields(sent)) { AnyOrderReads(sent, e, capped); }
  }
}
