/**
 Authenticity in a symbolic model: signatures are ideal and the hash is
 injective. What a verifier accepts under an honest key, that key's holder
 signed in one `build_cert_rep` call.
 */
module Authenticity {
  import opened Wrappers
  import opened Der
  import opened Asn1
  import opened Primitives
  import opened Attributes
  import opened Sign
  import opened Verify
  import Envelope
  import SetOf

  /** One call of `build_cert_rep` by the honest signer. */
  datatype Signing = Signing(content: Option<bytes>, attrs: seq<Attribute>)

  function SortedAttributes(p: Primitives, s: Signing): Option<seq<Attribute>> {
    SetOf.FromSeq(AttributeList(p, s.content, s.attrs), AttributeDer)
  }

  /** The call got as far as signing: a set could be built and its octets printed. */
  ghost predicate ProperSigning(p: Primitives, s: Signing) {
    && ScepAttributes(s.attrs)
    && SortedAttributes(p, s).Some?
    && |EncodeAttributes(SortedAttributes(p, s).value)| <= MAX_LEN
  }

  ghost predicate SignedBy(p: Primitives, s: Signing, message: bytes) {
    SortedAttributes(p, s).Some? && message == SignedOctets(SortedAttributes(p, s).value)
  }

  /**
   Octets that begin as a SET does. Certificates, CSRs, CRLs and OCSP responses, signed with the same keys, are
   SEQUENCEs.
   */
  predicate BeginsAsSet(message: bytes) { message != [] && message[0] == SET }

  /** What else these keys sign, `TBSCertificate` first, is printed as a SEQUENCE. */
  lemma SequencesAreNoSets(a: Any)
    requires a.tag == SEQUENCE
    ensures !BeginsAsSet(EncodeAny(a))
  {
  }

  /** Ideal signature: a SET that verifies under the key was signed by one of these calls, with SHA-256. */
  ghost predicate Unforgeable(p: Primitives, publicKey: bytes, log: set<Signing>) {
    forall h, message, signature :: p.verifies(h, publicKey, message, signature) && BeginsAsSet(message) ==>
      h == Sha256 && exists s :: s in log && SignedBy(p, s, message)
  }

  ghost predicate CollisionFree(p: Primitives) {
    forall x, y :: p.hash(Sha256, x) == p.hash(Sha256, y) ==> x == y
  }

  /** Equal signed octets come from equal attribute sets. */
  lemma SignedOctetsInjective(a: seq<Attribute>, b: seq<Attribute>)
    requires ValidSet(a) && ValidSet(b)
    requires |EncodeAttributes(a)| <= MAX_LEN && |EncodeAttributes(b)| <= MAX_LEN
    requires SignedOctets(a) == SignedOctets(b)
    ensures a == b
  {
    AnyPrefixFree(Any(SET, EncodeAttributes(a)), Any(SET, EncodeAttributes(b)), [], []);
    assert SignedOctets(a) + [] == SignedOctets(a) && SignedOctets(b) + [] == SignedOctets(b);
    AttributesInjective(a, b);
  }

  lemma DigestAbsent(p: Primitives, s: Signing)
    requires ProperSigning(p, s) && s.content.None?
    ensures Find(SortedAttributes(p, s).value, ID_MESSAGE_DIGEST).None?
  {
    var list, sorted := AttributeList(p, None, s.attrs), SortedAttributes(p, s).value;
    SortedIsValid(p, None, s.attrs);
    AttributeListDistinct(p, None, s.attrs);
    FindOrderIrrelevant(list, sorted, ID_MESSAGE_DIGEST);
    FindIsMember(list, ID_MESSAGE_DIGEST);
    IdentifiersDiffer();
    assert forall a :: a in list ==> a == ContentTypeAttribute() || a in s.attrs;
  }

  lemma SignerWasRead(der: bytes) returns (a: Any)
    requires ReadMessage(der).Ok?
    ensures SignerInfoFromAny(a) == Some(ReadMessage(der).value.0)
  {
    var inner := ContentInfoFromAny(DecodeOnly(der).value).value.1;
    a := DecodeFirst(SignedDataFromAny(inner).value.signerInfos).value;
  }

  lemma ReadAttributesValid(der: bytes)
    requires ReadMessage(der).Ok? && ReadMessage(der).value.0.signedAttrs.Some?
    ensures ValidSet(ReadMessage(der).value.0.signedAttrs.value)
  {
    var a := SignerWasRead(der);
    SignerAttributesValid(a);
  }

  lemma SignerAttributesValid(a: Any)
    requires SignerInfoFromAny(a).Some? && SignerInfoFromAny(a).value.signedAttrs.Some?
    ensures ValidSet(SignerInfoFromAny(a).value.signedAttrs.value)
  {
    DecodedIsValid(TakeOptional(Fields(a, SEQUENCE).value[3..], CONTEXT_0_CONSTRUCTED).0.value);
  }

  /** What acceptance of a signer means: its attributes verified, and pin the digest of any content. */
  lemma AcceptedSigner(p: Primitives, signer: SignerInfo, cert: Certificate, content: Option<bytes>) returns (h: Hash)
    requires CheckSigner(p, signer, cert, content).Ok?
    ensures signer.signedAttrs.Some?
    ensures CheckSigner(p, signer, cert, content).value == Verified(signer.signedAttrs.value, content, cert)
    ensures p.verifies(h, cert.PublicKey(), SignedOctets(signer.signedAttrs.value), signer.signature)
    ensures |EncodeAttributes(signer.signedAttrs.value)| <= MAX_LEN
    ensures content.Some? ==> ReadOctets(signer.signedAttrs.value, ID_MESSAGE_DIGEST) == Ok(p.hash(h, content.value))
  {
    h := HashOf(signer.digestAlg.oid).value;
  }

  /** A digest attribute that matches some content pins it to the content of the call. */
  lemma ContentOfSigning(p: Primitives, s: Signing, attrs: seq<Attribute>, content: bytes)
    requires ProperSigning(p, s) && SortedAttributes(p, s) == Some(attrs)
    requires CollisionFree(p)
    requires ReadOctets(attrs, ID_MESSAGE_DIGEST) == Ok(p.hash(Sha256, content))
    ensures s.content == Some(content)
  {
    if s.content.None? {
      DigestAbsent(p, s);
    } else {
      SortedIsValid(p, s.content, s.attrs);
      DigestFound(p, s.content.value, s.attrs, attrs);
    }
  }

  lemma LoggedAttributes(p: Primitives, s: Signing, attrs: seq<Attribute>)
    requires ProperSigning(p, s) && SignedBy(p, s, SignedOctets(attrs))
    requires ValidSet(attrs) && |EncodeAttributes(attrs)| <= MAX_LEN
    ensures SortedAttributes(p, s) == Some(attrs)
  {
    SortedIsValid(p, s.content, s.attrs);
    SignedOctetsInjective(attrs, SortedAttributes(p, s).value);
  }

  lemma IdealSignature(p: Primitives, log: set<Signing>, publicKey: bytes, h: Hash, message: bytes, signature: bytes)
    returns (s: Signing)
    requires Unforgeable(p, publicKey, log)
    requires p.verifies(h, publicKey, message, signature) && BeginsAsSet(message)
    ensures h == Sha256 && s in log && SignedBy(p, s, message)
  {
    s :| s in log && SignedBy(p, s, message);
  }

  /** What acceptance of a message means, in terms of the verified parts alone. */
  ghost predicate Accepted(p: Primitives, v: Verified, h: Hash, signature: bytes) {
    && ValidSet(v.attrs) && |EncodeAttributes(v.attrs)| <= MAX_LEN
    && p.verifies(h, v.signer.PublicKey(), SignedOctets(v.attrs), signature)
    && (v.content.Some? ==> ReadOctets(v.attrs, ID_MESSAGE_DIGEST) == Ok(p.hash(h, v.content.value)))
  }

  lemma VerifiedIsAccepted(p: Primitives, der: bytes, v: Verified) returns (h: Hash, signature: bytes)
    requires VerifyMessage(p, der) == Ok(v)
    ensures Accepted(p, v, h, signature)
  {
    var (signer, cert, content) := ReadMessage(der).value;
    h := AcceptedSigner(p, signer, cert, content);
    ReadAttributesValid(der);
    signature := signer.signature;
  }

  lemma AcceptedInLog(p: Primitives, log: set<Signing>, v: Verified, h: Hash, signature: bytes) returns (s: Signing)
    requires forall c :: c in log ==> ProperSigning(p, c)
    requires Accepted(p, v, h, signature)
    requires Unforgeable(p, v.signer.PublicKey(), log) && CollisionFree(p)
    ensures s in log && SortedAttributes(p, s) == Some(v.attrs)
    ensures v.content.Some? ==> v.content == s.content
  {
    assert BeginsAsSet(SignedOctets(v.attrs));
    s := IdealSignature(p, log, v.signer.PublicKey(), h, SignedOctets(v.attrs), signature);
    LoggedAttributes(p, s, v.attrs);
    if v.content.Some? {
      ContentOfSigning(p, s, v.attrs, v.content.value);
    }
  }

  /**
   Any accepted message that verifies under an honest signer's key has exactly
   the attributes of one call, and any content it carries is the content of that
   call.
   */
  lemma AcceptedWasSigned(p: Primitives, log: set<Signing>, der: bytes, v: Verified) returns (s: Signing)
    requires forall c :: c in log ==> ProperSigning(p, c)
    requires VerifyMessage(p, der) == Ok(v)
    requires Unforgeable(p, v.signer.PublicKey(), log) && CollisionFree(p)
    ensures s in log && SortedAttributes(p, s) == Some(v.attrs)
    ensures v.content.Some? ==> v.content == s.content
  {
    var h, signature := VerifiedIsAccepted(p, der, v);
    s := AcceptedInLog(p, log, v, h, signature);
  }

  /**
   The same, said of what the server reads: type, transaction ID and nonce are
   those the signer put in one call, and an envelope is the one signed there.
   */
  lemma AcceptedFieldsWereSigned(p: Primitives, log: set<Signing>, der: bytes, r: ParsedRequest) returns (s: Signing)
    requires forall c :: c in log ==> ProperSigning(p, c)
    requires ParseAndVerify(p, der) == Ok(r)
    requires Unforgeable(p, r.recipient.publicKey, log) && CollisionFree(p)
    ensures s in log
    ensures ReadString(s.attrs, ID_MESSAGE_TYPE).Ok?
      && MessageTypeFromValue(ReadString(s.attrs, ID_MESSAGE_TYPE).value) == Ok(r.messageType)
    ensures ReadString(s.attrs, ID_TRANSACTION_ID) == Ok(r.transactionId)
    ensures ReadOctets(s.attrs, ID_SENDER_NONCE) == Ok(r.senderNonce)
    ensures r.enveloped.Some? ==> s.content.Some? && Envelope.Parse(s.content.value) == Ok(r.enveloped.value)
  {
    var v := VerifyMessage(p, der).value;
    ExtractedFrom(v, r);
    s := AcceptedWasSigned(p, log, der, v);
    SortedIsValid(p, s.content, s.attrs);
    LookupsUnchanged(p, s.content, s.attrs, v.attrs);
    assert ID_MESSAGE_TYPE in ReplyOids() && ID_TRANSACTION_ID in ReplyOids() && ID_SENDER_NONCE in ReplyOids();
  }

  lemma ExtractedFrom(v: Verified, r: ParsedRequest)
    requires Extract(v) == Ok(r)
    ensures v.signer.PublicKey() == r.recipient.publicKey
    ensures ReadString(v.attrs, ID_MESSAGE_TYPE).Ok?
      && MessageTypeFromValue(ReadString(v.attrs, ID_MESSAGE_TYPE).value) == Ok(r.messageType)
    ensures ReadString(v.attrs, ID_TRANSACTION_ID) == Ok(r.transactionId)
    ensures ReadOctets(v.attrs, ID_SENDER_NONCE) == Ok(r.senderNonce)
    ensures r.enveloped.Some? ==> v.content.Some? && Envelope.Parse(v.content.value) == Ok(r.enveloped.value)
  {
  }

  /**
   The ideal assumptions are consistent with the laws, whatever was signed: the
   logged calls, and any other octets that do not begin as a SET, under any key.
   */
  lemma IdealPrimitivesExist(log: set<Signing>, others: set<bytes>) returns (p: Primitives)
    requires forall m :: m in others ==> !BeginsAsSet(m)
    ensures Lawful(p) && CollisionFree(p)
    ensures forall key :: Unforgeable(p, key, log)
    ensures forall s, key :: s in log && SortedAttributes(p, s).Some? ==>
      p.sign(key, SignedOctets(SortedAttributes(p, s).value)).Some?
    ensures forall m, key :: m in others ==>
      p.sign(key, m).Some? && p.verifies(Sha256, p.publicKey(key), m, p.sign(key, m).value)
  {
    var q := LawfulExists();
    p := q.(sign := (key: bytes, m: bytes) =>
              if m in others || exists s :: s in log && SignedBy(q, s, m) then Some([]) else None,
            verifies := (h: Hash, key: bytes, m: bytes, signature: bytes) =>
                          h == Sha256 && (m in others || exists s :: s in log && SignedBy(q, s, m)));
    forall s ensures SortedAttributes(p, s) == SortedAttributes(q, s) {
      SameHash(p, q, s);
    }
    forall s, m ensures SignedBy(p, s, m) <==> SignedBy(q, s, m) {
    }
    forall s | s in log && SortedAttributes(p, s).Some?
      ensures SignedBy(q, s, SignedOctets(SortedAttributes(p, s).value))
    {
    }
  }

  lemma SameHash(p: Primitives, q: Primitives, s: Signing)
    requires p.hash == q.hash
    ensures SortedAttributes(p, s) == SortedAttributes(q, s)
  {
    assert AttributeList(p, s.content, s.attrs) == AttributeList(q, s.content, s.attrs);
  }
}
