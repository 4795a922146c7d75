/** What the device gets: properties of every reply of `pki_operation`. */
module Exchange {
  import opened Wrappers
  import opened Asn1
  import opened Primitives
  import opened Attributes
  import opened Sign
  import opened Verify
  import opened AppState
  import opened Scep
  import Challenge
  import Envelope
  import Der
  import opened Text
  import Repository
  import SetOf

  /** The numbers of section 3.2.1.4.5 of RFC 8894. */
  function Code(fail: FailInfo): string {
    match fail
    case BadAlg => "0"
    case BadMessageCheck => "1"
    case BadRequestInfo => "2"
    case BadTime => "3"
    case BadCertId => "4"
  }

  /** What a reply's signed attributes say, in the numbers of section 3.2.1 of RFC 8894. */
  ghost predicate Says(attrs: seq<Attribute>, r: ParsedRequest, fail: Option<FailInfo>, nonce: bytes) {
    && ReadString(attrs, ID_MESSAGE_TYPE) == Ok("3")
    && ReadString(attrs, ID_PKI_STATUS) == Ok(if fail.None? then "0" else "2")
    && ReadString(attrs, ID_TRANSACTION_ID) == Ok(r.transactionId)
    && ReadOctets(attrs, ID_RECIPIENT_NONCE) == Ok(r.senderNonce)
    && ReadOctets(attrs, ID_SENDER_NONCE) == Ok(nonce)
    && (fail.None? <==> Find(attrs, ID_FAIL_INFO).None?)
    && (fail.Some? ==> ReadString(attrs, ID_FAIL_INFO) == Ok(Code(fail.value)))
  }

  /** The CA signs with the key its certificate carries. */
  ghost predicate OwnKey(p: Primitives, ca: CertificateAuthority) { ca.cert.PublicKey() == p.publicKey(ca.key) }

  function TextAttribute(oid: Oid, value: string): Attribute {
    Attribute(oid, [Der.Any(Der.PRINTABLE_STRING, EncodeUtf8(value))])
  }

  function OctetsAttribute(oid: Oid, value: bytes): Attribute { Attribute(oid, [Der.Any(Der.OCTET_STRING, value)]) }

  lemma BuiltAttributes(oid: Oid, value: string, octets: bytes)
    ensures PrintableAttribute(oid, value) ==
      if Printable(value) then Ok(TextAttribute(oid, value)) else Err(CryptoError)
    ensures OctetAttribute(oid, octets) == Ok(OctetsAttribute(oid, octets))
  {
    var text, octet := Der.Any(Der.PRINTABLE_STRING, EncodeUtf8(value)), Der.Any(Der.OCTET_STRING, octets);
    assert [text] + [] == [text] && [octet] + [] == [octet];
  }

  lemma TextReads(attrs: seq<Attribute>, oid: Oid, value: string)
    requires DistinctOids(attrs) && TextAttribute(oid, value) in attrs && Printable(value)
    ensures ReadString(attrs, oid) == Ok(value)
  {
    FindMember(attrs, TextAttribute(oid, value));
    Utf8RoundTrip(value);
  }

  lemma OctetsRead(attrs: seq<Attribute>, oid: Oid, value: bytes)
    requires DistinctOids(attrs) && OctetsAttribute(oid, value) in attrs
    ensures ReadOctets(attrs, oid) == Ok(value)
  {
    FindMember(attrs, OctetsAttribute(oid, value));
  }

  lemma Numbers()
    ensures SUCCESS == "0" && FAILURE == "2" && CertRep.AsValue() == "3"
    ensures forall f: FailInfo :: f.AsValue() == Code(f)
    ensures Printable("0") && Printable("2") && Printable("3") && forall f: FailInfo :: Printable(Code(f))
  {
  }

  lemma SuccessList(id: string, recipient: bytes, nonce: bytes)
    ensures SuccessAttrs(id, recipient, nonce) ==
      if Printable(id) then
        Ok([TextAttribute(ID_MESSAGE_TYPE, "3"), TextAttribute(ID_PKI_STATUS, "0"),
            TextAttribute(ID_TRANSACTION_ID, id),
            OctetsAttribute(ID_SENDER_NONCE, nonce), OctetsAttribute(ID_RECIPIENT_NONCE, recipient)])
      else Err(CryptoError)
  {
    Numbers();
    BuiltAttributes(ID_MESSAGE_TYPE, "3", []);
    BuiltAttributes(ID_PKI_STATUS, "0", []);
    BuiltAttributes(ID_TRANSACTION_ID, id, []);
    BuiltAttributes(ID_SENDER_NONCE, [], nonce);
    BuiltAttributes(ID_RECIPIENT_NONCE, [], recipient);
  }

  lemma FailureList(id: string, recipient: bytes, fail: FailInfo, nonce: bytes)
    ensures FailureAttrs(id, recipient, fail, nonce) ==
      if Printable(id) then
        Ok([TextAttribute(ID_MESSAGE_TYPE, "3"), TextAttribute(ID_PKI_STATUS, "2"),
            TextAttribute(ID_FAIL_INFO, Code(fail)),
            TextAttribute(ID_TRANSACTION_ID, id), OctetsAttribute(ID_SENDER_NONCE, nonce),
            OctetsAttribute(ID_RECIPIENT_NONCE, recipient)])
      else Err(CryptoError)
  {
    Numbers();
    BuiltAttributes(ID_MESSAGE_TYPE, "3", []);
    BuiltAttributes(ID_PKI_STATUS, "2", []);
    BuiltAttributes(ID_FAIL_INFO, Code(fail), []);
    BuiltAttributes(ID_TRANSACTION_ID, id, []);
    BuiltAttributes(ID_SENDER_NONCE, [], nonce);
    BuiltAttributes(ID_RECIPIENT_NONCE, [], recipient);
  }

  /** Attributes with these identifiers, each at most once, make a SCEP list. */
  lemma ReplyList(attrs: seq<Attribute>)
    requires forall i :: 0 <= i < |attrs| ==> attrs[i].oid in ReplyOids() && |attrs[i].values| == 1
    requires forall i, j :: 0 <= i < j < |attrs| ==> attrs[i].oid != attrs[j].oid
    ensures ScepAttributes(attrs)
  {
    IdentifiersDiffer();
  }

  /** The attributes of a success reply say success. */
  lemma SuccessAttributesSay(r: ParsedRequest, nonce: bytes, attrs: seq<Attribute>)
    requires SuccessAttrs(r.transactionId, r.senderNonce, nonce) == Ok(attrs)
    ensures Printable(r.transactionId) && ScepAttributes(attrs) && Says(attrs, r, None, nonce)
  {
    SuccessList(r.transactionId, r.senderNonce, nonce);
    Numbers();
    SuccessShape(attrs);
    ReplyList(attrs);
    TextReads(attrs, ID_MESSAGE_TYPE, "3");
    TextReads(attrs, ID_PKI_STATUS, "0");
    TextReads(attrs, ID_TRANSACTION_ID, r.transactionId);
    OctetsRead(attrs, ID_SENDER_NONCE, nonce);
    OctetsRead(attrs, ID_RECIPIENT_NONCE, r.senderNonce);
    FindIsMember(attrs, ID_FAIL_INFO);
  }

  lemma SuccessShape(attrs: seq<Attribute>)
    requires |attrs| == 5
    requires attrs[0].oid == ID_MESSAGE_TYPE && attrs[1].oid == ID_PKI_STATUS && attrs[2].oid == ID_TRANSACTION_ID
    requires attrs[3].oid == ID_SENDER_NONCE && attrs[4].oid == ID_RECIPIENT_NONCE
    ensures DistinctOids(attrs)
    ensures forall i :: 0 <= i < |attrs| ==> attrs[i].oid in ReplyOids() && attrs[i].oid != ID_FAIL_INFO
  {
    LastOctets();
    LastOctetsDiffer(attrs);
  }

  lemma LastOctets()
    ensures ID_MESSAGE_TYPE[9] == 2 && ID_PKI_STATUS[9] == 3 && ID_FAIL_INFO[9] == 4
    ensures ID_SENDER_NONCE[9] == 5 && ID_RECIPIENT_NONCE[9] == 6 && ID_TRANSACTION_ID[9] == 7
  {
  }

  lemma LastOctetsDiffer(attrs: seq<Attribute>)
    requires forall i :: 0 <= i < |attrs| ==> |attrs[i].oid| == 10
    requires forall i, j :: 0 <= i < j < |attrs| ==> attrs[i].oid[9] != attrs[j].oid[9]
    ensures DistinctOids(attrs)
  {
  }

  /** The same for a failure reply. */
  lemma FailureAttributesSay(r: ParsedRequest, fail: FailInfo, nonce: bytes, attrs: seq<Attribute>)
    requires FailureAttrs(r.transactionId, r.senderNonce, fail, nonce) == Ok(attrs)
    ensures Printable(r.transactionId) && ScepAttributes(attrs) && Says(attrs, r, Some(fail), nonce)
  {
    FailureList(r.transactionId, r.senderNonce, fail, nonce);
    FailureIsScep(attrs);
    FailureReads(attrs, fail, r.transactionId);
    OctetsRead(attrs, ID_SENDER_NONCE, nonce);
    OctetsRead(attrs, ID_RECIPIENT_NONCE, r.senderNonce);
  }

  lemma FailureIsScep(attrs: seq<Attribute>)
    requires |attrs| == 6 && forall i :: 0 <= i < |attrs| ==> |attrs[i].values| == 1
    requires attrs[0].oid == ID_MESSAGE_TYPE && attrs[1].oid == ID_PKI_STATUS && attrs[2].oid == ID_FAIL_INFO
    requires attrs[3].oid == ID_TRANSACTION_ID && attrs[4].oid == ID_SENDER_NONCE && attrs[5].oid == ID_RECIPIENT_NONCE
    ensures ScepAttributes(attrs)
  {
    FailureShape(attrs);
    ReplyList(attrs);
  }

  lemma FailureReads(attrs: seq<Attribute>, fail: FailInfo, id: string)
    requires DistinctOids(attrs) && Printable(id)
    requires TextAttribute(ID_MESSAGE_TYPE, "3") in attrs && TextAttribute(ID_PKI_STATUS, "2") in attrs
    requires TextAttribute(ID_FAIL_INFO, Code(fail)) in attrs && TextAttribute(ID_TRANSACTION_ID, id) in attrs
    ensures ReadString(attrs, ID_MESSAGE_TYPE) == Ok("3") && ReadString(attrs, ID_PKI_STATUS) == Ok("2")
    ensures ReadString(attrs, ID_FAIL_INFO) == Ok(Code(fail)) && Find(attrs, ID_FAIL_INFO).Some?
    ensures ReadString(attrs, ID_TRANSACTION_ID) == Ok(id)
  {
    Numbers();
    TextReads(attrs, ID_MESSAGE_TYPE, "3");
    TextReads(attrs, ID_PKI_STATUS, "2");
    TextReads(attrs, ID_FAIL_INFO, Code(fail));
    TextReads(attrs, ID_TRANSACTION_ID, id);
    FindMember(attrs, TextAttribute(ID_FAIL_INFO, Code(fail)));
  }

  lemma FailureShape(attrs: seq<Attribute>)
    requires |attrs| == 6
    requires attrs[0].oid == ID_MESSAGE_TYPE && attrs[1].oid == ID_PKI_STATUS && attrs[2].oid == ID_FAIL_INFO
    requires attrs[3].oid == ID_TRANSACTION_ID && attrs[4].oid == ID_SENDER_NONCE && attrs[5].oid == ID_RECIPIENT_NONCE
    ensures DistinctOids(attrs)
    ensures forall i :: 0 <= i < |attrs| ==> attrs[i].oid in ReplyOids()
  {
    LastOctets();
    LastOctetsDiffer(attrs);
  }

  lemma SaysByLookup(a: seq<Attribute>, b: seq<Attribute>, r: ParsedRequest, fail: Option<FailInfo>, nonce: bytes)
    requires forall oid :: oid in ReplyOids() ==> Find(a, oid) == Find(b, oid)
    requires Says(b, r, fail, nonce)
    ensures Says(a, r, fail, nonce)
  {
    assert ID_MESSAGE_TYPE in ReplyOids() && ID_PKI_STATUS in ReplyOids() && ID_FAIL_INFO in ReplyOids();
    assert ID_SENDER_NONCE in ReplyOids() && ID_RECIPIENT_NONCE in ReplyOids() && ID_TRANSACTION_ID in ReplyOids();
  }

  /** How the parser reads a verified reply. */
  lemma ExtractReply(v: Verified, r: ParsedRequest, fail: Option<FailInfo>, nonce: bytes)
    requires Says(v.attrs, r, fail, nonce)
    ensures Extract(v).Ok? <==> (v.content.Some? ==> Envelope.Parse(v.content.value).Ok?)
    ensures Extract(v).Ok? ==>
      && Extract(v).value.messageType == CertRep && Extract(v).value.transactionId == r.transactionId
      && Extract(v).value.senderNonce == nonce
      && Extract(v).value.enveloped == if v.content.Some? then Some(Envelope.Parse(v.content.value).value) else None
  {
    MessageTypeRoundTrip(CertRep, "", "");
  }

  /**
   A reply verifies exactly when the CA's signature checks under its certificate, and says what its attributes say.
   */
  lemma ReplyVerifies(s: Services, ca: CertificateAuthority, content: Option<bytes>, attrs: seq<Attribute>,
                      r: ParsedRequest, fail: Option<FailInfo>, nonce: bytes, reply: bytes) returns (v: Verified)
    requires ScepAttributes(attrs) && Says(attrs, r, fail, nonce)
    requires SignedReply(s.p, ca.key, ca.cert, content, attrs) == Ok(reply)
    ensures Verifies(s.p, ca, reply, v) && v.content == content
    ensures Says(v.attrs, r, fail, nonce)
  {
    v := SignedVerifiesExactly(s.p, ca.key, ca.cert, content, attrs, reply);
    LookupsUnchanged(s.p, content, attrs, v.attrs);
    SaysByLookup(v.attrs, attrs, r, fail, nonce);
    if VerifyMessage(s.p, reply).Ok? { ParseOfVerified(s.p, reply, v); }
  }

  /** The reply verifies as `v`, signed by the CA, or its signature does not check under the CA's own certificate. */
  ghost predicate Verifies(p: Primitives, ca: CertificateAuthority, reply: bytes, v: Verified) {
    && v.signer == ca.cert && p.sign(ca.key, SignedOctets(v.attrs)).Some?
    && (VerifyMessage(p, reply).Ok? <==> SignatureChecks(p, ca.key, ca.cert, v.attrs))
    && (VerifyMessage(p, reply).Ok? ==> VerifyMessage(p, reply) == Ok(v) && ParseAndVerify(p, reply) == Extract(v))
  }

  lemma FailureExchange(s: Services, ca: CertificateAuthority, r: ParsedRequest, fail: FailInfo, nonce: bytes,
                        reply: bytes)
    returns (v: Verified)
    requires FailureReply(s, ca, r, fail, nonce) == Ok(reply)
    ensures Verifies(s.p, ca, reply, v) && v.content == None
    ensures Says(v.attrs, r, Some(fail), nonce)
    ensures Extract(v).Ok? && Echoes(Extract(v).value, r, nonce) && Extract(v).value.enveloped == None
  {
    var attrs := FailureAttrs(r.transactionId, r.senderNonce, fail, nonce).value;
    FailureAttributesSay(r, fail, nonce, attrs);
    v := ReplyVerifies(s, ca, None, attrs, r, Some(fail), nonce, reply);
    ExtractReply(v, r, Some(fail), nonce);
  }

  /** A parsed reply that answers the request. */
  ghost predicate Echoes(reply: ParsedRequest, r: ParsedRequest, nonce: bytes) {
    reply.messageType == CertRep && reply.transactionId == r.transactionId && reply.senderNonce == nonce
  }

  /** Whoever holds the key the request was signed with recovers the payload, under any certificate. */
  ghost predicate Opens(p: Primitives, e: Envelope.EnvelopedData, publicKey: bytes, payload: bytes) {
    forall key, cert :: p.publicKey(key) == publicKey ==> Envelope.Open(p, e, cert, key) == Ok(payload)
  }

  /**
   The content, read with or without the cap, opens for the requester to the certs-only encoding, which reads back.
   */
  ghost predicate Carries(p: Primitives, content: bytes, capped: bool, r: ParsedRequest, cert: Certificate) {
    && CertsOnly(cert).Ok? && FirstCertificate(CertsOnly(cert).value) == Some(cert)
    && Envelope.ParseAs(content, capped).Ok?
    && Opens(p, Envelope.ParseAs(content, capped).value, r.recipient.publicKey, CertsOnly(cert).value)
  }

  /** What an envelope printed for the requester carries, for either reader. */
  lemma EnvelopeCarries(p: Primitives, cert: Certificate, r: ParsedRequest, rand: Envelope.Randomness, payload: bytes,
                        envelope: bytes, capped: bool)
    requires Lawful(p) && rand.Valid() && CertsOnly(cert) == Ok(payload)
    requires Envelope.EnvelopeFor(p, payload, r.recipient, rand) == Ok(envelope)
    ensures Envelope.ParseAs(envelope, capped).Ok? <==> (capped ==> StrictSerial(r.recipient.serial))
    ensures Envelope.ParseAs(envelope, capped).Ok? ==> Carries(p, envelope, capped, r, cert)
  {
    var encKey := Envelope.EnvelopeParses(p, payload, r.recipient, rand, envelope, capped);
    CertsOnlyRoundTrip(cert, payload);
    if Envelope.ParseAs(envelope, capped).Ok? {
      forall key, own | p.publicKey(key) == r.recipient.publicKey
        ensures Envelope.Open(p, Envelope.ParseAs(envelope, capped).value, own, key) == Ok(payload)
      {
        Envelope.PrintedOpens(p, payload, r.recipient, rand, encKey, key, own);
      }
    }
  }

  lemma SuccessExchange(s: Services, ca: CertificateAuthority, r: ParsedRequest, issued: Certificate,
                        rand: Envelope.Randomness, nonce: bytes, reply: bytes) returns (v: Verified, envelope: bytes)
    requires Lawful(s.p) && rand.Valid()
    requires SuccessReply(s, ca, r, issued, rand, nonce) == Ok(reply)
    ensures Verifies(s.p, ca, reply, v) && v.content == Some(envelope)
    ensures Says(v.attrs, r, None, nonce)
    ensures Carries(s.p, envelope, false, r, issued)
    ensures Extract(v).Ok? <==> StrictSerial(r.recipient.serial)
    ensures Extract(v).Ok? ==> Echoes(Extract(v).value, r, nonce) && Carries(s.p, envelope, true, r, issued)
    ensures Extract(v).Ok? ==>
      Envelope.Parse(envelope).Ok? && Extract(v).value.enveloped == Some(Envelope.Parse(envelope).value)
  {
    var payload := CertsOnly(issued).value;
    envelope := Envelope.EnvelopeFor(s.p, payload, r.recipient, rand).value;
    var attrs := SuccessAttrs(r.transactionId, r.senderNonce, nonce).value;
    SuccessAttributesSay(r, nonce, attrs);
    v := ReplyVerifies(s, ca, Some(envelope), attrs, r, None, nonce, reply);
    ExtractReply(v, r, None, nonce);
    EnvelopeCarries(s.p, issued, r, rand, payload, envelope, true);
    EnvelopeCarries(s.p, issued, r, rand, payload, envelope, false);
  }

  /** A certificate was issued in this run. */
  ghost predicate Issued(st: State, s: Services, profile: string, body: bytes, w: World, cert: Certificate)
    requires w.Valid()
  {
    var a := Admit(st, s, profile, body);
    && a.Admitted? && Challenge.Approves(a.job.rt.validator, a.job.Input(), w.verdict)
    && Issue(s, IssuanceFor(st, a.job, w.serialRandom, w.now)) == Some(cert)
  }

  /** How a reply came about. */
  datatype Outcome =
    | Failed(ca: CertificateAuthority, fail: FailInfo)
    | Succeeded(ca: CertificateAuthority, cert: Certificate)

  /** The outcome of an admitted request. */
  function AdmittedOutcome(st: State, s: Services, job: Job, w: World): Outcome
    requires w.Valid()
  {
    if !Challenge.Approves(job.rt.validator, job.Input(), w.verdict) then Failed(job.ca, BadRequestInfo)
    else
      match Issue(s, IssuanceFor(st, job, w.serialRandom, w.now))
      case None => Failed(job.ca, BadRequestInfo)
      case Some(cert) => Succeeded(job.ca, cert)
  }

  /** The outcome of one request, if it gets as far as having one. */
  function OutcomeOf(st: State, s: Services, profile: string, body: bytes, w: World): Option<Outcome>
    requires w.Valid()
  {
    match Admit(st, s, profile, body)
    case Refused(_) => None
    case Unopened(ca, _) => Some(Failed(ca, BadMessageCheck))
    case Admitted(job) => Some(AdmittedOutcome(st, s, job, w))
  }

  lemma AdmittedCa(st: State, s: Services, profile: string, body: bytes, a: Admission)
    requires Admit(st, s, profile, body) == a && !a.Refused?
    ensures profile in st.profiles && st.profiles[profile].caId in st.cas
    ensures (if a.Unopened? then a.ca else a.job.ca) == st.cas[st.profiles[profile].caId]
  {
  }

  lemma AdmittedRequest(st: State, s: Services, profile: string, body: bytes, a: Admission)
    requires Admit(st, s, profile, body) == a && !a.Refused?
    ensures ParseAndVerify(s.p, body) == Ok(if a.Unopened? then a.request else a.job.request)
    ensures var r := if a.Unopened? then a.request else a.job.request;
      (r.messageType.PkcsReq? || r.messageType.RenewalReq?) && r.enveloped.Some?
  {
  }

  lemma OutcomeCa(st: State, s: Services, profile: string, body: bytes, w: World, o: Outcome)
    requires w.Valid() && OutcomeOf(st, s, profile, body, w) == Some(o)
    ensures profile in st.profiles && st.profiles[profile].caId in st.cas && o.ca == st.cas[st.profiles[profile].caId]
    ensures o.Succeeded? ==> Issued(st, s, profile, body, w, o.cert)
    ensures o.Failed? ==> forall cert :: !Issued(st, s, profile, body, w, cert)
  {
    AdmittedCa(st, s, profile, body, Admit(st, s, profile, body));
  }

  lemma ReplyOfAdmitted(st: State, s: Services, job: Job, w: World, reply: bytes)
    requires w.Valid() && AdmittedReply(st, s, job, w) == Ok(reply)
    ensures var o := AdmittedOutcome(st, s, job, w);
      && (o.Failed? ==> FailureReply(s, o.ca, job.request, o.fail, w.nonce) == Ok(reply))
      && (o.Succeeded? ==> SuccessReply(s, o.ca, job.request, o.cert, w.envelope, w.nonce) == Ok(reply))
  {
  }

  lemma ReplyOfOutcome(st: State, s: Services, profile: string, body: bytes, w: World, r: ParsedRequest, reply: bytes)
    returns (o: Outcome)
    requires w.Valid()
    requires Reply(st, s, profile, body, w) == Ok(reply)
    requires ParseAndVerify(s.p, body) == Ok(r)
    ensures OutcomeOf(st, s, profile, body, w) == Some(o)
    ensures o.Failed? ==> FailureReply(s, o.ca, r, o.fail, w.nonce) == Ok(reply)
    ensures o.Succeeded? ==> SuccessReply(s, o.ca, r, o.cert, w.envelope, w.nonce) == Ok(reply)
  {
    var a := Admit(st, s, profile, body);
    AdmittedRequest(st, s, profile, body, a);
    if a.Admitted? { ReplyOfAdmitted(st, s, a.job, w, reply); }
    o := OutcomeOf(st, s, profile, body, w).value;
  }

  /** The reply's parts match its status, as the parser sees them. */
  ghost predicate Answers(p: Primitives, reply: bytes, r: ParsedRequest, nonce: bytes, success: bool) {
    && ParseAndVerify(p, reply).Ok?
    && Echoes(ParseAndVerify(p, reply).value, r, nonce)
    && (ParseAndVerify(p, reply).value.enveloped.Some? <==> success)
  }

  /**
   The requester's key opens the parsed reply to the certs-only encoding of the certificate, which reads back as it.
   */
  ghost predicate Delivers(p: Primitives, reply: bytes, r: ParsedRequest, cert: Certificate) {
    && ParseAndVerify(p, reply).Ok? && ParseAndVerify(p, reply).value.enveloped.Some?
    && CertsOnly(cert).Ok? && FirstCertificate(CertsOnly(cert).value) == Some(cert)
    && Opens(p, ParseAndVerify(p, reply).value.enveloped.value, r.recipient.publicKey, CertsOnly(cert).value)
  }

  /** The envelope does not open under the CA's key, or what it holds is no CSR. */
  ghost predicate Unreadable(s: Services, ca: CertificateAuthority, r: ParsedRequest) {
    && r.enveloped.Some?
    && var plain := Envelope.Open(s.p, r.enveloped.value, ca.cert, ca.key);
       plain.Err? || s.readCsr(plain.value) == None
  }

  /** Which failure it is. */
  lemma OutcomeFails(st: State, s: Services, profile: string, body: bytes, w: World, r: ParsedRequest, o: Outcome)
    requires w.Valid() && OutcomeOf(st, s, profile, body, w) == Some(o) && ParseAndVerify(s.p, body) == Ok(r)
    ensures r.enveloped.Some? && (o.Succeeded? ==> !Unreadable(s, o.ca, r))
    ensures o.Failed? ==> o.fail == if Unreadable(s, o.ca, r) then BadMessageCheck else BadRequestInfo
  {
    AdmittedRequest(st, s, profile, body, Admit(st, s, profile, body));
    AdmittedCa(st, s, profile, body, Admit(st, s, profile, body));
    ParsedAdmission(st, s, profile, body, r);
  }

  lemma ParsedAdmission(st: State, s: Services, profile: string, body: bytes, r: ParsedRequest)
    requires !Admit(st, s, profile, body).Refused? && ParseAndVerify(s.p, body) == Ok(r)
    ensures profile in st.profiles && st.profiles[profile].caId in st.cas
    ensures var ca := st.cas[st.profiles[profile].caId];
      && Admit(st, s, profile, body) == AdmitParsed(s, st.profiles[profile], ca, r)
      && (Admit(st, s, profile, body).Unopened? <==> Unreadable(s, ca, r))
  {
  }

  lemma IssuedOnce(st: State, s: Services, profile: string, body: bytes, w: World, cert: Certificate)
    requires w.Valid() && Issued(st, s, profile, body, w, cert)
    ensures forall other :: Issued(st, s, profile, body, w, other) ==> other == cert
  {
  }

  /**
   The full exchange. Whenever a reply is sent, the request verified, and the
   reply says CertRep, echoes its transaction ID and carries its nonce as
   recipientNonce; success, an envelope and no failInfo go together, and mean a
   certificate was issued. The reply verifies exactly when the CA's signature
   checks under the CA's certificate: always for a CA that signs with the key it
   shows, and, where signatures distinguish keys, for no other. The parser then
   accepts it exactly when it is a failure or the requester's serial fits the
   cap; but for every serial a client that reads without the cap opens the
   envelope to exactly the certificate just issued.
   */
  lemma FullExchange(st: State, s: Services, profile: string, body: bytes, w: World, r: ParsedRequest, reply: bytes)
    returns (ca: CertificateAuthority, v: Verified, fail: Option<FailInfo>)
    requires Lawful(s.p) && w.Valid()
    requires Reply(st, s, profile, body, w) == Ok(reply)
    requires ParseAndVerify(s.p, body) == Ok(r)
    ensures profile in st.profiles && st.profiles[profile].caId in st.cas && ca == st.cas[st.profiles[profile].caId]
    ensures Says(v.attrs, r, fail, w.nonce) && (fail.None? <==> v.content.Some?)
    ensures Verifies(s.p, ca, reply, v)
    ensures OwnKey(s.p, ca) ==> VerifyMessage(s.p, reply) == Ok(v)
    ensures Distinguishing(s.p) ==> (VerifyMessage(s.p, reply).Ok? <==> OwnKey(s.p, ca))
    ensures ParseAndVerify(s.p, reply).Ok? <==>
      VerifyMessage(s.p, reply).Ok? && (fail.Some? || StrictSerial(r.recipient.serial))
    ensures ParseAndVerify(s.p, reply).Ok? ==> Answers(s.p, reply, r, w.nonce, fail.None?)
    ensures fail.None? <==> exists cert :: Issued(st, s, profile, body, w, cert)
    ensures fail.Some? ==> fail.value == if Unreadable(s, ca, r) then BadMessageCheck else BadRequestInfo
    ensures Unreadable(s, ca, r) ==> fail.Some?
    ensures forall cert :: Issued(st, s, profile, body, w, cert) ==>
      && v.content.Some? && Carries(s.p, v.content.value, false, r, cert)
      && (ParseAndVerify(s.p, reply).Ok? ==> Delivers(s.p, reply, r, cert))
  {
    var o := ReplyOfOutcome(st, s, profile, body, w, r, reply);
    OutcomeCa(st, s, profile, body, w, o);
    OutcomeFails(st, s, profile, body, w, r, o);
    ca := o.ca;
    match o
    case Failed(_, f) =>
      fail := Some(f);
      v := FailureExchange(s, ca, r, f, w.nonce, reply);
    case Succeeded(_, cert) =>
      fail := None;
      var envelope;
      v, envelope := SuccessExchange(s, ca, r, cert, w.envelope, w.nonce, reply);
      IssuedOnce(st, s, profile, body, w, cert);
    if OwnKey(s.p, ca) { OwnSignatureChecks(s.p, ca.key, ca.cert, v.attrs); }
  }

  /** A reply is only ever sent to a request that verified. */
  lemma RepliesAnswerVerifiedRequests(st: State, s: Services, profile: string, body: bytes, w: World)
    requires w.Valid() && Reply(st, s, profile, body, w).Ok?
    ensures ParseAndVerify(s.p, body).Ok?
    ensures var r := ParseAndVerify(s.p, body).value;
      (r.messageType.PkcsReq? || r.messageType.RenewalReq?) && r.enveloped.Some? && Printable(r.transactionId)
  {
    var r := ParseAndVerify(s.p, body).value;
    AdmittedRequest(st, s, profile, body, Admit(st, s, profile, body));
    PrintableReply(st, s, profile, body, w, r, Reply(st, s, profile, body, w).value);
  }

  lemma FailurePrintable(s: Services, ca: CertificateAuthority, r: ParsedRequest, fail: FailInfo, nonce: bytes)
    requires FailureReply(s, ca, r, fail, nonce).Ok?
    ensures Printable(r.transactionId)
  {
    FailureList(r.transactionId, r.senderNonce, fail, nonce);
  }

  lemma SuccessPrintable(s: Services, ca: CertificateAuthority, r: ParsedRequest, cert: Certificate,
                         rand: Envelope.Randomness, nonce: bytes)
    requires rand.Valid() && SuccessReply(s, ca, r, cert, rand, nonce).Ok?
    ensures Printable(r.transactionId)
  {
    SuccessList(r.transactionId, r.senderNonce, nonce);
  }

  lemma PrintableReply(st: State, s: Services, profile: string, body: bytes, w: World, r: ParsedRequest, reply: bytes)
    requires w.Valid()
    requires Reply(st, s, profile, body, w) == Ok(reply)
    requires ParseAndVerify(s.p, body) == Ok(r)
    ensures Printable(r.transactionId)
  {
    var o := ReplyOfOutcome(st, s, profile, body, w, r, reply);
    match o
    case Failed(ca, fail) => FailurePrintable(s, ca, r, fail, w.nonce);
    case Succeeded(ca, cert) => SuccessPrintable(s, ca, r, cert, w.envelope, w.nonce);
  }

  /** A failure reply depends on nothing of the request but its ID and nonce. */
  lemma FailureDepends(s: Services, ca: CertificateAuthority, a: ParsedRequest, b: ParsedRequest, fail: FailInfo,
                       nonce: bytes)
    requires a.transactionId == b.transactionId && a.senderNonce == b.senderNonce
    ensures FailureReply(s, ca, a, fail, nonce) == FailureReply(s, ca, b, fail, nonce)
  {
    FailureList(a.transactionId, a.senderNonce, fail, nonce);
  }

  lemma UnopenedReply(st: State, s: Services, profile: string, body: bytes, w: World, ca: CertificateAuthority,
                      r: ParsedRequest)
    requires w.Valid()
    requires Admit(st, s, profile, body) == Unopened(ca, r)
    ensures Reply(st, s, profile, body, w) == FailureReply(s, ca, r, BadMessageCheck, w.nonce)
  {
  }

  /**
   Uniform rejection: whatever went wrong between the RSA unwrap and a parsed
   request, two requests with the same transaction ID and nonce get the same
   reply for the same fresh nonce, and no table changes.
   */
  lemma UniformRejection(st: State, s: Services, profile: string, a: bytes, b: bytes, w: World, t: Repository.Tables,
                         c: Calls)
    requires w.Valid()
    requires Admit(st, s, profile, a).Unopened? && Admit(st, s, profile, b).Unopened?
    requires Admit(st, s, profile, a).request.transactionId == Admit(st, s, profile, b).request.transactionId
    requires Admit(st, s, profile, a).request.senderNonce == Admit(st, s, profile, b).request.senderNonce
    ensures Reply(st, s, profile, a, w) == Reply(st, s, profile, b, w)
    ensures TablesAfter(st, s, profile, a, w, t, c) == t && TablesAfter(st, s, profile, b, w, t, c) == t
  {
    var x, y := Admit(st, s, profile, a), Admit(st, s, profile, b);
    AdmittedCa(st, s, profile, a, x);
    AdmittedCa(st, s, profile, b, y);
    UnopenedReply(st, s, profile, a, w, x.ca, x.request);
    UnopenedReply(st, s, profile, b, w, y.ca, y.request);
    FailureDepends(s, x.ca, x.request, y.request, BadMessageCheck, w.nonce);
  }

  /** A different fresh nonce changes the sender nonce attribute and nothing else. */
  lemma OnlySenderNonceDiffers(r: ParsedRequest, fail: FailInfo, n: bytes, m: bytes)
    requires Printable(r.transactionId)
    ensures var x := FailureAttrs(r.transactionId, r.senderNonce, fail, n);
      var y := FailureAttrs(r.transactionId, r.senderNonce, fail, m);
      x.Ok? && y.Ok? && |x.value| == |y.value|
      && forall i :: 0 <= i < |x.value| ==> x.value[i].oid == ID_SENDER_NONCE || x.value[i] == y.value[i]
  {
    FailureList(r.transactionId, r.senderNonce, fail, n);
    FailureList(r.transactionId, r.senderNonce, fail, m);
  }

  // ----- when a request is answered -----

  /** The message can be printed: its attributes make a set the key signs, and the whole is not too long. */
  ghost predicate CanPrint(p: Primitives, ca: CertificateAuthority, content: Option<bytes>, attrs: seq<Attribute>) {
    exists sorted :: SetOf.FromSeq(AttributeList(p, content, attrs), AttributeDer) == Some(sorted)
      && SignsAndFits(p, ca.key, ca.cert, content, sorted)
  }

  lemma PrintsExactly(p: Primitives, ca: CertificateAuthority, content: Option<bytes>, attrs: seq<Attribute>)
    requires ScepAttributes(attrs)
    ensures SignedReply(p, ca.key, ca.cert, content, attrs).Ok? <==> CanPrint(p, ca, content, attrs)
  {
    var sorted := SignedExactly(p, ca.key, ca.cert, content, attrs);
  }

  function SuccessTexts(id: string, recipient: bytes, nonce: bytes): seq<Attribute> {
    [TextAttribute(ID_MESSAGE_TYPE, "3"), TextAttribute(ID_PKI_STATUS, "0"), TextAttribute(ID_TRANSACTION_ID, id),
     OctetsAttribute(ID_SENDER_NONCE, nonce), OctetsAttribute(ID_RECIPIENT_NONCE, recipient)]
  }

  function FailureTexts(id: string, recipient: bytes, fail: FailInfo, nonce: bytes): seq<Attribute> {
    [TextAttribute(ID_MESSAGE_TYPE, "3"), TextAttribute(ID_PKI_STATUS, "2"),
     TextAttribute(ID_FAIL_INFO, Code(fail)),
     TextAttribute(ID_TRANSACTION_ID, id), OctetsAttribute(ID_SENDER_NONCE, nonce),
     OctetsAttribute(ID_RECIPIENT_NONCE, recipient)]
  }

  /** The library calls of a reply succeed: the key wrap, the signature, and no encoding beyond what lengths reach. */
  ghost predicate LibraryServes(s: Services, r: ParsedRequest, o: Outcome, w: World)
    requires w.Valid()
  {
    match o
    case Failed(ca, fail) => CanPrint(s.p, ca, None, FailureTexts(r.transactionId, r.senderNonce, fail, w.nonce))
    case Succeeded(ca, cert) =>
      && |CertificateDer(cert)| <= Der.MAX_LEN && |Der.EncodeAny(CertsOnlyToAny(cert))| <= Der.MAX_LEN
      && EnvelopeServes(s, ca, r, Der.EncodeAny(CertsOnlyToAny(cert)), w)
  }

  ghost predicate EnvelopeServes(s: Services, ca: CertificateAuthority, r: ParsedRequest, payload: bytes, w: World)
    requires w.Valid()
  {
    match s.p.wrap(r.recipient.publicKey, w.envelope.cek, w.envelope.padding)
    case None => false
    case Some(encKey) =>
      var envelope := Der.EncodeAny(Envelope.EnvelopeToAny(s.p, payload, r.recipient, w.envelope, encKey));
      && |envelope| <= Der.MAX_LEN
      && CanPrint(s.p, ca, Some(envelope), SuccessTexts(r.transactionId, r.senderNonce, w.nonce))
  }

  lemma FailureAnswersExactly(s: Services, ca: CertificateAuthority, r: ParsedRequest, fail: FailInfo, nonce: bytes)
    ensures FailureReply(s, ca, r, fail, nonce).Ok? <==>
      Printable(r.transactionId) && CanPrint(s.p, ca, None, FailureTexts(r.transactionId, r.senderNonce, fail, nonce))
  {
    FailureList(r.transactionId, r.senderNonce, fail, nonce);
    if Printable(r.transactionId) {
      var attrs := FailureTexts(r.transactionId, r.senderNonce, fail, nonce);
      FailureIsScep(attrs);
      PrintsExactly(s.p, ca, None, attrs);
    }
  }

  /** The reply around a payload, once there is one. */
  function PayloadReply(s: Services, ca: CertificateAuthority, r: ParsedRequest, payload: bytes,
                        w: World): Result<bytes>
    requires w.Valid()
  {
    var envelope :- Envelope.EnvelopeFor(s.p, payload, r.recipient, w.envelope);
    var attrs :- SuccessAttrs(r.transactionId, r.senderNonce, w.nonce);
    SignedReply(s.p, ca.key, ca.cert, Some(envelope), attrs)
  }

  lemma PayloadAnswersExactly(s: Services, ca: CertificateAuthority, r: ParsedRequest, payload: bytes, w: World)
    requires w.Valid()
    ensures PayloadReply(s, ca, r, payload, w).Ok? <==>
      Printable(r.transactionId) && EnvelopeServes(s, ca, r, payload, w)
  {
    SuccessList(r.transactionId, r.senderNonce, w.nonce);
    var attrs := SuccessTexts(r.transactionId, r.senderNonce, w.nonce);
    SuccessIsScep(attrs);
    var envelope := Envelope.EnvelopeFor(s.p, payload, r.recipient, w.envelope);
    Envelope.EnvelopeFailsExactly(s.p, payload, r.recipient, w.envelope);
    if envelope.Ok? { PrintsExactly(s.p, ca, Some(envelope.value), attrs); }
  }

  lemma SuccessAnswersExactly(s: Services, ca: CertificateAuthority, r: ParsedRequest, cert: Certificate, w: World)
    requires w.Valid()
    ensures ToDer(CertificateToAny(cert)).Ok? && SuccessReply(s, ca, r, cert, w.envelope, w.nonce).Ok? <==>
      Printable(r.transactionId) && LibraryServes(s, r, Succeeded(ca, cert), w)
  {
    var payload := Der.EncodeAny(CertsOnlyToAny(cert));
    PayloadAnswersExactly(s, ca, r, payload, w);
    ReplyOfPayload(s, ca, r, cert, w);
  }

  lemma ReplyOfPayload(s: Services, ca: CertificateAuthority, r: ParsedRequest, cert: Certificate, w: World)
    requires w.Valid()
    ensures SuccessReply(s, ca, r, cert, w.envelope, w.nonce) ==
      if |Der.EncodeAny(CertsOnlyToAny(cert))| <= Der.MAX_LEN
      then PayloadReply(s, ca, r, Der.EncodeAny(CertsOnlyToAny(cert)), w) else Err(CryptoError)
  {
  }

  lemma SuccessIsScep(attrs: seq<Attribute>)
    requires |attrs| == 5 && forall i :: 0 <= i < |attrs| ==> |attrs[i].values| == 1
    requires attrs[0].oid == ID_MESSAGE_TYPE && attrs[1].oid == ID_PKI_STATUS && attrs[2].oid == ID_TRANSACTION_ID
    requires attrs[3].oid == ID_SENDER_NONCE && attrs[4].oid == ID_RECIPIENT_NONCE
    ensures ScepAttributes(attrs)
  {
    SuccessShape(attrs);
    ReplyList(attrs);
  }

  /**
   When a request is answered at all: one that is not refused gets a reply
   exactly when its transaction ID is printable and the library calls of the
   reply succeed.
   */
  lemma AnsweredExactly(st: State, s: Services, profile: string, body: bytes, w: World, r: ParsedRequest, o: Outcome)
    requires w.Valid() && ParseAndVerify(s.p, body) == Ok(r)
    requires OutcomeOf(st, s, profile, body, w) == Some(o)
    ensures Reply(st, s, profile, body, w).Ok? <==> Printable(r.transactionId) && LibraryServes(s, r, o, w)
    ensures Reply(st, s, profile, body, w).Err? ==> Reply(st, s, profile, body, w).error == CryptoError
  {
    if Reply(st, s, profile, body, w).Err? { AnswerErrors(st, s, profile, body, w); }
    var a := Admit(st, s, profile, body);
    AdmittedRequest(st, s, profile, body, a);
    match o
    case Failed(ca, fail) =>
      FailureAnswersExactly(s, ca, r, fail, w.nonce);
      FailedReply(st, s, profile, body, w, r, ca, fail);
    case Succeeded(ca, cert) =>
      SuccessAnswersExactly(s, ca, r, cert, w);
      SucceededReply(st, s, profile, body, w, r, ca, cert);
  }

  lemma AnswerErrors(st: State, s: Services, profile: string, body: bytes, w: World)
    requires w.Valid() && !Admit(st, s, profile, body).Refused? && Reply(st, s, profile, body, w).Err?
    ensures Reply(st, s, profile, body, w).error == CryptoError
  {
    match Admit(st, s, profile, body)
    case Unopened(ca, r) => FailureReplyErrors(s, ca, r, BadMessageCheck, w.nonce);
    case Admitted(job) =>
      FailureReplyErrors(s, job.ca, job.request, BadRequestInfo, w.nonce);
      AdmittedErrors(st, s, job, w);
  }

  lemma FailureReplyErrors(s: Services, ca: CertificateAuthority, r: ParsedRequest, fail: FailInfo, nonce: bytes)
    ensures var reply := FailureReply(s, ca, r, fail, nonce); reply.Err? ==> reply.error == CryptoError
  {
    FailureList(r.transactionId, r.senderNonce, fail, nonce);
    if Printable(r.transactionId) {
      SignedErrors(s.p, ca.key, ca.cert, None, FailureTexts(r.transactionId, r.senderNonce, fail, nonce));
    }
  }

  lemma SignedErrors(p: Primitives, key: bytes, cert: Certificate, content: Option<bytes>, attrs: seq<Attribute>)
    ensures var r := SignedReply(p, key, cert, content, attrs); r.Err? ==> r.error == CryptoError
  {
  }

  lemma SuccessReplyErrors(s: Services, ca: CertificateAuthority, r: ParsedRequest, cert: Certificate, w: World)
    requires w.Valid()
    ensures var reply := SuccessReply(s, ca, r, cert, w.envelope, w.nonce); reply.Err? ==> reply.error == CryptoError
  {
    ReplyOfPayload(s, ca, r, cert, w);
    PayloadErrors(s, ca, r, Der.EncodeAny(CertsOnlyToAny(cert)), w);
  }

  lemma PayloadErrors(s: Services, ca: CertificateAuthority, r: ParsedRequest, payload: bytes, w: World)
    requires w.Valid()
    ensures var reply := PayloadReply(s, ca, r, payload, w); reply.Err? ==> reply.error == CryptoError
  {
    var envelope := Envelope.EnvelopeFor(s.p, payload, r.recipient, w.envelope);
    Envelope.EnvelopeFailsExactly(s.p, payload, r.recipient, w.envelope);
    SuccessList(r.transactionId, r.senderNonce, w.nonce);
    if envelope.Ok? {
      SignedErrors(s.p, ca.key, ca.cert, Some(envelope.value), SuccessTexts(r.transactionId, r.senderNonce, w.nonce));
    }
  }

  lemma AdmittedErrors(st: State, s: Services, job: Job, w: World)
    requires w.Valid()
    ensures var reply := AdmittedReply(st, s, job, w); reply.Err? ==> reply.error == CryptoError
  {
    FailureReplyErrors(s, job.ca, job.request, BadRequestInfo, w.nonce);
    var issued := Issue(s, IssuanceFor(st, job, w.serialRandom, w.now));
    AdmittedReplyIs(st, s, job, w, issued);
    if issued.Some? { SuccessReplyErrors(s, job.ca, job.request, issued.value, w); }
  }

  /** The reply of an admitted request, by what was issued. */
  lemma AdmittedReplyIs(st: State, s: Services, job: Job, w: World, issued: Option<Certificate>)
    requires w.Valid() && issued == Issue(s, IssuanceFor(st, job, w.serialRandom, w.now))
    ensures AdmittedReply(st, s, job, w) ==
      if !Challenge.Approves(job.rt.validator, job.Input(), w.verdict) || issued.None?
      then FailureReply(s, job.ca, job.request, BadRequestInfo, w.nonce)
      else if ToDer(CertificateToAny(issued.value)).Err? then Err(CryptoError)
      else SuccessReply(s, job.ca, job.request, issued.value, w.envelope, w.nonce)
  {
  }

  lemma FailedReply(st: State, s: Services, profile: string, body: bytes, w: World, r: ParsedRequest,
                    ca: CertificateAuthority, fail: FailInfo)
    requires w.Valid() && ParseAndVerify(s.p, body) == Ok(r)
    requires OutcomeOf(st, s, profile, body, w) == Some(Failed(ca, fail))
    ensures Reply(st, s, profile, body, w) == FailureReply(s, ca, r, fail, w.nonce)
  {
    AdmittedRequest(st, s, profile, body, Admit(st, s, profile, body));
  }

  lemma SucceededReply(st: State, s: Services, profile: string, body: bytes, w: World, r: ParsedRequest,
                       ca: CertificateAuthority, cert: Certificate)
    requires w.Valid() && ParseAndVerify(s.p, body) == Ok(r)
    requires OutcomeOf(st, s, profile, body, w) == Some(Succeeded(ca, cert))
    ensures Reply(st, s, profile, body, w).Ok? <==>
      ToDer(CertificateToAny(cert)).Ok? && SuccessReply(s, ca, r, cert, w.envelope, w.nonce).Ok?
  {
    var a := Admit(st, s, profile, body);
    AdmittedRequest(st, s, profile, body, a);
    AdmittedReplyIs(st, s, a.job, w, Some(cert));
  }
}
