/**
 From the device and back: the requests a device prints, what becomes of them,
 and what it receives (`src/roundtrip.rs`).
 */
module Device {
  import opened Wrappers
  import opened Asn1
  import opened Primitives
  import opened Attributes
  import opened Sign
  import opened Verify
  import opened AppState
  import opened Scep
  import opened Exchange
  import opened Text
  import Challenge
  import Der
  import Envelope
  import Repository

  /** What a device means to send, and the string type it writes its transaction ID in. */
  datatype Request = Request(
    key: bytes, cert: Certificate, messageType: MessageType, tag: Der.Tag, id: string, nonce: bytes,
    csrDer: bytes, rand: Envelope.Randomness)
  {
    ghost predicate Valid(p: Primitives) {
      && (messageType.PkcsReq? || messageType.RenewalReq?)
      && cert.PublicKey() == p.publicKey(key)
      && Readable(tag, id) && rand.Valid()
    }

    function Attributes(): seq<Attribute> {
      [TextAttribute(ID_MESSAGE_TYPE, messageType.AsValue()),
       Attribute(ID_TRANSACTION_ID, [Der.Any(tag, EncodeUtf8(id))]),
       OctetsAttribute(ID_SENDER_NONCE, nonce)]
    }
  }

  /** The string types the server reads, with what each can hold. */
  predicate Readable(tag: Der.Tag, id: string) {
    || (tag == Der.PRINTABLE_STRING && Printable(id))
    || tag == Der.UTF8_STRING
    || (tag == Der.IA5_STRING && Ascii(id))
  }

  /** The CSR enveloped to the CA, signed with the device's own key. */
  function RequestFor(s: Services, ca: CertificateAuthority, q: Request): Result<bytes>
    requires q.rand.Valid()
  {
    var recipient := Envelope.Recipient(ca.cert.PublicKey(), ca.cert.issuer, ca.cert.serial);
    var envelope :- Envelope.EnvelopeFor(s.p, q.csrDer, recipient, q.rand);
    SignedReply(s.p, q.key, q.cert, Some(envelope), q.Attributes())
  }

  /**
   The profile's CA, with a key pair that belongs together and a serial the strict reader takes, as loading makes sure
   of the latter.
   */
  ghost predicate Serving(st: State, s: Services, profile: string, ca: CertificateAuthority) {
    && profile in st.profiles && st.profiles[profile].caId in st.cas && ca == st.cas[st.profiles[profile].caId]
    && OwnKey(s.p, ca) && StrictSerial(ca.cert.serial)
  }

  lemma RequestReads(p: Primitives, q: Request)
    requires q.Valid(p)
    ensures ScepAttributes(q.Attributes()) && ReadsAs(q.Attributes(), q.messageType, q.id, q.nonce)
  {
    var attrs := q.Attributes();
    LastOctets();
    LastOctetsDiffer(attrs);
    ReplyList(attrs);
    MessageTypeRoundTrip(q.messageType, "", "");
    TextReads(attrs, ID_MESSAGE_TYPE, q.messageType.AsValue());
    OctetsRead(attrs, ID_SENDER_NONCE, q.nonce);
    FindMember(attrs, attrs[1]);
    Utf8RoundTrip(q.id);
  }

  /** The device's message parses to its type, ID, nonce, key and envelope, which the CA opens to the CSR. */
  lemma RequestParses(s: Services, ca: CertificateAuthority, q: Request, body: bytes)
    returns (e: Envelope.EnvelopedData, r: ParsedRequest)
    requires Lawful(s.p) && q.Valid(s.p) && OwnKey(s.p, ca) && StrictSerial(ca.cert.serial)
    requires RequestFor(s, ca, q) == Ok(body)
    ensures r == ParsedRequest(q.messageType, q.id, q.nonce,
                               Envelope.Recipient(q.cert.PublicKey(), q.cert.issuer, q.cert.serial), Some(e))
    ensures ParseAndVerify(s.p, body) == Ok(r)
    ensures Envelope.Open(s.p, e, ca.cert, ca.key) == Ok(q.csrDer)
  {
    var recipient := Envelope.Recipient(ca.cert.PublicKey(), ca.cert.issuer, ca.cert.serial);
    var envelope := Envelope.EnvelopeFor(s.p, q.csrDer, recipient, q.rand).value;
    Envelope.EnvelopeRoundTrip(s.p, q.csrDer, recipient, q.rand, envelope, ca.key, ca.cert);
    e := Envelope.Parse(envelope).value;
    RequestReads(s.p, q);
    FieldsRoundTripThroughMessage(s.p, q.key, q.cert, Some(envelope), q.Attributes(), q.messageType, q.id, q.nonce,
                                  body);
    r := ParseAndVerify(s.p, body).value;
  }

  /**
   A request printed for the profile's CA, with a CSR the server can read, is
   always admitted as it was meant, whatever its transaction ID and whichever
   string type carries it.
   */
  lemma RequestIsAdmitted(st: State, s: Services, profile: string, ca: CertificateAuthority, q: Request,
                          csr: ParsedCsr, body: bytes)
    returns (r: ParsedRequest)
    requires Lawful(s.p) && q.Valid(s.p) && Serving(st, s, profile, ca)
    requires RequestFor(s, ca, q) == Ok(body) && ParseCsr(s, q.csrDer) == Some(csr)
    ensures Admit(st, s, profile, body) == Admitted(Job(st.profiles[profile], ca, r, csr))
    ensures ParseAndVerify(s.p, body) == Ok(r)
    ensures r.messageType == q.messageType && r.transactionId == q.id && r.senderNonce == q.nonce
    ensures r.recipient == Envelope.Recipient(q.cert.PublicKey(), q.cert.issuer, q.cert.serial)
  {
    var e;
    e, r := RequestParses(s, ca, q, body);
    OpenedIsAdmitted(s, st.profiles[profile], ca, r, e, q.csrDer, csr);
    ParsedIsAdmitted(st, s, profile, body, r);
  }

  lemma OpenedIsAdmitted(s: Services, rt: ProfileRuntime, ca: CertificateAuthority, r: ParsedRequest,
                         e: Envelope.EnvelopedData, csrDer: bytes, csr: ParsedCsr)
    requires (r.messageType.PkcsReq? || r.messageType.RenewalReq?) && r.enveloped == Some(e)
    requires Envelope.Open(s.p, e, ca.cert, ca.key) == Ok(csrDer) && ParseCsr(s, csrDer) == Some(csr)
    ensures AdmitParsed(s, rt, ca, r) == Admitted(Job(rt, ca, r, csr))
  {
  }

  lemma ParsedIsAdmitted(st: State, s: Services, profile: string, body: bytes, r: ParsedRequest)
    requires profile in st.profiles && st.profiles[profile].caId in st.cas
    requires ParseAndVerify(s.p, body) == Ok(r)
    ensures Admit(st, s, profile, body) == AdmitParsed(s, st.profiles[profile], st.cas[st.profiles[profile].caId], r)
  {
  }

  // ----- an ID no reply can carry -----

  /** Approved, issued and small enough to store. */
  ghost predicate Granted(st: State, s: Services, job: Job, w: World, cert: Certificate)
    requires w.Valid()
  {
    && Challenge.Approves(job.rt.validator, job.Input(), w.verdict)
    && Issue(s, IssuanceFor(st, job, w.serialRandom, w.now)) == Some(cert)
    && ToDer(CertificateToAny(cert)).Ok?
  }

  function StoredRow(st: State, s: Services, job: Job, w: World, cert: Certificate): Repository.CertRow
    requires w.Valid()
  {
    RowFor(s, job, IssuanceFor(st, job, w.serialRandom, w.now), cert, w.insertedAt)
  }

  lemma RecordedCerts(t: Repository.Tables, job: Job, status: string, createdAt: nat, c: Calls)
    ensures Recorded(t, job, status, createdAt, c).certs == t.certs
  {
    Repository.RecordKeepsCerts(t, job.request.transactionId, job.rt.name, status, RECORDED_TYPE,
                                TimestampText(createdAt), job.request.transactionId in t.transactions, c.write);
  }

  lemma InsertedRow(t: Repository.Tables, row: Repository.CertRow)
    requires row.serial !in t.certs
    ensures var insert := Repository.Call(Repository.InsertCert(row), Repository.Acknowledged);
      Repository.Answer(t, insert).Ok? && Repository.After(t, insert).certs == t.certs[row.serial := row]
  {
  }

  lemma GrantedTables(st: State, s: Services, job: Job, w: World, cert: Certificate, t: Repository.Tables, c: Calls)
    requires w.Valid() && Granted(st, s, job, w, cert)
    ensures AdmittedTables(st, s, job, w, t, c) ==
      var insert := Repository.Call(Repository.InsertCert(StoredRow(st, s, job, w, cert)), c.insert);
      if Repository.Answer(t, insert).Err? then Repository.After(t, insert)
      else Recorded(Repository.After(t, insert), job, ISSUED, w.recordedAt, c)
  {
  }

  lemma RowIsStored(st: State, s: Services, job: Job, w: World, cert: Certificate, t: Repository.Tables, c: Calls)
    requires w.Valid() && Granted(st, s, job, w, cert) && c.insert.Acknowledged?
    requires StoredRow(st, s, job, w, cert).serial !in t.certs
    ensures var row := StoredRow(st, s, job, w, cert);
      var after := AdmittedTables(st, s, job, w, t, c).certs;
      row.serial in after && after[row.serial] == row
  {
    var row := StoredRow(st, s, job, w, cert);
    GrantedTables(st, s, job, w, cert, t, c);
    InsertedRow(t, row);
    RecordedCerts(Repository.After(t, Repository.Call(Repository.InsertCert(row), c.insert)), job, ISSUED,
                  w.recordedAt, c);
  }

  /**
   A transaction ID no PrintableString can hold, sent as a UTF8String or
   IA5String: the request is admitted with that ID; once approved, its
   certificate is issued and stored, and the request still ends in an error.
   */
  lemma UnprintableIdIsIssued(st: State, s: Services, profile: string, ca: CertificateAuthority, q: Request,
                              csr: ParsedCsr, body: bytes, w: World, cert: Certificate, t: Repository.Tables, c: Calls)
    returns (job: Job)
    requires Lawful(s.p) && q.Valid(s.p) && Serving(st, s, profile, ca) && w.Valid()
    requires RequestFor(s, ca, q) == Ok(body) && ParseCsr(s, q.csrDer) == Some(csr)
    requires !Printable(q.id)
    requires Issued(st, s, profile, body, w, cert) && ToDer(CertificateToAny(cert)).Ok? && c.insert.Acknowledged?
    ensures Admit(st, s, profile, body) == Admitted(job) && job.request.transactionId == q.id
    ensures Reply(st, s, profile, body, w).Err?
    ensures var row := StoredRow(st, s, job, w, cert);
      var after := TablesAfter(st, s, profile, body, w, t, c).certs;
      row.serial !in t.certs ==> row.serial in after && after[row.serial] == row
  {
    var r := RequestIsAdmitted(st, s, profile, ca, q, csr, body);
    job := Job(st.profiles[profile], ca, r, csr);
    IssuedIsGranted(st, s, profile, body, w, job, cert);
    GrantedUnprintable(st, s, profile, body, w, job, cert, t, c);
  }

  lemma GrantedUnprintable(st: State, s: Services, profile: string, body: bytes, w: World, job: Job, cert: Certificate,
                           t: Repository.Tables, c: Calls)
    requires w.Valid() && Admit(st, s, profile, body) == Admitted(job) && Granted(st, s, job, w, cert)
    requires !Printable(job.request.transactionId) && c.insert.Acknowledged?
    ensures Reply(st, s, profile, body, w).Err?
    ensures var row := StoredRow(st, s, job, w, cert);
      var after := TablesAfter(st, s, profile, body, w, t, c).certs;
      row.serial !in t.certs ==> row.serial in after && after[row.serial] == row
  {
    AdmittedRequest(st, s, profile, body, Admitted(job));
    UnprintableIsUnanswered(st, s, profile, body, w, job.request);
    AdmittedTablesAre(st, s, profile, body, w, job, t, c);
    if StoredRow(st, s, job, w, cert).serial !in t.certs { RowIsStored(st, s, job, w, cert, t, c); }
  }

  lemma UnprintableIsUnanswered(st: State, s: Services, profile: string, body: bytes, w: World, r: ParsedRequest)
    requires w.Valid() && ParseAndVerify(s.p, body) == Ok(r) && !Printable(r.transactionId)
    ensures Reply(st, s, profile, body, w).Err?
  {
    var reply := Reply(st, s, profile, body, w);
    if reply.Ok? { PrintableReply(st, s, profile, body, w, r, reply.value); }
  }

  lemma AdmittedTablesAre(st: State, s: Services, profile: string, body: bytes, w: World, job: Job,
                          t: Repository.Tables, c: Calls)
    requires w.Valid() && Admit(st, s, profile, body) == Admitted(job)
    ensures TablesAfter(st, s, profile, body, w, t, c) == AdmittedTables(st, s, job, w, t, c)
  {
  }

  lemma IssuedIsGranted(st: State, s: Services, profile: string, body: bytes, w: World, job: Job, cert: Certificate)
    requires w.Valid() && Admit(st, s, profile, body) == Admitted(job)
    requires Issued(st, s, profile, body, w, cert) && ToDer(CertificateToAny(cert)).Ok?
    ensures Granted(st, s, job, w, cert)
  {
  }

  // ----- sizes -----

  /** 256 KiB: with parts up to this size no encoding comes near the longest length. */
  const PART: nat := 0x4_0000

  /** The key signs everything, and signatures and digests are short. */
  ghost predicate SignsShortly(p: Primitives, key: bytes, n: nat) {
    && (forall m: bytes {:trigger p.sign(key, m)} :: p.sign(key, m).Some? && |p.sign(key, m).value| <= n)
    && (forall m: bytes {:trigger p.hash(Sha256, m)} :: |p.hash(Sha256, m)| <= n)
  }

  ghost predicate ShortCertificate(c: Certificate, n: nat) {
    |c.issuer.rdns| <= n && |c.serial| <= n && |CertificateDer(c)| <= n
  }

  /** The signed list of short attributes is short, in whatever order. */
  lemma SortedIsShort(p: Primitives, content: Option<bytes>, attrs: seq<Attribute>, sorted: seq<Attribute>, n: nat)
    requires 100 <= n && |attrs| <= 6 && forall i :: 0 <= i < |attrs| ==> ShortAttribute(attrs[i], n)
    requires content.Some? ==> |p.hash(Sha256, content.value)| <= n
    requires multiset(sorted) == multiset(AttributeList(p, content, attrs))
    ensures |EncodeAttributes(sorted)| <= 20 * n
  {
    var list := AttributeList(p, content, attrs);
    forall i | 0 <= i < |sorted| ensures ShortAttribute(sorted[i], n) {
      assert sorted[i] in multiset(list);
      assert sorted[i] in list;
    }
    assert |sorted| == |multiset(sorted)| == |multiset(list)| == |list|;
    AttributesSize(sorted, n);
  }

  /** Short parts print: the key signs and the message is far below the longest length. */
  lemma ShortPartsPrint(p: Primitives, key: bytes, cert: Certificate, content: Option<bytes>, attrs: seq<Attribute>,
                        n: nat)
    requires 100 <= n <= PART && SignsShortly(p, key, n) && ShortCertificate(cert, n)
    requires ScepAttributes(attrs) && |attrs| <= 6 && (content.Some? ==> |content.value| <= 660 * n)
    requires forall i :: 0 <= i < |attrs| ==> ShortAttribute(attrs[i], n)
    ensures SignedReply(p, key, cert, content, attrs).Ok?
  {
    var sorted := SignedExactly(p, key, cert, content, attrs);
    SortedIsShort(p, content, attrs, sorted, n);
    MessageSize(cert, content, sorted, p.sign(key, SignedOctets(sorted)).value, n);
  }

  lemma CertsOnlySize(c: Certificate, n: nat)
    requires n >= 100 && |CertificateDer(c)| <= n
    ensures |Der.EncodeAny(CertsOnlyToAny(c))| <= 11 * n
  {
    Der.StructSize([Der.Any(Der.OID, ID_DATA)], 9);
    Der.StructSize(CertsOnlyFields(c), n);
    Der.AnySize(Struct(CertsOnlyFields(c)));
    Der.StructSize([Der.Any(Der.OID, ID_SIGNED_DATA),
                    Der.Any(Der.CONTEXT_0_CONSTRUCTED, Der.EncodeAny(Struct(CertsOnlyFields(c))))], 5 * n + 36);
    Der.AnySize(CertsOnlyToAny(c));
  }

  lemma TextSize(s: string)
    ensures |s| == 1 ==> |EncodeUtf8(s)| <= 4
  {
    if |s| == 1 { assert s[1..] == ""; }
  }

  /** Everything a success reply is made of is short, and the key wrap succeeds. */
  ghost predicate ShortReply(s: Services, ca: CertificateAuthority, to: Envelope.Recipient, id: string, nonce: bytes,
                             cert: Certificate, w: World)
    requires w.Valid()
  {
    && SignsShortly(s.p, ca.key, PART) && ShortCertificate(ca.cert, PART) && |CertificateDer(cert)| <= PART
    && |to.issuer.rdns| <= PART && |to.serial| <= PART
    && |EncodeUtf8(id)| <= PART && |nonce| <= PART && |w.nonce| <= PART
    && s.p.wrap(to.publicKey, w.envelope.cek, w.envelope.padding).Some?
    && |s.p.wrap(to.publicKey, w.envelope.cek, w.envelope.padding).value| <= PART
  }

  lemma ShortTexts(id: string, recipient: bytes, nonce: bytes)
    requires |EncodeUtf8(id)| <= PART && |recipient| <= PART && |nonce| <= PART
    ensures forall i :: 0 <= i < 5 ==> ShortAttribute(SuccessTexts(id, recipient, nonce)[i], PART)
    ensures ScepAttributes(SuccessTexts(id, recipient, nonce))
  {
    TextSize("3");
    TextSize("0");
    SuccessIsScep(SuccessTexts(id, recipient, nonce));
  }

  /** Short parts serve: then the library calls of a success reply all succeed. */
  lemma ShortReplyServes(s: Services, ca: CertificateAuthority, r: ParsedRequest, cert: Certificate, w: World)
    requires Lawful(s.p) && w.Valid() && ShortReply(s, ca, r.recipient, r.transactionId, r.senderNonce, cert, w)
    ensures LibraryServes(s, r, Succeeded(ca, cert), w)
  {
    var payload := Der.EncodeAny(CertsOnlyToAny(cert));
    var encKey := s.p.wrap(r.recipient.publicKey, w.envelope.cek, w.envelope.padding).value;
    var envelope := Der.EncodeAny(Envelope.EnvelopeToAny(s.p, payload, r.recipient, w.envelope, encKey));
    var attrs := SuccessTexts(r.transactionId, r.senderNonce, w.nonce);
    CertsOnlySize(cert, PART);
    Envelope.EnvelopeFits(s.p, payload, r.recipient, w.envelope, encKey, 11 * PART);
    ShortTexts(r.transactionId, r.senderNonce, w.nonce);
    ShortPartsPrint(s.p, ca.key, ca.cert, Some(envelope), attrs, PART);
    PrintsExactly(s.p, ca, Some(envelope), attrs);
  }

  // ----- and back -----

  /**
   From the device and back: an honest request that is approved and issued is
   answered exactly when its ID is printable and the library calls of the reply
   succeed, which short parts ensure. The answer delivers to the device's key
   exactly the certificate issued, under the ID and nonce the device chose: to a
   reader without the cap always, to the server's own parser within it.
   */
  lemma HonestEnrolment(st: State, s: Services, profile: string, ca: CertificateAuthority, q: Request, csr: ParsedCsr,
                        body: bytes, w: World, cert: Certificate) returns (r: ParsedRequest)
    requires Lawful(s.p) && q.Valid(s.p) && Serving(st, s, profile, ca) && w.Valid()
    requires RequestFor(s, ca, q) == Ok(body) && ParseCsr(s, q.csrDer) == Some(csr)
    requires Issued(st, s, profile, body, w, cert)
    ensures r.transactionId == q.id && r.senderNonce == q.nonce
    ensures r.recipient == Envelope.Recipient(s.p.publicKey(q.key), q.cert.issuer, q.cert.serial)
    ensures var reply := Reply(st, s, profile, body, w);
      && (reply.Ok? <==> Printable(q.id) && LibraryServes(s, r, Succeeded(ca, cert), w))
      && (Printable(q.id) && ShortReply(s, ca, r.recipient, q.id, q.nonce, cert, w) ==> reply.Ok?)
      && (reply.Ok? ==> Delivered(s.p, reply.value, r, w.nonce, cert))
  {
    r := RequestIsAdmitted(st, s, profile, ca, q, csr, body);
    IssuedIsAnswered(st, s, profile, ca, body, w, r, cert);
    var reply := Reply(st, s, profile, body, w);
    if reply.Ok? { AnswerDelivers(st, s, profile, ca, body, w, r, cert, reply.value); }
  }

  /**
   The reply verifies, says success, and carries the certificate to the requester, through the parser too within its
   cap.
   */
  ghost predicate Delivered(p: Primitives, reply: bytes, r: ParsedRequest, nonce: bytes, cert: Certificate) {
    && VerifyMessage(p, reply).Ok?
    && (var v := VerifyMessage(p, reply).value;
        Says(v.attrs, r, None, nonce) && v.content.Some? && Carries(p, v.content.value, false, r, cert))
    && (StrictSerial(r.recipient.serial) ==> Answers(p, reply, r, nonce, true) && Delivers(p, reply, r, cert))
  }

  /** What was issued is the outcome. */
  lemma IssuedOutcome(st: State, s: Services, profile: string, body: bytes, w: World, cert: Certificate)
    requires w.Valid() && Issued(st, s, profile, body, w, cert)
    ensures OutcomeOf(st, s, profile, body, w) == Some(Succeeded(Admit(st, s, profile, body).job.ca, cert))
  {
    AdmittedIssued(st, s, Admit(st, s, profile, body).job, w, cert);
  }

  lemma AdmittedIssued(st: State, s: Services, job: Job, w: World, cert: Certificate)
    requires w.Valid() && Challenge.Approves(job.rt.validator, job.Input(), w.verdict)
    requires Issue(s, IssuanceFor(st, job, w.serialRandom, w.now)) == Some(cert)
    ensures AdmittedOutcome(st, s, job, w) == Succeeded(job.ca, cert)
  {
  }

  lemma IssuedIsAnswered(st: State, s: Services, profile: string, ca: CertificateAuthority, body: bytes, w: World,
                         r: ParsedRequest, cert: Certificate)
    requires Lawful(s.p) && w.Valid() && Serving(st, s, profile, ca)
    requires ParseAndVerify(s.p, body) == Ok(r) && Issued(st, s, profile, body, w, cert)
    ensures Reply(st, s, profile, body, w).Ok? <==>
      Printable(r.transactionId) && LibraryServes(s, r, Succeeded(ca, cert), w)
    ensures ShortReply(s, ca, r.recipient, r.transactionId, r.senderNonce, cert, w) && Printable(r.transactionId) ==>
      Reply(st, s, profile, body, w).Ok?
  {
    IssuedOutcome(st, s, profile, body, w, cert);
    AdmittedCa(st, s, profile, body, Admit(st, s, profile, body));
    AnsweredExactly(st, s, profile, body, w, r, Succeeded(ca, cert));
    if ShortReply(s, ca, r.recipient, r.transactionId, r.senderNonce, cert, w) { ShortReplyServes(s, ca, r, cert, w); }
  }

  lemma AnswerDelivers(st: State, s: Services, profile: string, ca: CertificateAuthority, body: bytes, w: World,
                       r: ParsedRequest, cert: Certificate, reply: bytes)
    requires Lawful(s.p) && w.Valid() && Serving(st, s, profile, ca)
    requires ParseAndVerify(s.p, body) == Ok(r) && Issued(st, s, profile, body, w, cert)
    requires Reply(st, s, profile, body, w) == Ok(reply)
    ensures Delivered(s.p, reply, r, w.nonce, cert)
  {
    var own, v, fail := FullExchange(st, s, profile, body, w, r, reply);
  }
}
