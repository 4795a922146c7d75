/**
 Concrete servers and requests, from which what holds only under a condition
 can be seen to fail without it.
 */
module Scenarios {
  import opened Wrappers
  import opened Asn1
  import opened Primitives
  import opened Attributes
  import opened Sign
  import opened Verify
  import opened AppState
  import opened Scep
  import opened Exchange
  import opened Device
  import opened Text
  import Challenge
  import Der
  import Enrolment
  import Envelope
  import Repository
  import Revocation

  // ----- a small server -----

  const PLAIN := Certificate(None, [1], [], Name([]), [], Name([]), [], [0], None, [], [0])

  function PlainServices(p: Primitives): Services {
    Services(p, (der: bytes) => Some((Name([]), [], [0], None)), (csr: ParsedCsr, opts: IssueOptions) => Some([]),
             (a: nat, b: nat) => [], (key: bytes, csr: ParsedCsr, serial: Serial) => Some([0]), (n: Name) => "")
  }

  const PLAIN_CA := CertificateAuthority("ca", PLAIN, [])
  const PLAIN_PROFILE := ProfileRuntime("p", "ca", Challenge.NoValidation, 1, [], [])
  const SECRET_PROFILE := ProfileRuntime("q", "ca", Challenge.StaticSecret("secret"), 1, [], [])
  const PLAIN_STATE := State(map["ca" := PLAIN_CA], map["p" := PLAIN_PROFILE, "q" := SECRET_PROFILE], "")

  function Zeros(n: nat): bytes { seq(n, i => 0) }

  const PLAIN_RANDOMNESS := Envelope.Randomness(Zeros(32), Zeros(16), [])
  const PLAIN_WORLD := World(true, Zeros(16), 0, 0, 0, PLAIN_RANDOMNESS, [])
  /** The CSR every request of these scenarios carries. */
  const PLAIN_CSR := ParsedCsr([], Name([]), [], [0], None)
  const SUCCEED := Calls(Repository.Acknowledged, true, Repository.Acknowledged)

  /** A request with its transaction ID in a UTF8String. */
  function Named(id: string): Request { Request([], PLAIN, PkcsReq, Der.UTF8_STRING, id, [], [], PLAIN_RANDOMNESS) }

  ghost predicate Plain(p: Primitives) {
    && Lawful(p) && Distinguishing(p)
    && (forall key :: p.publicKey(key) == key)
    && (forall key, cek, rand :: p.wrap(key, cek, rand) == Some(cek))
    && (forall h, m :: p.hash(h, m) == [])
    && (forall key, m :: p.sign(key, m) == Some(key))
  }

  lemma NamedIsShort(id: string)
    requires |id| == 1
    ensures forall i :: 0 <= i < 3 ==> ShortAttribute(Named(id).Attributes()[i], PART)
  {
    TextSize(id);
    Utf8Length("19");
  }

  lemma {:induction false} Utf8Length(s: string)
    ensures |EncodeUtf8(s)| <= 4 * |s|
  {
    if s != "" { Utf8Length(s[1..]); }
  }

  lemma PlainIsShort()
    ensures ShortCertificate(PLAIN, 10000)
  {
    CertificateSize(PLAIN, 100);
  }

  lemma PlainEnvelope(p: Primitives) returns (envelope: bytes)
    requires Lawful(p) && forall key, cek, rand :: p.wrap(key, cek, rand) == Some(cek)
    ensures Envelope.EnvelopeFor(p, [], Envelope.Recipient(PLAIN.PublicKey(), PLAIN.issuer, PLAIN.serial),
                                 PLAIN_RANDOMNESS)
      == Ok(envelope)
    ensures |envelope| <= 6000
  {
    var recipient := Envelope.Recipient(PLAIN.PublicKey(), PLAIN.issuer, PLAIN.serial);
    Envelope.EnvelopeFits(p, [], recipient, PLAIN_RANDOMNESS, PLAIN_RANDOMNESS.cek, 100);
    envelope := Envelope.EnvelopeFor(p, [], recipient, PLAIN_RANDOMNESS).value;
  }

  /** The request can be printed. */
  lemma NamedPrints(p: Primitives, id: string) returns (body: bytes)
    requires Plain(p) && |id| == 1
    ensures Named(id).Valid(p) && RequestFor(PlainServices(p), PLAIN_CA, Named(id)) == Ok(body)
  {
    var envelope := PlainEnvelope(p);
    RequestReads(p, Named(id));
    NamedIsShort(id);
    PlainIsShort();
    ShortPartsPrint(p, [], PLAIN, Some(envelope), Named(id).Attributes(), PART);
    body := RequestFor(PlainServices(p), PLAIN_CA, Named(id)).value;
  }

  lemma PlainIssues(p: Primitives, job: Job) returns (cert: Certificate)
    requires job.rt == PLAIN_PROFILE && job.ca == PLAIN_CA && job.csr == ParsedCsr([], Name([]), [], [0], None)
    ensures Granted(PLAIN_STATE, PlainServices(p), job, PLAIN_WORLD, cert) && |CertificateDer(cert)| <= 10000
  {
    var s := PlainServices(p);
    var i := IssuanceFor(PLAIN_STATE, job, PLAIN_WORLD.serialRandom, 0);
    IssuedFrom(s, i);
    cert := Issue(s, i).value;
    SignatureAlgSize();
    CertificateSize(cert, 100);
  }

  lemma SignatureAlgSize()
    ensures |SIGNATURE_ALG| <= 100
  {
    Der.AnySize(Der.Any(Der.OID, SHA256_WITH_RSA));
    Der.AnySize(Der.Any(Der.NULL, []));
  }

  lemma PlainServing(p: Primitives)
    requires Plain(p)
    ensures Serving(PLAIN_STATE, PlainServices(p), "p", PLAIN_CA) &&
      Serving(PLAIN_STATE, PlainServices(p), "q", PLAIN_CA)
    ensures Consistent(PLAIN_STATE) && PLAIN_WORLD.Valid()
  {
    assert PLAIN.PublicKey() == [];
  }

  lemma NamedParses(p: Primitives, id: string, body: bytes) returns (r: ParsedRequest)
    requires Plain(p) && Named(id).Valid(p) && RequestFor(PlainServices(p), PLAIN_CA, Named(id)) == Ok(body)
    ensures ParseAndVerify(p, body) == Ok(r)
    ensures r.messageType == PkcsReq && r.enveloped.Some? && r.transactionId == id && r.senderNonce == []
  {
    PlainServing(p);
    var e;
    e, r := RequestParses(PlainServices(p), PLAIN_CA, Named(id), body);
  }

  lemma NamedIsAdmitted(p: Primitives, id: string, body: bytes) returns (r: ParsedRequest)
    requires Plain(p) && Named(id).Valid(p) && RequestFor(PlainServices(p), PLAIN_CA, Named(id)) == Ok(body)
    ensures Admit(PLAIN_STATE, PlainServices(p), "p", body) == Admitted(Job(PLAIN_PROFILE, PLAIN_CA, r, PLAIN_CSR))
    ensures Admit(PLAIN_STATE, PlainServices(p), "q", body) == Admitted(Job(SECRET_PROFILE, PLAIN_CA, r, PLAIN_CSR))
    ensures r.transactionId == id
  {
    var s := PlainServices(p);
    PlainServing(p);
    r := RequestIsAdmitted(PLAIN_STATE, s, "p", PLAIN_CA, Named(id), PLAIN_CSR, body);
    var same := RequestIsAdmitted(PLAIN_STATE, s, "q", PLAIN_CA, Named(id), PLAIN_CSR, body);
  }

  // ----- an ID no reply can carry -----

  lemma UnderscoreIsUnprintable()
    ensures !Printable("_")
  {
    assert !PrintableChar("_"[0]);
  }

  /**
   A concrete server and a concrete request whose ID is an underscore, which is
   admitted, issued and stored, and ends in an error.
   */
  lemma UnderscoreIsIssuedUnanswered() returns (s: Services, body: bytes, job: Job, cert: Certificate)
    ensures Lawful(s.p) && PLAIN_WORLD.Valid() && Consistent(PLAIN_STATE)
    ensures Admit(PLAIN_STATE, s, "p", body) == Admitted(job) && job.request.transactionId == "_"
    ensures Reply(PLAIN_STATE, s, "p", body, PLAIN_WORLD).Err?
    ensures var row := StoredRow(PLAIN_STATE, s, job, PLAIN_WORLD, cert);
      var after := TablesAfter(PLAIN_STATE, s, "p", body, PLAIN_WORLD, Repository.EMPTY, SUCCEED).certs;
      row.serial in after && after[row.serial] == row
  {
    var p := ShortPrimitivesExist();
    s := PlainServices(p);
    body := NamedPrints(p, "_");
    UnderscoreIsUnprintable();
    job, cert := UnprintableIsIssued(p, "_", body);
  }

  lemma UnprintableIsIssued(p: Primitives, id: string, body: bytes) returns (job: Job, cert: Certificate)
    requires Plain(p) && |id| == 1 && !Printable(id) && Named(id).Valid(p)
    requires RequestFor(PlainServices(p), PLAIN_CA, Named(id)) == Ok(body)
    ensures PLAIN_WORLD.Valid() && Consistent(PLAIN_STATE)
    ensures Admit(PLAIN_STATE, PlainServices(p), "p", body) == Admitted(job) && job.request.transactionId == id
    ensures Reply(PLAIN_STATE, PlainServices(p), "p", body, PLAIN_WORLD).Err?
    ensures var row := StoredRow(PLAIN_STATE, PlainServices(p), job, PLAIN_WORLD, cert);
      var after := TablesAfter(PLAIN_STATE, PlainServices(p), "p", body, PLAIN_WORLD, Repository.EMPTY, SUCCEED).certs;
      row.serial in after && after[row.serial] == row
  {
    var s := PlainServices(p);
    PlainServing(p);
    var r := NamedIsAdmitted(p, id, body);
    job := Job(PLAIN_PROFILE, PLAIN_CA, r, PLAIN_CSR);
    cert := PlainIssues(p, job);
    GrantedUnprintable(PLAIN_STATE, s, "p", body, PLAIN_WORLD, job, cert, Repository.EMPTY, SUCCEED);
  }

  // ----- a CA whose key is not the one it shows -----

  const MISMATCHED_CA := CertificateAuthority("ca", PLAIN, [7])
  const MISMATCHED_STATE := State(map["ca" := MISMATCHED_CA], map["p" := PLAIN_PROFILE], "")

  lemma FailureTextsAreShort(id: string, fail: FailInfo)
    requires |id| == 1
    ensures var attrs := FailureTexts(id, [], fail, []);
      forall i :: 0 <= i < |attrs| ==> ShortAttribute(attrs[i], PART)
  {
    Utf8Length(id);
    Utf8Length("3");
    Utf8Length("2");
    Utf8Length(Code(fail));
  }

  lemma FailurePrints(s: Services, r: ParsedRequest, id: string)
    requires Plain(s.p) && r.transactionId == id && r.senderNonce == [] && |id| == 1 && Printable(id)
    ensures FailureReply(s, MISMATCHED_CA, r, BadMessageCheck, []).Ok?
  {
    var attrs := FailureTexts(id, [], BadMessageCheck, []);
    FailureList(id, [], BadMessageCheck, []);
    FailureIsScep(attrs);
    FailureTextsAreShort(id, BadMessageCheck);
    PlainIsShort();
    ShortPartsPrint(s.p, [7], PLAIN, None, attrs, PART);
  }

  lemma UnreadableIsUnopened(s: Services, ca: CertificateAuthority, rt: ProfileRuntime, r: ParsedRequest)
    requires r.messageType.PkcsReq? && r.enveloped.Some? && forall der :: s.readCsr(der) == None
    ensures AdmitParsed(s, rt, ca, r) == Unopened(ca, r)
  {
  }

  lemma ForeignKeyUnverified(st: State, s: Services, profile: string, body: bytes, w: World, r: ParsedRequest,
                             reply: bytes, ca: CertificateAuthority)
    requires Lawful(s.p) && Distinguishing(s.p) && w.Valid() && ParseAndVerify(s.p, body) == Ok(r)
    requires Reply(st, s, profile, body, w) == Ok(reply)
    requires profile in st.profiles && st.profiles[profile].caId in st.cas && ca == st.cas[st.profiles[profile].caId]
    requires !OwnKey(s.p, ca)
    ensures VerifyMessage(s.p, reply).Err?
  {
    var own, v, fail := FullExchange(st, s, profile, body, w, r, reply);
  }

  lemma MismatchedState(p: Primitives)
    requires Plain(p)
    ensures Consistent(MISMATCHED_STATE) && !OwnKey(p, MISMATCHED_CA)
  {
    assert PLAIN.PublicKey() == [];
  }

  lemma BlindServices(p: Primitives) returns (s: Services)
    ensures s.p == p && forall der :: s.readCsr(der) == None
  {
    s := PlainServices(p).(readCsr := (der: bytes) => None);
  }

  lemma MismatchedReply(s: Services, body: bytes, r: ParsedRequest) returns (reply: bytes)
    requires Plain(s.p) && PLAIN_WORLD.Valid() && forall der :: s.readCsr(der) == None
    requires ParseAndVerify(s.p, body) == Ok(r) && r.transactionId == "A" && r.senderNonce == []
    requires r.messageType.PkcsReq? && r.enveloped.Some?
    ensures Reply(MISMATCHED_STATE, s, "p", body, PLAIN_WORLD) == Ok(reply)
  {
    ParsedIsAdmitted(MISMATCHED_STATE, s, "p", body, r);
    UnreadableIsUnopened(s, MISMATCHED_CA, PLAIN_PROFILE, r);
    UnopenedReply(MISMATCHED_STATE, s, "p", body, PLAIN_WORLD, MISMATCHED_CA, r);
    FailurePrints(s, r, "A");
    reply := Reply(MISMATCHED_STATE, s, "p", body, PLAIN_WORLD).value;
  }

  /**
   A server whose CSR reader takes nothing, and whose CA signs with a key that is
   not its certificate's, sends a reply that does not verify.
   */
  lemma MismatchedReplyFails() returns (s: Services, body: bytes, reply: bytes)
    ensures Plain(s.p) && !OwnKey(s.p, MISMATCHED_CA) && Consistent(MISMATCHED_STATE) && PLAIN_WORLD.Valid()
    ensures Reply(MISMATCHED_STATE, s, "p", body, PLAIN_WORLD) == Ok(reply)
    ensures VerifyMessage(s.p, reply).Err?
  {
    var p := ShortPrimitivesExist();
    PlainServing(p);
    s := BlindServices(p);
    body := NamedPrints(p, "A");
    var r := NamedParses(p, "A", body);
    reply := MismatchedReply(s, body, r);
    MismatchedState(p);
    ForeignKeyUnverified(MISMATCHED_STATE, s, "p", body, PLAIN_WORLD, r, reply, MISMATCHED_CA);
  }

  // ----- one ID under two profiles -----

  /** The request is sent to the profile that rejects it and then to the one that does not. */
  function Reuse(body: bytes): seq<Enrolment.Action> {
    Enrolment.Alone(0, "q", body, PLAIN_WORLD, SUCCEED) + Enrolment.Alone(1, "p", body, PLAIN_WORLD, SUCCEED)
  }

  /** The rejected run leaves a failed record and no certificate. */
  lemma RejectedRecord(s: Services, job: Job)
    requires PLAIN_WORLD.Valid() && job == Job(SECRET_PROFILE, PLAIN_CA, job.request, PLAIN_CSR)
    ensures var t := AdmittedTables(PLAIN_STATE, s, job, PLAIN_WORLD, Repository.EMPTY, SUCCEED);
      && t.certs == map[] && job.request.transactionId in t.transactions
      && t.transactions[job.request.transactionId].profile == "q"
  {
    RecordedCerts(Repository.EMPTY, job, FAILED, 0, SUCCEED);
    Enrolment.RecordEffect(Repository.EMPTY, job.request.transactionId, "q", FAILED, RECORDED_TYPE, TimestampText(0),
                           false, Repository.Acknowledged);
  }

  /** The second run turns it into an issued one and stores its certificate. */
  lemma IssuedRecord(s: Services, job: Job, cert: Certificate, t: Repository.Tables)
    requires PLAIN_WORLD.Valid() && Granted(PLAIN_STATE, s, job, PLAIN_WORLD, cert)
    requires t.certs == map[] && job.request.transactionId in t.transactions
    ensures var u := AdmittedTables(PLAIN_STATE, s, job, PLAIN_WORLD, t, SUCCEED);
      var id, row := job.request.transactionId, StoredRow(PLAIN_STATE, s, job, PLAIN_WORLD, cert);
      && id in u.transactions && u.transactions[id].status == ISSUED
      && u.transactions[id].profile == t.transactions[id].profile
      && row.serial in u.certs && u.certs[row.serial] == row
  {
    var row := StoredRow(PLAIN_STATE, s, job, PLAIN_WORLD, cert);
    RowIsStored(PLAIN_STATE, s, job, PLAIN_WORLD, cert, t, SUCCEED);
    GrantedTables(PLAIN_STATE, s, job, PLAIN_WORLD, cert, t, SUCCEED);
    InsertedRow(t, row);
    Enrolment.RecordEffect(Repository.After(t, Repository.Call(Repository.InsertCert(row), Repository.Acknowledged)),
                           job.request.transactionId, job.rt.name, ISSUED, RECORDED_TYPE, TimestampText(0), true,
                           Repository.Acknowledged);
  }

  /**
   A run from the idle machine: the ID is first used under a profile that
   rejects it, then under one that issues. The record ends up issued under the
   first, beside a certificate row under the second.
   */
  lemma ReusedIdKeepsFirstProfile() returns (s: Services, body: bytes, k: string)
    ensures Lawful(s.p) && Consistent(PLAIN_STATE)
    ensures var t := Enrolment.Exec(PLAIN_STATE, s, Enrolment.IDLE, Reuse(body)).tables;
      && "A" in t.transactions && t.transactions["A"].status == ISSUED && t.transactions["A"].profile == "q"
      && k in t.certs && t.certs[k].transactionId == Some("A") && t.certs[k].profile == Some("p")
  {
    var p := ShortPrimitivesExist();
    s := PlainServices(p);
    body := NamedPrints(p, "A");
    var r := NamedIsAdmitted(p, "A", body);
    PlainServing(p);
    var rejected, granted := Job(SECRET_PROFILE, PLAIN_CA, r, PLAIN_CSR), Job(PLAIN_PROFILE, PLAIN_CA, r, PLAIN_CSR);
    Enrolment.AloneInSequence(PLAIN_STATE, s, Enrolment.IDLE, 0, "q", 1, "p", body, PLAIN_WORLD, SUCCEED);
    AdmittedTablesAre(PLAIN_STATE, s, "q", body, PLAIN_WORLD, rejected, Repository.EMPTY, SUCCEED);
    RejectedRecord(s, rejected);
    var t := TablesAfter(PLAIN_STATE, s, "q", body, PLAIN_WORLD, Repository.EMPTY, SUCCEED);
    AdmittedTablesAre(PLAIN_STATE, s, "p", body, PLAIN_WORLD, granted, t, SUCCEED);
    var cert := PlainIssues(p, granted);
    IssuedRecord(s, granted, cert, t);
    k := StoredRow(PLAIN_STATE, s, granted, PLAIN_WORLD, cert).serial;
  }

  // ----- a certificate the tables never hold -----

  const UNSTORED := Calls(Repository.Down, true, Repository.Acknowledged)

  lemma GrantedIsIssued(st: State, s: Services, profile: string, body: bytes, w: World, job: Job, cert: Certificate)
    requires w.Valid() && Admit(st, s, profile, body) == Admitted(job) && Granted(st, s, job, w, cert)
    ensures Issued(st, s, profile, body, w, cert)
  {
  }

  lemma PlainReplyIsShort(p: Primitives, id: string, to: Envelope.Recipient, cert: Certificate)
    requires Plain(p) && |id| == 1 && |CertificateDer(cert)| <= 10000
    requires to == Envelope.Recipient(p.publicKey([]), PLAIN.issuer, PLAIN.serial)
    ensures PLAIN_WORLD.Valid() && ShortReply(PlainServices(p), PLAIN_CA, to, id, [], cert, PLAIN_WORLD)
  {
    PlainIsShort();
    Utf8Length(id);
  }

  lemma GrantedIsDelivered(st: State, s: Services, profile: string, ca: CertificateAuthority, q: Request, body: bytes,
                           w: World, job: Job, cert: Certificate) returns (reply: bytes)
    requires Lawful(s.p) && q.Valid(s.p) && Serving(st, s, profile, ca) && w.Valid()
    requires RequestFor(s, ca, q) == Ok(body) && ParseCsr(s, q.csrDer).Some? && Printable(q.id)
    requires Admit(st, s, profile, body) == Admitted(job) && Granted(st, s, job, w, cert)
    requires ShortReply(s, ca, Envelope.Recipient(s.p.publicKey(q.key), q.cert.issuer, q.cert.serial),
                        q.id, q.nonce, cert, w)
    ensures Reply(st, s, profile, body, w) == Ok(reply) && Delivered(s.p, reply, job.request, w.nonce, cert)
  {
    GrantedIsIssued(st, s, profile, body, w, job, cert);
    var csr := ParseCsr(s, q.csrDer).value;
    var r := RequestIsAdmitted(st, s, profile, ca, q, csr, body);
    var same := HonestEnrolment(st, s, profile, ca, q, csr, body, w, cert);
    reply := Reply(st, s, profile, body, w).value;
    AnswerDelivers(st, s, profile, ca, body, w, r, cert, reply);
  }

  /** An insert that never reaches the database leaves it empty. */
  lemma UnstoredIsUnknown(st: State, s: Services, profile: string, body: bytes, w: World, job: Job, cert: Certificate,
                          t: Repository.Tables)
    requires w.Valid() && Admit(st, s, profile, body) == Admitted(job) && Granted(st, s, job, w, cert)
    requires t == Enrolment.Exec(st, s, Enrolment.IDLE, Enrolment.Alone(0, profile, body, w, UNSTORED)).tables
    ensures forall caId, n: Serial, clock :: Revocation.OcspStatus(t, caId, n, clock) == Revocation.StatusUnknown
  {
    Enrolment.AloneIsPkiOperation(st, s, Enrolment.IDLE, 0, profile, body, w, UNSTORED);
    AdmittedTablesAre(st, s, profile, body, w, job, Repository.EMPTY, UNSTORED);
    GrantedTables(st, s, job, w, cert, Repository.EMPTY, UNSTORED);
    Enrolment.InsertEffect(Repository.EMPTY, StoredRow(st, s, job, w, cert), Repository.Down);
  }

  lemma NamedIsDelivered(p: Primitives, id: string, body: bytes) returns (job: Job, cert: Certificate, reply: bytes)
    requires Plain(p) && |id| == 1 && Printable(id) && Named(id).Valid(p)
    requires RequestFor(PlainServices(p), PLAIN_CA, Named(id)) == Ok(body)
    ensures PLAIN_WORLD.Valid() && Reply(PLAIN_STATE, PlainServices(p), "p", body, PLAIN_WORLD) == Ok(reply)
    ensures Delivered(p, reply, job.request, [], cert)
    ensures Admit(PLAIN_STATE, PlainServices(p), "p", body) == Admitted(job)
    ensures Granted(PLAIN_STATE, PlainServices(p), job, PLAIN_WORLD, cert)
  {
    var s := PlainServices(p);
    PlainServing(p);
    var r := NamedIsAdmitted(p, id, body);
    job := Job(PLAIN_PROFILE, PLAIN_CA, r, PLAIN_CSR);
    cert := PlainIssues(p, job);
    PlainReplyIsShort(p, id, Envelope.Recipient(p.publicKey([]), PLAIN.issuer, PLAIN.serial), cert);
    reply := GrantedIsDelivered(PLAIN_STATE, s, "p", PLAIN_CA, Named(id), body, PLAIN_WORLD, job, cert);
  }

  /** The request's own steps, with the insert down. */
  function Unstored(body: bytes): seq<Enrolment.Action> { Enrolment.Alone(0, "p", body, PLAIN_WORLD, UNSTORED) }

  /**
   A run from the idle machine whose insert never reaches the database: the
   device is sent its certificate, and the responder answers unknown for it.
   */
  lemma DeliveredAndUnknown() returns (s: Services, body: bytes, job: Job, cert: Certificate, reply: bytes)
    ensures Plain(s.p) && PLAIN_WORLD.Valid() && Admit(PLAIN_STATE, s, "p", body) == Admitted(job)
    ensures Reply(PLAIN_STATE, s, "p", body, PLAIN_WORLD) == Ok(reply) && Delivered(s.p, reply, job.request, [], cert)
    ensures var t := Enrolment.Exec(PLAIN_STATE, s, Enrolment.IDLE, Unstored(body)).tables;
      forall clock :: Revocation.OcspStatus(t, "ca", cert.serial, clock) == Revocation.StatusUnknown
  {
    var p := ShortPrimitivesExist();
    body, job, cert, reply := SomeIsDelivered(p, "A");
    s := PlainServices(p);
    NamedIsUnknown(p, body, job, cert);
  }

  lemma SomeIsDelivered(p: Primitives, id: string) returns (body: bytes, job: Job, cert: Certificate, reply: bytes)
    requires Plain(p) && |id| == 1 && Printable(id)
    ensures PLAIN_WORLD.Valid() && Reply(PLAIN_STATE, PlainServices(p), "p", body, PLAIN_WORLD) == Ok(reply)
    ensures Delivered(p, reply, job.request, [], cert)
    ensures Admit(PLAIN_STATE, PlainServices(p), "p", body) == Admitted(job)
    ensures Granted(PLAIN_STATE, PlainServices(p), job, PLAIN_WORLD, cert)
  {
    body := NamedPrints(p, id);
    job, cert, reply := NamedIsDelivered(p, id, body);
  }

  lemma NamedIsUnknown(p: Primitives, body: bytes, job: Job, cert: Certificate)
    requires PLAIN_WORLD.Valid() && Admit(PLAIN_STATE, PlainServices(p), "p", body) == Admitted(job)
    requires Granted(PLAIN_STATE, PlainServices(p), job, PLAIN_WORLD, cert)
    ensures var t := Enrolment.Exec(PLAIN_STATE, PlainServices(p), Enrolment.IDLE, Unstored(body)).tables;
      forall clock :: Revocation.OcspStatus(t, "ca", cert.serial, clock) == Revocation.StatusUnknown
  {
    var s := PlainServices(p);
    var t := Enrolment.Exec(PLAIN_STATE, s, Enrolment.IDLE, Unstored(body)).tables;
    UnstoredIsUnknown(PLAIN_STATE, s, "p", body, PLAIN_WORLD, job, cert, t);
  }
}
