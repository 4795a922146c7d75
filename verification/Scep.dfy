/**
 One `PKIOperation` (`src/http/scep.rs`): admission, validation, issuing,
 persisting, replying. What the device receives does not depend on the tables,
 so the reply is a function of the request and of the outside world's choices.
 */
module Scep {
  import opened Wrappers
  import opened Der
  import opened Asn1
  import opened Primitives
  import opened Attributes
  import opened Sign
  import opened Verify
  import opened Challenge
  import opened AppState
  import opened Repository
  import opened SerialNumbers
  import opened Timestamps
  import opened Text
  import Envelope
  import Base64

  // ----- certificate requests and issuing -----

  /** A parsed PKCS#10 request: what the server takes from it. */
  datatype ParsedCsr = ParsedCsr(der: bytes, subject: Name, keyAlg: bytes, keyBits: BitString,
                                 password: Option<string>)

  /** The library builders and readers the flow calls. */
  datatype Services = Services(
    p: Primitives,
    readCsr: bytes -> Option<(Name, bytes, BitString, Option<string>)>,
    extensions: (ParsedCsr, IssueOptions) -> Option<bytes>,
    validity: (nat, nat) -> bytes,
    signCertificate: (bytes, ParsedCsr, Serial) -> Option<BitString>,
    nameText: Name -> string)

  datatype IssueOptions = IssueOptions(
    validityDays: nat, keyUsage: seq<string>, extendedKeyUsage: seq<string>, ocspUrl: string, crlUrl: string)

  /** One issuance: the request, the options, the serial and the clock. */
  datatype Issuance = Issuance(ca: CertificateAuthority, csr: ParsedCsr, opts: IssueOptions, serial: Serial, now: nat) {
    function NotAfter(): nat { now + opts.validityDays * 86400 }
  }

  /** `csr::parse` keeps the original DER. */
  function ParseCsr(s: Services, der: bytes): Option<ParsedCsr> {
    var (subject, keyAlg, keyBits, password) :- s.readCsr(der);
    Some(ParsedCsr(der, subject, keyAlg, keyBits, password))
  }

  /** What the request says is what the reader found, beside its own octets. */
  lemma ParseCsrExactly(s: Services, der: bytes, csr: ParsedCsr)
    ensures ParseCsr(s, der) == Some(csr) <==>
      csr.der == der && s.readCsr(der) == Some((csr.subject, csr.keyAlg, csr.keyBits, csr.password))
  {
    if s.readCsr(der).Some? {
      var (subject, keyAlg, keyBits, password) := s.readCsr(der).value;
      assert ParseCsr(s, der) == Some(ParsedCsr(der, subject, keyAlg, keyBits, password));
    }
  }

  const X509_V3: bytes := [2, 1, 2]
  const SIGNATURE_ALG: bytes := EncodeAny(Any(OID, SHA256_WITH_RSA)) + EncodeAny(Any(NULL, []))

  /** `CertificateAuthority::issue`: subject and key from the request, issuer from the CA. */
  function Issue(s: Services, i: Issuance): Option<Certificate> {
    if i.NotAfter() > MAX_SECONDS then None
    else
      var extensions :- s.extensions(i.csr, i.opts);
      var signature :- s.signCertificate(i.ca.key, i.csr, i.serial);
      Some(Certificate(Some(X509_V3), i.serial, SIGNATURE_ALG, i.ca.cert.subject, s.validity(i.now, i.NotAfter()),
                       i.csr.subject, i.csr.keyAlg, i.csr.keyBits, Some(extensions), SIGNATURE_ALG, signature))
  }

  /**
   Issuing: the generated serial, the CA's name as issuer, and subject and
   public key exactly as the request has them. It fails exactly for a validity
   beyond the range of X.509 times or when a library builder fails.
   */
  lemma IssuedFrom(s: Services, i: Issuance)
    ensures Issue(s, i).Some? <==>
      && i.NotAfter() <= MAX_SECONDS && s.extensions(i.csr, i.opts).Some?
      && s.signCertificate(i.ca.key, i.csr, i.serial).Some?
    ensures Issue(s, i).Some? ==>
      var cert := Issue(s, i).value;
      && cert.serial == i.serial && cert.issuer == i.ca.cert.subject && cert.subject == i.csr.subject
      && cert.keyAlg == i.csr.keyAlg && cert.keyBits == i.csr.keyBits && cert.PublicKey() == i.csr.keyBits[1..]
      && cert.extensions == s.extensions(i.csr, i.opts)
  {
  }

  // ----- the certs-only payload (`src/crypto/degenerate.rs`) -----

  function CertsOnlyFields(c: Certificate): seq<Any> {
    [CMS_V1, Any(SET, []), Struct([Any(OID, ID_DATA)]), Any(CONTEXT_0_CONSTRUCTED, EncodeAny(CertificateToAny(c))),
     Any(SET, [])]
  }

  function CertsOnlyToAny(c: Certificate): Any { ContentInfoToAny(ID_SIGNED_DATA, Struct(CertsOnlyFields(c))) }

  function CertsOnly(c: Certificate): Result<bytes> { ToDer(CertsOnlyToAny(c)) }

  /** What a device reads from the payload: the first certificate. */
  function FirstCertificate(der: bytes): Option<Certificate> {
    var a :- DecodeOnly(der);
    var (contentType, inner) :- ContentInfoFromAny(a);
    var sd :- SignedDataFromAny(inner);
    var certs :- sd.certificates;
    var first :- DecodeFirst(certs);
    CertificateFromAny(first)
  }

  lemma CertsOnlyReads(c: Certificate)
    requires Fits(Struct(CertsOnlyFields(c)))
    ensures SignedDataFromAny(Struct(CertsOnlyFields(c))) ==
      Some(SignedData(None, Some(EncodeAny(CertificateToAny(c))), []))
    ensures Fits(CertificateToAny(c))
  {
    var f := CertsOnlyFields(c);
    FieldsOfStruct(SEQUENCE, f);
    assert Fits(f[2]) && Fits(f[3]);
    FieldsOfStruct(SEQUENCE, [Any(OID, ID_DATA)]);
    assert f[3..][1..] == [f[4]];
  }

  /** The payload carries the certificate and nothing is lost in it. */
  lemma CertsOnlyRoundTrip(c: Certificate, der: bytes)
    requires CertsOnly(c) == Ok(der)
    ensures FirstCertificate(der) == Some(c)
  {
    var inner := Struct(CertsOnlyFields(c));
    FitsOfToDer(ContentInfoToAny(ID_SIGNED_DATA, inner));
    OnlyRoundTrip(ContentInfoToAny(ID_SIGNED_DATA, inner));
    ContentInfoRoundTrip(ID_SIGNED_DATA, inner);
    CertsOnlyReads(c);
    FirstRoundTrip(CertificateToAny(c));
    CertificateRoundTrip(c);
  }

  // ----- admission -----

  /** A request that reached validation. */
  datatype Job = Job(rt: ProfileRuntime, ca: CertificateAuthority, request: ParsedRequest, csr: ParsedCsr) {
    function Input(): ValidationInput { ValidationInput(request.transactionId, csr.der, csr.password) }
  }

  datatype Admission =
    | Refused(error: AppError)
    | Unopened(ca: CertificateAuthority, request: ParsedRequest)
    | Admitted(job: Job)

  /** The checks after the signature: message type, envelope, decryption and CSR. */
  function AdmitParsed(s: Services, rt: ProfileRuntime, ca: CertificateAuthority, r: ParsedRequest): Admission {
    if !r.messageType.PkcsReq? && !r.messageType.RenewalReq? then Refused(BadRequest)
    else if r.enveloped.None? then Refused(BadRequest)
    else
      var plain := Envelope.Open(s.p, r.enveloped.value, ca.cert, ca.key);
      if plain.Err? || ParseCsr(s, plain.value).None? then Unopened(ca, r)
      else Admitted(Job(rt, ca, r, ParseCsr(s, plain.value).value))
  }

  /** Everything before challenge validation: lookups, signature, message type, decryption. */
  function Admit(st: State, s: Services, profile: string, body: bytes): Admission {
    if profile !in st.profiles then Refused(NotFound)
    else
      var rt := st.profiles[profile];
      if rt.caId !in st.cas then Refused(Config)
      else
        var ca := st.cas[rt.caId];
        var parsed := ParseAndVerify(s.p, body);
        if parsed.Err? then Refused(parsed.error) else AdmitParsed(s, rt, ca, parsed.value)
  }

  /**
   How parsing a message fails: a key that is not RSA, attributes too long to
   print again and content that is no envelope are cryptographic errors, anything
   else is a bad request.
   */
  lemma ParsingErrors(p: Primitives, body: bytes)
    ensures var r := ParseAndVerify(p, body);
      r.Err? ==> r.error == if Cryptographic(p, body) then CryptoError else BadRequest
  {
    var m := VerifyMessage(p, body);
    if m.Err? {
      VerifyErrors(p, body);
    } else if Extract(m.value).Err? {
      ExtractErrors(m.value);
      VerifiedMessage(p, body, m.value);
    }
  }

  lemma VerifiedMessage(p: Primitives, body: bytes, v: Verified)
    requires VerifyMessage(p, body) == Ok(v)
    ensures Cryptographic(p, body) <==> NoEnvelope(v)
  {
    var (signer, cert, content) := ReadMessage(body).value;
    assert CheckSigner(p, signer, cert, content) == Ok(v);
  }

  ghost predicate Cryptographic(p: Primitives, body: bytes) {
    match ReadMessage(body)
    case Err(_) => false
    case Ok((signer, cert, content)) =>
      && signer.signedAttrs.Some?
      && (|| !p.isRsaKey(cert.PublicKey()) || |SignedOctets(signer.signedAttrs.value)| > MAX_LEN
          || (CheckSigner(p, signer, cert, content).Ok? && NoEnvelope(CheckSigner(p, signer, cert, content).value)))
  }

  /** All the attributes are there, the type calls for an envelope, and the content is none. */
  ghost predicate NoEnvelope(v: Verified) {
    && ReadString(v.attrs, ID_MESSAGE_TYPE).Ok? && ReadString(v.attrs, ID_TRANSACTION_ID).Ok?
    && ReadOctets(v.attrs, ID_SENDER_NONCE).Ok?
    && Trim(ReadString(v.attrs, ID_MESSAGE_TYPE).value) in {"3", "17", "19"}
    && v.content.Some? && Envelope.Parse(v.content.value).Err?
  }

  lemma VerifyErrors(p: Primitives, body: bytes)
    requires VerifyMessage(p, body).Err?
    ensures VerifyMessage(p, body).error == if Cryptographic(p, body) then CryptoError else BadRequest
  {
    ReadErrors(body);
    if ReadMessage(body).Ok? {
      var (signer, cert, content) := ReadMessage(body).value;
      RejectionErrors(p, signer, cert, content);
    }
  }

  lemma SignerErrors(sd: SignedData)
    ensures ReadSigner(sd).Err? ==> ReadSigner(sd).error == BadRequest
  {
  }

  lemma ReadErrors(body: bytes)
    ensures ReadMessage(body).Err? ==> ReadMessage(body).error == BadRequest
  {
    var a := DecodeOnly(body);
    if a.Some? && ContentInfoFromAny(a.value).Some? {
      var sd := SignedDataFromAny(ContentInfoFromAny(a.value).value.1);
      if sd.Some? { SignerErrors(sd.value); }
    }
  }

  lemma RejectionErrors(p: Primitives, signer: SignerInfo, cert: Certificate, content: Option<bytes>)
    requires CheckSigner(p, signer, cert, content).Err?
    ensures CheckSigner(p, signer, cert, content).error ==
      if signer.signedAttrs.Some?
         && (!p.isRsaKey(cert.PublicKey()) || |SignedOctets(signer.signedAttrs.value)| > MAX_LEN)
      then CryptoError else BadRequest
  {
  }

  lemma ExtractErrors(v: Verified)
    requires Extract(v).Err?
    ensures Extract(v).error == if NoEnvelope(v) then CryptoError else BadRequest
  {
    ExtractExactly(v);
    if v.content.Some? { EnvelopeErrors(v.content.value); }
  }

  lemma EnvelopeErrors(content: bytes)
    ensures Envelope.Parse(content).Err? ==> Envelope.Parse(content).error == CryptoError
  {
  }

  /** For a state built from validated settings, no request finds a profile without its CA. */
  lemma NoProfileWithoutCa(st: State, s: Services, profile: string, body: bytes)
    requires Consistent(st)
    ensures Admit(st, s, profile, body) == Refused(NotFound) <==> profile !in st.profiles
    ensures Admit(st, s, profile, body) != Refused(Config)
  {
    ParsingErrors(s.p, body);
    if profile in st.profiles && ParseAndVerify(s.p, body).Ok? {
      var rt := st.profiles[profile];
      ParsedRefusal(s, rt, st.cas[rt.caId], ParseAndVerify(s.p, body).value);
    }
  }

  /**
   Which requests are refused, and as what: an unconfigured profile as unknown, a
   message that does not parse as it failed to, and one that is no enrolment or
   carries no envelope as a bad request. Nothing else is.
   */
  lemma RefusedExactly(st: State, s: Services, profile: string, body: bytes)
    requires Consistent(st)
    ensures Admit(st, s, profile, body).Refused? <==> profile !in st.profiles || !Enrolling(ParseAndVerify(s.p, body))
    ensures Admit(st, s, profile, body).Refused? ==>
      Admit(st, s, profile, body).error == RefusalError(st, s.p, profile, body)
  {
    if profile in st.profiles {
      var rt, r := st.profiles[profile], ParseAndVerify(s.p, body);
      ParsingErrors(s.p, body);
      if r.Ok? { ParsedRefusal(s, rt, st.cas[rt.caId], r.value); }
    }
  }

  ghost function RefusalError(st: State, p: Primitives, profile: string, body: bytes): AppError {
    if profile !in st.profiles then NotFound
    else if ParseAndVerify(p, body).Err? && Cryptographic(p, body) then CryptoError
    else BadRequest
  }

  /** An enrolment with an envelope. */
  predicate Enrolling(r: Result<ParsedRequest>) {
    r.Ok? && r.value.messageType in {PkcsReq, RenewalReq} && r.value.enveloped.Some?
  }

  lemma ParsedRefusal(s: Services, rt: ProfileRuntime, ca: CertificateAuthority, r: ParsedRequest)
    ensures AdmitParsed(s, rt, ca, r).Refused? <==> !Enrolling(Ok(r))
    ensures AdmitParsed(s, rt, ca, r).Refused? ==> AdmitParsed(s, rt, ca, r).error == BadRequest
  {
  }

  // ----- replies -----

  /**
   The outside world's choices in one run: Intune's verdict, randomness, and the clock at issuing, inserting and
   recording.
   */
  datatype World = World(
    verdict: bool, serialRandom: bytes, now: nat, insertedAt: nat, recordedAt: nat,
    envelope: Envelope.Randomness, nonce: bytes) {
    ghost predicate Valid() { |serialRandom| == 16 && envelope.Valid() }
  }

  /** `build_failure` */
  function FailureReply(s: Services, ca: CertificateAuthority, r: ParsedRequest, fail: FailInfo,
                        nonce: bytes): Result<bytes> {
    var attrs :- FailureAttrs(r.transactionId, r.senderNonce, fail, nonce);
    SignedReply(s.p, ca.key, ca.cert, None, attrs)
  }

  function SuccessReply(s: Services, ca: CertificateAuthority, r: ParsedRequest, issued: Certificate,
                        rand: Envelope.Randomness, nonce: bytes): Result<bytes>
    requires rand.Valid()
  {
    var certsOnly :- CertsOnly(issued);
    var envelope :- Envelope.EnvelopeFor(s.p, certsOnly, r.recipient, rand);
    var attrs :- SuccessAttrs(r.transactionId, r.senderNonce, nonce);
    SignedReply(s.p, ca.key, ca.cert, Some(envelope), attrs)
  }

  function OptionsFor(st: State, rt: ProfileRuntime): IssueOptions {
    IssueOptions(rt.validityDays, rt.keyUsage, rt.extendedKeyUsage, OcspUrl(st, rt.caId), CrlUrl(st, rt.caId))
  }

  function IssuanceFor(st: State, job: Job, random: bytes, now: nat): Issuance
    requires |random| == 16
  {
    Issuance(job.ca, job.csr, OptionsFor(st, job.rt), SerialFrom(random), now)
  }

  /** The reply to an admitted request. */
  function AdmittedReply(st: State, s: Services, job: Job, w: World): Result<bytes>
    requires w.Valid()
  {
    if !Approves(job.rt.validator, job.Input(), w.verdict) then
      FailureReply(s, job.ca, job.request, BadRequestInfo, w.nonce)
    else
      var issued := Issue(s, IssuanceFor(st, job, w.serialRandom, w.now));
      if issued.None? then FailureReply(s, job.ca, job.request, BadRequestInfo, w.nonce)
      else
        var _ :- ToDer(CertificateToAny(issued.value));
        SuccessReply(s, job.ca, job.request, issued.value, w.envelope, w.nonce)
  }

  /** The reply to one request. */
  function Reply(st: State, s: Services, profile: string, body: bytes, w: World): Result<bytes>
    requires w.Valid()
  {
    match Admit(st, s, profile, body)
    case Refused(e) => Err(e)
    case Unopened(ca, r) => FailureReply(s, ca, r, BadMessageCheck, w.nonce)
    case Admitted(job) => AdmittedReply(st, s, job, w)
  }

  // ----- the stored row -----

  /** `time_to_utc`, for the times an issued certificate can have. */
  function TimestampText(t: nat): string
  {
    YearRange(t);
    if t <= MAX_SECONDS then Format(FromSeconds(t)) else Format(FromSeconds(MAX_SECONDS))
  }

  /** The row `persist` writes for an issued certificate. */
  function RowFor(s: Services, job: Job, i: Issuance, cert: Certificate, createdAt: nat): CertRow {
    var der := CertificateDer(cert);
    CertRow(HexEncode(cert.serial), job.ca.id, s.nameText(cert.subject), TimestampText(i.now),
            TimestampText(i.NotAfter()), Base64.Encode(der), HexEncodeUpper(s.p.hash(Sha1, der)),
            Some(job.request.transactionId), Some(job.rt.name), STATUS_VALID, TimestampText(createdAt), None, None)
  }

  /** What the row says of the certificate and of the request it was issued for. */
  ghost predicate Describes(s: Services, job: Job, row: CertRow, cert: Certificate) {
    && HexDecode(row.serial) == Some(cert.serial)
    && Base64.Decode(row.derB64) == Some(CertificateDer(cert))
    && HexDecode(row.thumbprint) == Some(s.p.hash(Sha1, CertificateDer(cert)))
    && row.subject == s.nameText(cert.subject) && row.caId == job.ca.id
    && row.transactionId == Some(job.request.transactionId) && row.profile == Some(job.rt.name)
    && row.status == "valid" && row.revokedAt == None && row.reason == None
  }

  /** A text denotes a second, within the range of X.509 times. */
  ghost predicate Denotes(text: string, t: nat) { t <= 253402300799 ==> ParseRfc3339(text) == Some(t) }

  /**
   The stored row determines the certificate: serial, DER and thumbprint decode
   from it and, within the range of X.509 times, notBefore is the second of
   issuing and notAfter 86400 seconds for each day of the profile later.
   */
  lemma RowDescribesCertificate(st: State, s: Services, job: Job, random: bytes, now: nat, cert: Certificate,
                                createdAt: nat)
    returns (row: CertRow, ends: nat)
    requires |random| == 16
    ensures row == RowFor(s, job, IssuanceFor(st, job, random, now), cert, createdAt)
    ensures ends == now + 86400 * job.rt.validityDays
    ensures Describes(s, job, row, cert)
    ensures Denotes(row.notBefore, now) && Denotes(row.notAfter, ends) && Denotes(row.createdAt, createdAt)
  {
    ends := IssuanceEnds(st, job, random, now);
    row := RowOfIssuance(s, job, IssuanceFor(st, job, random, now), cert, createdAt);
  }

  lemma IssuanceEnds(st: State, job: Job, random: bytes, now: nat) returns (ends: nat)
    requires |random| == 16
    ensures IssuanceFor(st, job, random, now).now == now && IssuanceFor(st, job, random, now).NotAfter() == ends
    ensures ends == now + 86400 * job.rt.validityDays
  {
    ends := IssuanceFor(st, job, random, now).NotAfter();
  }

  lemma RowOfIssuance(s: Services, job: Job, i: Issuance, cert: Certificate, createdAt: nat) returns (row: CertRow)
    ensures row == RowFor(s, job, i, cert, createdAt) && Describes(s, job, row, cert)
    ensures Denotes(row.notBefore, i.now) && Denotes(row.notAfter, i.NotAfter()) && Denotes(row.createdAt, createdAt)
  {
    row := RowFor(s, job, i, cert, createdAt);
    RowDescribes(s, job, i, cert, createdAt);
    RowDenotes(s, job, i, cert, createdAt);
  }

  lemma RowDescribes(s: Services, job: Job, i: Issuance, cert: Certificate, createdAt: nat)
    ensures Describes(s, job, RowFor(s, job, i, cert, createdAt), cert)
  {
    HexRoundTrip(cert.serial);
    HexUpperRoundTrip(s.p.hash(Sha1, CertificateDer(cert)));
    Base64.RoundTrip(CertificateDer(cert));
  }

  lemma RowDenotes(s: Services, job: Job, i: Issuance, cert: Certificate, createdAt: nat)
    ensures var row := RowFor(s, job, i, cert, createdAt);
      Denotes(row.notBefore, i.now) && Denotes(row.notAfter, i.NotAfter()) && Denotes(row.createdAt, createdAt)
  {
    StampReads(i.now);
    StampReads(i.NotAfter());
    StampReads(createdAt);
  }

  lemma StampReads(t: nat)
    ensures t <= 253402300799 ==> ParseRfc3339(TimestampText(t)) == Some(t)
  {
    if t <= MAX_SECONDS { TimestampRoundTrip(t); }
  }

  // ----- what the device finds in its certificate -----

  /** The profile's own settings, and the URLs of its CA below the base URL. */
  ghost predicate OptionsOf(st: State, rt: ProfileRuntime, opts: IssueOptions) {
    && opts.validityDays == rt.validityDays && opts.keyUsage == rt.keyUsage
    && opts.extendedKeyUsage == rt.extendedKeyUsage
    && opts.ocspUrl == TrimSlashes(st.baseUrl) + "/ocsp/" + rt.caId
    && opts.crlUrl == TrimSlashes(st.baseUrl) + "/crl/" + rt.caId
  }

  /** Version 3, signed with sha256WithRSAEncryption: the content octets of both as they stand in the certificate. */
  ghost predicate Version3(c: Certificate) {
    && c.version == Some([0x02, 0x01, 0x02])
    && c.signatureAlg == c.outerAlg
    && c.signatureAlg == [0x06, 0x09, 0x2A, 0x86, 0x48, 0x86, 0xF7, 0x0D, 0x01, 0x01, 0x0B, 0x05, 0x00]
  }

  lemma SignatureAlgOctets()
    ensures SIGNATURE_ALG == [0x06, 0x09, 0x2A, 0x86, 0x48, 0x86, 0xF7, 0x0D, 0x01, 0x01, 0x0B, 0x05, 0x00]
  {
    assert EncodeAny(Any(OID, SHA256_WITH_RSA)) == [0x06, 0x09] + SHA256_WITH_RSA;
    assert EncodeAny(Any(NULL, [])) == [0x05, 0x00];
  }

  /**
   What a device finds in the payload of an issued certificate: its own subject
   and public key as in its request, the generated serial, the CA's name as
   issuer, the days of its profile as validity, and the extensions for the
   profile's usages and the CA's URLs. Nothing is issued exactly for a validity
   past the end of 9999 or when a library builder fails.
   */
  lemma DeviceReadsItsCertificate(st: State, s: Services, job: Job, random: bytes, now: nat)
    returns (opts: IssueOptions)
    requires |random| == 16
    ensures OptionsOf(st, job.rt, opts)
    ensures var issued := Issue(s, IssuanceFor(st, job, random, now));
      && (issued.None? <==>
            || now + job.rt.validityDays * 86400 > 253402300799 || s.extensions(job.csr, opts).None?
            || s.signCertificate(job.ca.key, job.csr, SerialFrom(random)).None?)
      && (issued.Some? && CertsOnly(issued.value).Ok? ==>
            var read := FirstCertificate(CertsOnly(issued.value).value);
            && read.Some? && Version3(read.value) && read.value.serial == SerialFrom(random)
            && read.value.issuer == job.ca.cert.subject && read.value.subject == job.csr.subject
            && read.value.keyAlg == job.csr.keyAlg && read.value.keyBits == job.csr.keyBits
            && read.value.validity == s.validity(now, now + job.rt.validityDays * 86400)
            && read.value.extensions == s.extensions(job.csr, opts)
            && Some(read.value.signature) == s.signCertificate(job.ca.key, job.csr, SerialFrom(random)))
  {
    opts := OptionsFor(st, job.rt);
    var issued := Issue(s, IssuanceFor(st, job, random, now));
    SignatureAlgOctets();
    if issued.Some? && CertsOnly(issued.value).Ok? {
      CertsOnlyRoundTrip(issued.value, CertsOnly(issued.value).value);
    }
  }

  const ISSUED := "issued"
  const FAILED := "failed"
  /** The message type every transaction row records, also for renewals. */
  const RECORDED_TYPE := "PKCSReq"

  /** How the database calls of one run end. */
  datatype Calls = Calls(insert: Fate, selectUp: bool, write: Fate)

  function Recorded(t: Tables, job: Job, status: string, createdAt: nat, c: Calls): Tables {
    if !c.selectUp then t
    else After(t, Call(RecordWrite(job.request.transactionId, job.rt.name, status, RECORDED_TYPE,
                                   TimestampText(createdAt), job.request.transactionId in t.transactions), c.write))
  }

  function AdmittedTables(st: State, s: Services, job: Job, w: World, t: Tables, c: Calls): Tables
    requires w.Valid()
  {
    if !Approves(job.rt.validator, job.Input(), w.verdict) then Recorded(t, job, FAILED, w.recordedAt, c)
    else
      var i := IssuanceFor(st, job, w.serialRandom, w.now);
      var issued := Issue(s, i);
      if issued.None? || ToDer(CertificateToAny(issued.value)).Err? then t
      else
        var insert := Call(InsertCert(RowFor(s, job, i, issued.value, w.insertedAt)), c.insert);
        if Answer(t, insert).Err? then After(t, insert)
        else Recorded(After(t, insert), job, ISSUED, w.recordedAt, c)
  }

  /** The tables after a run that nothing interleaves with. */
  function TablesAfter(st: State, s: Services, profile: string, body: bytes, w: World, t: Tables, c: Calls): Tables
    requires w.Valid()
  {
    match Admit(st, s, profile, body)
    case Refused(_) => t
    case Unopened(_, _) => t
    case Admitted(job) => AdmittedTables(st, s, job, w, t, c)
  }

  /** `record`, best effort. */
  method Record(pool: Pool, job: Job, status: string, createdAt: nat, c: Calls)
    modifies pool
    ensures pool.tables == Recorded(old(pool.tables), job, status, createdAt, c)
  {
    var _ := pool.RecordTransaction(job.request.transactionId, job.rt.name, status, RECORDED_TYPE,
                                    TimestampText(createdAt), c.selectUp, [], c.write);
  }

  /** `persist`: insert the certificate, and only then record the transaction as issued. */
  method Persist(pool: Pool, s: Services, job: Job, i: Issuance, cert: Certificate, insertedAt: nat, recordedAt: nat,
                 c: Calls)
    returns (r: Result<()>)
    modifies pool
    ensures var insert := Call(InsertCert(RowFor(s, job, i, cert, insertedAt)), c.insert);
      && (r.Ok? <==> Answer(old(pool.tables), insert).Ok?)
      && pool.tables == if r.Err? then After(old(pool.tables), insert)
                        else Recorded(After(old(pool.tables), insert), job, ISSUED, recordedAt, c)
  {
    var row := RowFor(s, job, i, cert, insertedAt);
    r := pool.InsertIssued(row, c.insert);
    if r.Err? { return; }
    Record(pool, job, ISSUED, recordedAt, c);
  }

  /** `pki_operation`. Failures of the database never change the reply. */
  method PkiOperation(st: State, s: Services, pool: Pool, profile: string, body: bytes, w: World, c: Calls)
    returns (r: Result<bytes>)
    requires w.Valid()
    modifies pool
    ensures r == Reply(st, s, profile, body, w)
    ensures pool.tables == TablesAfter(st, s, profile, body, w, old(pool.tables), c)
  {
    var admission := Admit(st, s, profile, body);
    match admission {
      case Refused(e) => return Err(e);
      case Unopened(ca, request) => r := SendFailure(s, ca, request, BadMessageCheck, w.nonce);
      case Admitted(job) => r := Enrol(st, s, pool, job, w, c);
    }
  }

  /** The rest of `pki_operation`, from challenge validation on. */
  method Enrol(st: State, s: Services, pool: Pool, job: Job, w: World, c: Calls) returns (r: Result<bytes>)
    requires w.Valid()
    modifies pool
    ensures r == AdmittedReply(st, s, job, w)
    ensures pool.tables == AdmittedTables(st, s, job, w, old(pool.tables), c)
  {
    var verdict := Challenge.Validate(job.rt.validator, job.Input(), w.verdict);
    if verdict.Err? {
      Record(pool, job, FAILED, w.recordedAt, c);
      r := SendFailure(s, job.ca, job.request, BadRequestInfo, w.nonce);
      return;
    }
    var serial := RandomSerial(w.serialRandom);
    var i := Issuance(job.ca, job.csr, OptionsFor(st, job.rt), serial, w.now);
    var issued := Issue(s, i);
    if issued.None? {
      r := SendFailure(s, job.ca, job.request, BadRequestInfo, w.nonce);
      return;
    }
    var issuedDer := ToDer(CertificateToAny(issued.value));
    if issuedDer.Err? { return Err(issuedDer.error); }
    var _ := Persist(pool, s, job, i, issued.value, w.insertedAt, w.recordedAt, c);
    r := SendSuccess(s, job.ca, job.request, issued.value, w.envelope, w.nonce);
  }

  method SendFailure(s: Services, ca: CertificateAuthority, request: ParsedRequest, fail: FailInfo, nonce: bytes)
    returns (r: Result<bytes>)
    ensures r == FailureReply(s, ca, request, fail, nonce)
  {
    var attrs := FailureAttrs(request.transactionId, request.senderNonce, fail, nonce);
    if attrs.Err? { return Err(attrs.error); }
    r := BuildCertRep(s.p, ca.key, ca.cert, None, attrs.value);
  }

  method SendSuccess(s: Services, ca: CertificateAuthority, request: ParsedRequest, issued: Certificate,
                     rand: Envelope.Randomness, nonce: bytes) returns (r: Result<bytes>)
    requires rand.Valid()
    ensures r == SuccessReply(s, ca, request, issued, rand, nonce)
  {
    var certsOnly := CertsOnly(issued);
    if certsOnly.Err? { return Err(certsOnly.error); }
    var envelope := Envelope.BuildFor(s.p, certsOnly.value, request.recipient, rand);
    if envelope.Err? { return Err(envelope.error); }
    var attrs := SuccessAttrs(request.transactionId, request.senderNonce, nonce);
    if attrs.Err? { return Err(attrs.error); }
    r := BuildCertRep(s.p, ca.key, ca.cert, Some(envelope.value), attrs.value);
  }
}
