/**
 CMS EnvelopedData: the reply printed by `build_for` and the request read by
 `parse` and decrypted by `open`. Printing and reading use different views: the
 printer keeps the recipient's serial uncapped, the reader applies the cap.
 */
module Envelope {
  import opened Wrappers
  import opened Der
  import opened Asn1
  import opened Primitives
  import opened BlockCipher
  import SetOf

  datatype RecipientId =
    | IssuerAndSerial(issuer: Name, serial: Serial)
    | KeyId(ski: bytes)

  datatype RecipientInfo =
    | Ktri(version: byte, rid: RecipientId, keyEncAlg: Algorithm, encKey: bytes)
    | Other(raw: Any)

  datatype EncryptedContent = EncryptedContent(contentType: Oid, alg: Algorithm, content: Option<bytes>)

  datatype EnvelopedData = EnvelopedData(
    version: byte, originator: Option<bytes>, recipients: seq<RecipientInfo>,
    encrypted: EncryptedContent, unprotected: Option<bytes>)

  /** Whom a reply is encrypted to. */
  datatype Recipient = Recipient(publicKey: bytes, issuer: Name, serial: Serial)

  /** The random octets one reply consumes. */
  datatype Randomness = Randomness(cek: bytes, iv: bytes, padding: bytes) {
    ghost predicate Valid() { |cek| == 32 && |iv| == 16 }
  }

  const CMS_V0: byte := 0

  function VersionToAny(v: byte): Any { Any(INTEGER, [v]) }

  function VersionFromAny(a: Any): Option<byte> {
    if a.tag == INTEGER && |a.value| == 1 && a.value[0] <= 5 then Some(a.value[0]) else None
  }

  // ----- printing (`OutEnvelopedData` and its parts) -----

  function RidToAny(rid: RecipientId): Any {
    match rid
    case IssuerAndSerial(issuer, serial) => Struct([NameToAny(issuer), Any(INTEGER, serial)])
    case KeyId(ski) => Any(CONTEXT_0, ski)
  }

  function RecipientToAny(r: RecipientInfo): Any {
    match r
    case Ktri(version, rid, keyEncAlg, encKey) =>
      Struct([VersionToAny(version), RidToAny(rid), AlgorithmToAny(keyEncAlg), Any(OCTET_STRING, encKey)])
    case Other(raw) => raw
  }

  function RecipientDer(r: RecipientInfo): bytes { EncodeAny(RecipientToAny(r)) }

  function EncryptedToAny(e: EncryptedContent): Any {
    Struct([Any(OID, e.contentType), AlgorithmToAny(e.alg)] + EncodeOptional(CONTEXT_0, e.content))
  }

  function OutRecipient(r: Recipient, encKey: bytes): RecipientInfo {
    Ktri(CMS_V0, IssuerAndSerial(r.issuer, r.serial), Algorithm(RSA_ENCRYPTION, Some(Any(NULL, []))), encKey)
  }

  function OutEncrypted(iv: bytes, ciphertext: bytes): EncryptedContent {
    EncryptedContent(ID_DATA, Algorithm(ID_AES_256_CBC, Some(Any(OCTET_STRING, iv))), Some(ciphertext))
  }

  function OutEnveloped(recipients: seq<Any>, encrypted: EncryptedContent): Any {
    Struct([VersionToAny(CMS_V0), Any(SET, EncodeAll(recipients)), EncryptedToAny(encrypted)])
  }

  /** The `pkcsPKIEnvelope` for `plaintext`: AES-256-CBC under a fresh key wrapped to the recipient. */
  function EnvelopeFor(p: Primitives, plaintext: bytes, r: Recipient, rand: Randomness): Result<bytes>
    requires rand.Valid()
  {
    var ciphertext := CbcEncrypt(p, Aes256, rand.cek, rand.iv, Pad(plaintext, 16));
    var encKey :- p.wrap(r.publicKey, rand.cek, rand.padding).OkOr(CryptoError);
    ToDer(ContentInfoToAny(ID_ENVELOPED_DATA,
            OutEnveloped([RecipientToAny(OutRecipient(r, encKey))], OutEncrypted(rand.iv, ciphertext))))
  }

  /** Fills a buffer from the random source. */
  method FillBytes(buffer: array<byte>, source: bytes)
    requires buffer.Length == |source|
    modifies buffer
    ensures buffer[..] == source
  {
    forall i | 0 <= i < buffer.Length {
      buffer[i] := source[i];
    }
  }

  /** `build_for`. */
  method BuildFor(p: Primitives, plaintext: bytes, recipient: Recipient, rand: Randomness)
    returns (r: Result<bytes>)
    requires rand.Valid()
    ensures r == EnvelopeFor(p, plaintext, recipient, rand)
  {
    var cek, iv := new byte[32], new byte[16];
    FillBytes(cek, rand.cek);
    FillBytes(iv, rand.iv);
    var ciphertext := CbcEncrypt(p, Aes256, cek[..], iv[..], Pad(plaintext, 16));
    var wrapped := p.wrap(recipient.publicKey, cek[..], rand.padding);
    if wrapped.None? { return Err(CryptoError); }
    var ktri := OutRecipient(recipient, wrapped.value);
    var recipInfos: seq<Any> := [];
    var inserted := SetOf.Insert(recipInfos, RecipientToAny(ktri), EncodeAny);
    if inserted.None? { return Err(CryptoError); }
    recipInfos := inserted.value;
    assert recipInfos == [RecipientToAny(ktri)];
    var enveloped := OutEnveloped(recipInfos, OutEncrypted(iv[..], ciphertext));
    r := ToDer(ContentInfoToAny(ID_ENVELOPED_DATA, enveloped));
  }

  // ----- reading (`EnvelopedData`) -----

  /** `capped` is the strict serial type; the server reads with it, a client may not. */
  function RidFromAny(a: Any, capped: bool): Option<RecipientId> {
    if a.tag == CONTEXT_0 then Some(KeyId(a.value))
    else
      var f :- Fields(a, SEQUENCE);
      if |f| == 2 && f[0].tag == SEQUENCE && f[1].tag == INTEGER
         && CanonicalInteger(f[1].value) && (capped ==> StrictSerial(f[1].value))
      then Some(IssuerAndSerial(Name(f[0].value), f[1].value))
      else None
  }

  /** A SEQUENCE is a key-transport recipient; `[1]` to `[4]` are the other kinds. */
  function RecipientFromAny(a: Any, capped: bool): Option<RecipientInfo> {
    if 0xA1 <= a.tag <= 0xA4 then Some(Other(a))
    else
      var f :- Fields(a, SEQUENCE);
      if |f| != 4 || f[3].tag != OCTET_STRING then None
      else
        var version :- VersionFromAny(f[0]);
        var rid :- RidFromAny(f[1], capped);
        var alg :- AlgorithmFromAny(f[2]);
        Some(Ktri(version, rid, alg, f[3].value))
  }

  function RecipientsFromAnys(anys: seq<Any>, capped: bool): Option<seq<RecipientInfo>> {
    if anys == [] then Some([])
    else
      var r :- RecipientFromAny(anys[0], capped);
      var rest :- RecipientsFromAnys(anys[1..], capped);
      Some([r] + rest)
  }

  function EncryptedFromAny(a: Any): Option<EncryptedContent> {
    var f :- Fields(a, SEQUENCE);
    if |f| < 2 || f[0].tag != OID || !ValidOid(f[0].value) then None
    else
      var alg :- AlgorithmFromAny(f[1]);
      var (content, rest) := TakeOptional(f[2..], CONTEXT_0);
      if rest == [] then Some(EncryptedContent(f[0].value, alg, content)) else None
  }

  function EnvelopedFromAny(a: Any, capped: bool): Option<EnvelopedData> {
    var f :- Fields(a, SEQUENCE);
    if f == [] then None
    else
      var version :- VersionFromAny(f[0]);
      var (originator, g) := TakeOptional(f[1..], CONTEXT_0_CONSTRUCTED);
      if |g| < 2 then None
      else
        var anys :- Fields(g[0], SET);
        var infos :- RecipientsFromAnys(anys, capped);
        var recipients :- SetOf.FromSeq(infos, RecipientDer);
        var encrypted :- EncryptedFromAny(g[1]);
        var (unprotected, rest) := TakeOptional(g[2..], CONTEXT_1_CONSTRUCTED);
        if rest == [] then Some(EnvelopedData(version, originator, recipients, encrypted, unprotected)) else None
  }

  /** A ContentInfo of type envelopedData, or a bare EnvelopedData. */
  function ParseAs(der: bytes, capped: bool): Result<EnvelopedData> {
    var a := DecodeOnly(der);
    if a.None? then Err(CryptoError)
    else
      var ci := ContentInfoFromAny(a.value);
      if ci.Some? && ci.value.0 == ID_ENVELOPED_DATA then EnvelopedFromAny(ci.value.1, capped).OkOr(CryptoError)
      else EnvelopedFromAny(a.value, capped).OkOr(CryptoError)
  }

  /** `parse`, with the strict serial type. */
  function Parse(der: bytes): Result<EnvelopedData> { ParseAs(der, true) }

  // ----- decryption -----

  function CipherOf(oid: Oid): Option<Cipher> {
    if oid == ID_AES_128_CBC then Some(Aes128)
    else if oid == ID_AES_192_CBC then Some(Aes192)
    else if oid == ID_AES_256_CBC then Some(Aes256)
    else if oid == ID_DES_EDE3_CBC then Some(TripleDes)
    else if oid == ID_DES_CBC then Some(Des)
    else None
  }

  function ReadIv(parameters: Option<Any>): Option<bytes> {
    var a :- parameters;
    if a.tag == OCTET_STRING then Some(a.value) else None
  }

  /** Does this key-transport recipient name the CA certificate? */
  predicate Matches(rid: RecipientId, ca: Certificate) {
    match rid
    case IssuerAndSerial(issuer, serial) => issuer == ca.issuer && serial == ca.serial
    case KeyId(ski) => SubjectKeyIdentifier(ca) == Some(ski)
  }

  function KeyTransport(infos: seq<RecipientInfo>): (r: seq<RecipientInfo>)
    ensures forall i :: 0 <= i < |r| ==> r[i].Ktri?
  {
    if infos == [] then []
    else (if infos[0].Ktri? then [infos[0]] else []) + KeyTransport(infos[1..])
  }

  function FirstMatch(ktris: seq<RecipientInfo>, ca: Certificate): (r: Option<RecipientInfo>)
    requires forall i :: 0 <= i < |ktris| ==> ktris[i].Ktri?
    ensures r.Some? ==> r.value.Ktri?
  {
    if ktris == [] then None
    else if Matches(ktris[0].rid, ca) then Some(ktris[0])
    else FirstMatch(ktris[1..], ca)
  }

  /** `select_recipient`: the first that names the CA, else a lone one. */
  function SelectRecipient(infos: seq<RecipientInfo>, ca: Certificate): (r: Option<RecipientInfo>)
    ensures r.Some? ==> r.value.Ktri?
  {
    var ktris := KeyTransport(infos);
    var named := FirstMatch(ktris, ca);
    if named.Some? then named
    else if |ktris| == 1 then Some(ktris[0])
    else None
  }

  function SyntheticCek(p: Primitives, caKey: bytes, encKey: bytes, keyLen: nat): bytes {
    var mac := p.keyedHash(caKey, encKey);
    if keyLen <= |mac| then mac[..keyLen] else mac
  }

  /** RSA unwrap with implicit rejection. */
  function UnwrapCek(p: Primitives, caKey: bytes, encKey: bytes, keyLen: nat): bytes {
    var cek := p.unwrap(caKey, encKey);
    if cek.Some? && |cek.value| == keyLen then cek.value else SyntheticCek(p, caKey, encKey, keyLen)
  }

  function DecryptSymmetric(p: Primitives, c: Cipher, key: bytes, iv: bytes, ciphertext: bytes): Result<bytes> {
    if |key| != c.KeyLen() || |iv| != c.BlockLen() then Err(CryptoError)
    else if Partial(|ciphertext|, c.BlockLen()) != 0 then Err(CryptoError)
    else Unpad(CbcDecrypt(p, c, key, iv, ciphertext), c.BlockLen()).OkOr(CryptoError)
  }

  /** `open`: every public check first, then the unwrap, then the content. */
  function Open(p: Primitives, e: EnvelopedData, ca: Certificate, caKey: bytes): Result<bytes> {
    var cipher :- CipherOf(e.encrypted.alg.oid).OkOr(CryptoError);
    var ciphertext :- e.encrypted.content.OkOr(CryptoError);
    var iv :- ReadIv(e.encrypted.alg.parameters).OkOr(CryptoError);
    var ktri :- SelectRecipient(e.recipients, ca).OkOr(CryptoError);
    var cek := UnwrapCek(p, caKey, ktri.encKey, cipher.KeyLen());
    DecryptSymmetric(p, cipher, cek, iv, ciphertext)
  }

  // ----- what any sender may use -----

  /**
   For each of the five ciphers, by its identifier, with keys and initial vectors
   of its own lengths: whatever was encrypted, under whatever key wrapped to the
   CA, is what the CA opens, given that the recipient chosen carries that key.
   */
  lemma SuiteOpens(p: Primitives, e: EnvelopedData, ca: Certificate, caKey: bytes, k: int, oid: Oid, c: Cipher,
                   key: bytes, iv: bytes, rand: bytes, plaintext: bytes)
    requires Lawful(p)
    requires (oid, c, |key|, |iv|) in {
      (ID_AES_128_CBC, Aes128, 16, 16), (ID_AES_192_CBC, Aes192, 24, 16), (ID_AES_256_CBC, Aes256, 32, 16),
      (ID_DES_EDE3_CBC, TripleDes, 24, 8), (ID_DES_CBC, Des, 8, 8)}
    requires Chosen(e.recipients, ca, k) && p.wrap(p.publicKey(caKey), key, rand) == Some(e.recipients[k].encKey)
    requires e.encrypted.alg == Algorithm(oid, Some(Any(OCTET_STRING, iv)))
    requires e.encrypted.content == Some(CbcEncrypt(p, c, key, iv, Pad(plaintext, |iv|)))
    ensures Open(p, e, ca, caKey) == Ok(plaintext)
  {
    SuiteIs(oid, c, |key|, |iv|);
    ChosenIsSelected(e.recipients, ca, k);
    assert p.unwrap(caKey, e.recipients[k].encKey) == Some(key);
    PadRoundTrip(plaintext, |iv|);
    CbcRoundTrip(p, c, key, iv, Pad(plaintext, |iv|));
  }

  lemma SuiteIs(oid: Oid, c: Cipher, keyLen: nat, ivLen: nat)
    requires (oid, c, keyLen, ivLen) in {
      (ID_AES_128_CBC, Aes128, 16, 16), (ID_AES_192_CBC, Aes192, 24, 16), (ID_AES_256_CBC, Aes256, 32, 16),
      (ID_DES_EDE3_CBC, TripleDes, 24, 8), (ID_DES_CBC, Des, 8, 8)}
    ensures CipherOf(oid) == Some(c) && c.KeyLen() == keyLen && c.BlockLen() == ivLen
  {
    CipherOidsDiffer();
  }

  lemma CipherOidsDiffer()
    ensures |ID_AES_128_CBC| == |ID_AES_192_CBC| == |ID_AES_256_CBC| == 9 && |ID_DES_EDE3_CBC| == 8 && |ID_DES_CBC| == 5
    ensures ID_AES_128_CBC[8] == 0x02 && ID_AES_192_CBC[8] == 0x16 && ID_AES_256_CBC[8] == 0x2A
  {
  }

  /**
   With any other cipher, without content, or without an OCTET STRING as its
   parameters an envelope does not open; and every failure is the same error.
   */
  lemma OthersAreRefused(p: Primitives, e: EnvelopedData, ca: Certificate, caKey: bytes)
    requires
      || e.encrypted.alg.oid !in {ID_AES_128_CBC, ID_AES_192_CBC, ID_AES_256_CBC, ID_DES_EDE3_CBC, ID_DES_CBC}
      || e.encrypted.content == None || e.encrypted.alg.parameters == None
      || e.encrypted.alg.parameters.value.tag != 0x04
    ensures Open(p, e, ca, caKey) == Err(CryptoError)
  {
  }

  lemma OpenErrors(p: Primitives, e: EnvelopedData, ca: Certificate, caKey: bytes)
    ensures Open(p, e, ca, caKey).Err? ==> Open(p, e, ca, caKey).error == CryptoError
  {
  }

  lemma ChosenIsSelected(infos: seq<RecipientInfo>, ca: Certificate, k: int)
    requires Chosen(infos, ca, k)
    ensures SelectRecipient(infos, ca) == Some(infos[k])
  {
    SelectionIsChosen(infos, ca);
    var j :| Chosen(infos, ca, j) && infos[j] == SelectRecipient(infos, ca).value;
    ChosenUnique(infos, ca, j, k);
  }

  // ----- the envelope round trip -----

  /** Does the cap, if there is one, refuse the recipient? */
  predicate OverCap(rid: RecipientId, capped: bool) { capped && rid.IssuerAndSerial? && !StrictSerial(rid.serial) }

  lemma RidRoundTrip(rid: RecipientId, capped: bool)
    requires Fits(RidToAny(rid))
    ensures RidFromAny(RidToAny(rid), capped) == if OverCap(rid, capped) then None else Some(rid)
  {
    if rid.IssuerAndSerial? {
      FieldsOfStruct(SEQUENCE, [NameToAny(rid.issuer), Any(INTEGER, rid.serial)]);
    }
  }

  lemma RecipientRoundTrip(r: RecipientInfo, capped: bool)
    requires r.Ktri? && r.version <= 5 && Fits(RecipientToAny(r))
    ensures RecipientFromAny(RecipientToAny(r), capped) == if OverCap(r.rid, capped) then None else Some(r)
  {
    var f := [VersionToAny(r.version), RidToAny(r.rid), AlgorithmToAny(r.keyEncAlg), Any(OCTET_STRING, r.encKey)];
    FieldsOfStruct(SEQUENCE, f);
    assert Fits(f[1]) && Fits(f[2]);
    AlgorithmRoundTrip(r.keyEncAlg);
    RidRoundTrip(r.rid, capped);
  }

  lemma EncryptedRoundTrip(e: EncryptedContent)
    requires Fits(EncryptedToAny(e))
    ensures EncryptedFromAny(EncryptedToAny(e)) == Some(e)
  {
    var head := [Any(OID, e.contentType), AlgorithmToAny(e.alg)];
    var f := head + EncodeOptional(CONTEXT_0, e.content);
    FieldsOfStruct(SEQUENCE, f);
    assert Fits(f[1]);
    AlgorithmRoundTrip(e.alg);
    OptionalRoundTrip(CONTEXT_0, e.content, []);
    assert f[2..] == EncodeOptional(CONTEXT_0, e.content) + [];
  }

  /** A one-element recipient set read back: refused exactly when the serial is over the cap. */
  lemma LoneSetRoundTrip(r: RecipientInfo, capped: bool)
    requires r.Ktri? && r.version <= 5
    requires Fits(Any(SET, EncodeAll([RecipientToAny(r)])))
    ensures Fields(Any(SET, EncodeAll([RecipientToAny(r)])), SET) == Some([RecipientToAny(r)])
    ensures RecipientsFromAnys([RecipientToAny(r)], capped) == if OverCap(r.rid, capped) then None else Some([r])
    ensures SetOf.FromSeq([r], RecipientDer) == Some([r])
  {
    var infos := [RecipientToAny(r)];
    FieldsOfStruct(SET, infos);
    assert Fits(infos[0]);
    RecipientRoundTrip(r, capped);
    assert RecipientsFromAnys(infos[1..], capped) == Some([]);
    SetOf.OrderedFixed([r], RecipientDer);
  }

  /** The reader's view of a printed reply: refused exactly when the serial is over the cap. */
  lemma OutEnvelopedRoundTrip(r: RecipientInfo, e: EncryptedContent, capped: bool)
    requires r.Ktri? && r.version <= 5
    requires Fits(OutEnveloped([RecipientToAny(r)], e))
    ensures EnvelopedFromAny(OutEnveloped([RecipientToAny(r)], e), capped) ==
      if OverCap(r.rid, capped) then None
      else Some(EnvelopedData(CMS_V0, None, [r], e, None))
  {
    var f := OutFields(RecipientToAny(r), e);
    LoneSetRoundTrip(r, capped);
    EncryptedRoundTrip(e);
    assert f[1..] == [f[1], f[2]];
    assert f[1..][2..] == [];
  }

  lemma OutFields(recipient: Any, e: EncryptedContent) returns (f: seq<Any>)
    requires Fits(OutEnveloped([recipient], e))
    ensures f == [VersionToAny(CMS_V0), Any(SET, EncodeAll([recipient])), EncryptedToAny(e)]
    ensures Fields(OutEnveloped([recipient], e), SEQUENCE) == Some(f)
    ensures Fits(f[1]) && Fits(f[2])
  {
    f := [VersionToAny(CMS_V0), Any(SET, EncodeAll([recipient])), EncryptedToAny(e)];
    FieldsOfStruct(SEQUENCE, f);
    assert Fits(f[1]) && Fits(f[2]);
  }

  /** What `parse` makes of a printed ContentInfo. */
  lemma ParsePrinted(content: Any, capped: bool)
    requires Fits(ContentInfoToAny(ID_ENVELOPED_DATA, content))
    ensures ParseAs(EncodeAny(ContentInfoToAny(ID_ENVELOPED_DATA, content)), capped) ==
      EnvelopedFromAny(content, capped).OkOr(CryptoError)
  {
    OnlyRoundTrip(ContentInfoToAny(ID_ENVELOPED_DATA, content));
    ContentInfoRoundTrip(ID_ENVELOPED_DATA, content);
  }

  lemma DecryptRoundTrip(p: Primitives, plaintext: bytes, rand: Randomness)
    requires Lawful(p) && rand.Valid()
    ensures DecryptSymmetric(p, Aes256, rand.cek, rand.iv,
              CbcEncrypt(p, Aes256, rand.cek, rand.iv, Pad(plaintext, 16))) == Ok(plaintext)
  {
    PadRoundTrip(plaintext, 16);
    CbcRoundTrip(p, Aes256, rand.cek, rand.iv, Pad(plaintext, 16));
  }

  /** Opening an envelope of the printed shape is decryption under the wrapped key. */
  lemma OpenPrinted(p: Primitives, r: Recipient, rand: Randomness, ciphertext: bytes, key: bytes, cert: Certificate)
    requires Lawful(p) && rand.Valid()
    requires r.publicKey == p.publicKey(key)
    requires p.wrap(r.publicKey, rand.cek, rand.padding).Some?
    ensures var ktri := OutRecipient(r, p.wrap(r.publicKey, rand.cek, rand.padding).value);
      Open(p, EnvelopedData(CMS_V0, None, [ktri], OutEncrypted(rand.iv, ciphertext), None), cert, key)
      == DecryptSymmetric(p, Aes256, rand.cek, rand.iv, ciphertext)
  {
    var encKey := p.wrap(r.publicKey, rand.cek, rand.padding).value;
    LoneRecipient(OutRecipient(r, encKey), cert);
    assert p.unwrap(key, encKey) == Some(rand.cek);
    CipherOids();
  }

  /** What a reader without the cap sees in the envelope for a recipient. */
  function Printed(p: Primitives, plaintext: bytes, r: Recipient, rand: Randomness, encKey: bytes): EnvelopedData
    requires rand.Valid()
  {
    EnvelopedData(CMS_V0, None, [OutRecipient(r, encKey)],
                  OutEncrypted(rand.iv, CbcEncrypt(p, Aes256, rand.cek, rand.iv, Pad(plaintext, 16))), None)
  }

  function EnvelopeToAny(p: Primitives, plaintext: bytes, r: Recipient, rand: Randomness, encKey: bytes): Any
    requires rand.Valid()
  {
    var ciphertext := CbcEncrypt(p, Aes256, rand.cek, rand.iv, Pad(plaintext, 16));
    ContentInfoToAny(ID_ENVELOPED_DATA,
                     OutEnveloped([RecipientToAny(OutRecipient(r, encKey))], OutEncrypted(rand.iv, ciphertext)))
  }

  /** Printing fails exactly when the key wrap fails or the message is longer than lengths reach. */
  lemma EnvelopeFailsExactly(p: Primitives, plaintext: bytes, r: Recipient, rand: Randomness)
    requires rand.Valid()
    ensures EnvelopeFor(p, plaintext, r, rand).Ok? <==>
      match p.wrap(r.publicKey, rand.cek, rand.padding)
      case None => false
      case Some(encKey) => |EncodeAny(EnvelopeToAny(p, plaintext, r, rand, encKey))| <= MAX_LEN
    ensures EnvelopeFor(p, plaintext, r, rand).Err? ==> EnvelopeFor(p, plaintext, r, rand).error == CryptoError
  {
  }

  /** Whatever is enveloped for whom: a reader with the cap accepts it exactly within the cap, one without always. */
  lemma EnvelopeParses(p: Primitives, plaintext: bytes, r: Recipient, rand: Randomness, der: bytes, capped: bool)
    returns (encKey: bytes)
    requires rand.Valid()
    requires EnvelopeFor(p, plaintext, r, rand) == Ok(der)
    ensures p.wrap(r.publicKey, rand.cek, rand.padding) == Some(encKey)
    ensures ParseAs(der, capped) ==
      if capped && !StrictSerial(r.serial) then Err(CryptoError) else Ok(Printed(p, plaintext, r, rand, encKey))
  {
    encKey := p.wrap(r.publicKey, rand.cek, rand.padding).value;
    var ktri := OutRecipient(r, encKey);
    var encrypted := OutEncrypted(rand.iv, CbcEncrypt(p, Aes256, rand.cek, rand.iv, Pad(plaintext, 16)));
    var content := OutEnveloped([RecipientToAny(ktri)], encrypted);
    FitsOfToDer(ContentInfoToAny(ID_ENVELOPED_DATA, content));
    ParsePrinted(content, capped);
    ContentInfoRoundTrip(ID_ENVELOPED_DATA, content);
    OutEnvelopedRoundTrip(ktri, encrypted, capped);
  }

  /** What was printed for a key opens with it, under any certificate. */
  lemma PrintedOpens(p: Primitives, plaintext: bytes, r: Recipient, rand: Randomness, encKey: bytes, key: bytes,
                     cert: Certificate)
    requires Lawful(p) && rand.Valid() && r.publicKey == p.publicKey(key)
    requires p.wrap(r.publicKey, rand.cek, rand.padding) == Some(encKey)
    ensures Open(p, Printed(p, plaintext, r, rand, encKey), cert, key) == Ok(plaintext)
  {
    OpenPrinted(p, r, rand, CbcEncrypt(p, Aes256, rand.cek, rand.iv, Pad(plaintext, 16)), key, cert);
    DecryptRoundTrip(p, plaintext, rand);
  }

  /**
   Whatever the plaintext, key, initial vector and recipient within the cap: the
   holder of the private key recovers the plaintext, under any certificate.
   */
  lemma EnvelopeRoundTrip(p: Primitives, plaintext: bytes, r: Recipient, rand: Randomness, der: bytes,
                          key: bytes, cert: Certificate)
    requires Lawful(p) && rand.Valid()
    requires r.publicKey == p.publicKey(key) && StrictSerial(r.serial)
    requires EnvelopeFor(p, plaintext, r, rand) == Ok(der)
    ensures Parse(der).Ok? && Open(p, Parse(der).value, cert, key) == Ok(plaintext)
  {
    var encKey := EnvelopeParses(p, plaintext, r, rand, der, true);
    PrintedOpens(p, plaintext, r, rand, encKey, key, cert);
  }

  /**
   What the uncapped printer is for: a client that reads without the cap finds
   its serial exactly as sent and recovers the plaintext, for every recipient.
   */
  lemma UncappedRoundTrip(p: Primitives, plaintext: bytes, r: Recipient, rand: Randomness, der: bytes,
                          key: bytes, cert: Certificate) returns (e: EnvelopedData)
    requires Lawful(p) && rand.Valid() && r.publicKey == p.publicKey(key)
    requires EnvelopeFor(p, plaintext, r, rand) == Ok(der)
    ensures ParseAs(der, false) == Ok(e) && Open(p, e, cert, key) == Ok(plaintext)
    ensures |e.recipients| == 1 && e.recipients[0].Ktri? && e.recipients[0].rid == IssuerAndSerial(r.issuer, r.serial)
  {
    var encKey := EnvelopeParses(p, plaintext, r, rand, der, false);
    PrintedOpens(p, plaintext, r, rand, encKey, key, cert);
    e := Printed(p, plaintext, r, rand, encKey);
  }

  /** The parser takes back what was printed exactly for serials of at most 20 octets. */
  lemma CapIsTwenty(p: Primitives, plaintext: bytes, r: Recipient, rand: Randomness, der: bytes)
    requires rand.Valid() && EnvelopeFor(p, plaintext, r, rand) == Ok(der)
    ensures Parse(der).Ok? <==> |r.serial| <= 20
  {
    var encKey := EnvelopeParses(p, plaintext, r, rand, der, true);
  }

  /**
   The cap is real: a recipient whose serial has 40 octets, as a hexadecimal
   transaction ID has, gets an envelope the parser refuses, under lawful primitives.
   */
  lemma LongSerialIsRefused() returns (p: Primitives, r: Recipient, rand: Randomness, der: bytes)
    ensures Lawful(p) && rand.Valid() && |r.serial| == 40
    ensures EnvelopeFor(p, [], r, rand) == Ok(der) && Parse(der).Err?
  {
    p := LawfulExists();
    r := Recipient([], Name([]), seq(40, i => 1));
    rand := Randomness(seq(32, i => 0), seq(16, i => 0), []);
    EnvelopeFits(p, [], r, rand, rand.cek, 100);
    der := EncodeAny(EnvelopeToAny(p, [], r, rand, rand.cek));
    CapIsTwenty(p, [], r, rand, der);
  }

  // ----- sizes -----

  lemma RecipientSize(r: Recipient, encKey: bytes, n: nat)
    requires n >= 100 && |r.issuer.rdns| <= n && |r.serial| <= n && |encKey| <= n
    ensures |RecipientToAny(OutRecipient(r, encKey)).value| <= 8 * n + 72
  {
    var alg := [Any(OID, RSA_ENCRYPTION), Any(NULL, [])];
    StructSize([NameToAny(r.issuer), Any(INTEGER, r.serial)], n);
    StructSize(alg, 9);
    assert AlgorithmToAny(Algorithm(RSA_ENCRYPTION, Some(Any(NULL, [])))).value == EncodeAll(alg);
    var rid := IssuerAndSerial(r.issuer, r.serial);
    StructSize([VersionToAny(CMS_V0), RidToAny(rid), AlgorithmToAny(Algorithm(RSA_ENCRYPTION, Some(Any(NULL, [])))),
                Any(OCTET_STRING, encKey)], 2 * n + 12);
  }

  lemma EncryptedSize(iv: bytes, ciphertext: bytes, n: nat)
    requires n >= 100 && |iv| == 16 && |ciphertext| <= n + 16
    ensures |EncryptedToAny(OutEncrypted(iv, ciphertext)).value| <= 3 * n + 150
  {
    var alg := [Any(OID, ID_AES_256_CBC), Any(OCTET_STRING, iv)];
    StructSize(alg, 16);
    var e := OutEncrypted(iv, ciphertext);
    assert AlgorithmToAny(e.alg).value == EncodeAll(alg);
    StructSize([Any(OID, e.contentType), AlgorithmToAny(e.alg)] + EncodeOptional(CONTEXT_0, e.content), n + 44);
  }

  lemma EnvelopedSize(recipient: Any, e: EncryptedContent, n: nat)
    requires n >= 100 && |recipient.value| <= 8 * n + 72 && |EncryptedToAny(e).value| <= 3 * n + 150
    ensures |EncodeAny(OutEnveloped([recipient], e))| <= 24 * n + 258
  {
    StructSize([recipient], 8 * n + 72);
    AnySize(OutEnveloped([recipient], e));
    StructSize([VersionToAny(CMS_V0), Any(SET, EncodeAll([recipient])), EncryptedToAny(e)], 8 * n + 78);
  }

  lemma CiphertextSize(p: Primitives, plaintext: bytes, rand: Randomness)
    requires Lawful(p) && rand.Valid()
    ensures |CbcEncrypt(p, Aes256, rand.cek, rand.iv, Pad(plaintext, 16))| <= |plaintext| + 16
  {
    PadRoundTrip(plaintext, 16);
    CbcRoundTrip(p, Aes256, rand.cek, rand.iv, Pad(plaintext, 16));
  }

  /** An envelope of parts of at most `n` octets has at most 60 `n`. */
  lemma EnvelopeFits(p: Primitives, plaintext: bytes, r: Recipient, rand: Randomness, encKey: bytes, n: nat)
    requires Lawful(p) && rand.Valid()
    requires n >= 100 && |plaintext| <= n && |r.issuer.rdns| <= n && |r.serial| <= n && |encKey| <= n
    ensures |EncodeAny(EnvelopeToAny(p, plaintext, r, rand, encKey))| <= 60 * n
  {
    var ciphertext := CbcEncrypt(p, Aes256, rand.cek, rand.iv, Pad(plaintext, 16));
    CiphertextSize(p, plaintext, rand);
    var content := OutEnveloped([RecipientToAny(OutRecipient(r, encKey))], OutEncrypted(rand.iv, ciphertext));
    RecipientSize(r, encKey, n);
    EncryptedSize(rand.iv, ciphertext, n);
    EnvelopedSize(RecipientToAny(OutRecipient(r, encKey)), OutEncrypted(rand.iv, ciphertext), n);
    StructSize([Any(OID, ID_ENVELOPED_DATA), Any(CONTEXT_0_CONSTRUCTED, EncodeAny(content))], 24 * n + 258);
    AnySize(ContentInfoToAny(ID_ENVELOPED_DATA, content));
  }

  lemma LoneRecipient(r: RecipientInfo, cert: Certificate)
    requires r.Ktri?
    ensures SelectRecipient([r], cert) == Some(r)
  {
    assert KeyTransport([r]) == [r] + KeyTransport([r][1..]) == [r];
    assert FirstMatch([r][1..], cert) == None;
  }

  lemma CipherOids()
    ensures CipherOf(ID_AES_256_CBC) == Some(Aes256)
  {
    assert ID_AES_256_CBC[8] != ID_AES_128_CBC[8] && ID_AES_256_CBC[8] != ID_AES_192_CBC[8];
  }

  // ----- recipient choice -----

  /**
   A recipient names the CA when it gives the CA's own issuer and serial, or the
   key identifier in the one such extension of the CA's certificate.
   */
  lemma MatchesExactly(rid: RecipientId, ca: Certificate, xs: seq<Extension>)
    requires ca.extensions == Some(EncodeAny(Struct(ExtensionAnys(xs)))) && Fits(Struct(ExtensionAnys(xs)))
    ensures Matches(rid, ca) <==>
      match rid
      case IssuerAndSerial(issuer, serial) => issuer == ca.issuer && serial == ca.serial
      case KeyId(ski) => KeyIdentifierValues(xs) == [EncodeAny(Any(0x04, ski))]
  {
    if rid.KeyId? { SubjectKeyIdentifierExactly(ca, xs, rid.ski); }
  }

  /** The public part of a recipient: its kind and, for key transport, its identifier. */
  predicate SamePublic(a: RecipientInfo, b: RecipientInfo) {
    (a.Other? && b.Other?) || (a.Ktri? && b.Ktri? && a.rid == b.rid)
  }

  /** The position `SelectRecipient` chose, named by public data alone. */
  ghost predicate Chosen(infos: seq<RecipientInfo>, ca: Certificate, k: int) {
    && 0 <= k < |infos| && infos[k].Ktri?
    && ((Matches(infos[k].rid, ca)
         && forall i :: 0 <= i < k && infos[i].Ktri? ==> !Matches(infos[i].rid, ca))
        || (forall i :: 0 <= i < |infos| && infos[i].Ktri? ==> i == k))
  }

  lemma {:induction false} KeyTransportEmpty(infos: seq<RecipientInfo>)
    ensures KeyTransport(infos) == [] <==> forall i :: 0 <= i < |infos| ==> !infos[i].Ktri?
  {
    if infos != [] {
      KeyTransportEmpty(infos[1..]);
      assert forall i :: 1 <= i < |infos| ==> infos[i] == infos[1..][i - 1];
    }
  }

  lemma {:induction false} KeyTransportLone(infos: seq<RecipientInfo>) returns (k: nat)
    requires |KeyTransport(infos)| == 1
    ensures k < |infos| && infos[k] == KeyTransport(infos)[0]
    ensures forall i :: 0 <= i < |infos| && infos[i].Ktri? ==> i == k
  {
    assert forall i :: 1 <= i < |infos| ==> infos[i] == infos[1..][i - 1];
    if infos[0].Ktri? {
      KeyTransportEmpty(infos[1..]);
      k := 0;
    } else {
      k := KeyTransportLone(infos[1..]);
      k := k + 1;
    }
  }

  /** Is position `k` the first key-transport recipient that names the CA? */
  ghost predicate FirstNamed(infos: seq<RecipientInfo>, ca: Certificate, k: int) {
    && 0 <= k < |infos| && infos[k].Ktri? && Matches(infos[k].rid, ca)
    && forall i :: 0 <= i < k && infos[i].Ktri? ==> !Matches(infos[i].rid, ca)
  }

  lemma {:induction false} FirstMatchIndex(infos: seq<RecipientInfo>, ca: Certificate) returns (k: int)
    ensures FirstMatch(KeyTransport(infos), ca).None? ==>
      forall i :: 0 <= i < |infos| && infos[i].Ktri? ==> !Matches(infos[i].rid, ca)
    ensures FirstMatch(KeyTransport(infos), ca).Some? ==>
      FirstNamed(infos, ca, k) && infos[k] == FirstMatch(KeyTransport(infos), ca).value
  {
    if infos == [] {
      k := -1;
    } else if infos[0].Ktri? && Matches(infos[0].rid, ca) {
      k := 0;
    } else {
      MatchInTail(infos, ca);
      var j := FirstMatchIndex(infos[1..], ca);
      assert forall i :: 1 <= i < |infos| ==> infos[i] == infos[1..][i - 1];
      k := j + 1;
    }
  }

  lemma MatchInTail(infos: seq<RecipientInfo>, ca: Certificate)
    requires infos != [] && !(infos[0].Ktri? && Matches(infos[0].rid, ca))
    ensures FirstMatch(KeyTransport(infos), ca) == FirstMatch(KeyTransport(infos[1..]), ca)
  {
    if infos[0].Ktri? {
      assert KeyTransport(infos)[1..] == KeyTransport(infos[1..]);
    } else {
      assert KeyTransport(infos) == KeyTransport(infos[1..]);
    }
  }

  /** Selection succeeds exactly when some recipient is chosen by its public part, and returns that one. */
  lemma SelectionIsChosen(infos: seq<RecipientInfo>, ca: Certificate)
    ensures SelectRecipient(infos, ca).Some? <==> exists k :: Chosen(infos, ca, k)
    ensures SelectRecipient(infos, ca).Some? ==>
      exists k :: Chosen(infos, ca, k) && infos[k] == SelectRecipient(infos, ca).value
  {
    var k := FirstMatchIndex(infos, ca);
    var ktris := KeyTransport(infos);
    if FirstMatch(ktris, ca).Some? {
      assert Chosen(infos, ca, k);
    } else if |ktris| == 1 {
      k := KeyTransportLone(infos);
      assert Chosen(infos, ca, k);
    } else if j :| Chosen(infos, ca, j) {
      LoneKeyTransport(infos, j);
    }
  }

  lemma {:induction false} LoneKeyTransport(infos: seq<RecipientInfo>, k: nat)
    requires k < |infos| && infos[k].Ktri?
    requires forall i :: 0 <= i < |infos| && infos[i].Ktri? ==> i == k
    ensures KeyTransport(infos) == [infos[k]]
  {
    assert forall i :: 1 <= i < |infos| ==> infos[i] == infos[1..][i - 1];
    if k == 0 {
      KeyTransportEmpty(infos[1..]);
    } else {
      LoneKeyTransport(infos[1..], k - 1);
    }
  }

  /** The position is a function of public identifiers: the wrapped keys never steer it. */
  lemma ChoiceIgnoresWrappedKeys(a: seq<RecipientInfo>, b: seq<RecipientInfo>, ca: Certificate)
    requires |a| == |b| && forall i :: 0 <= i < |a| ==> SamePublic(a[i], b[i])
    ensures forall k :: Chosen(a, ca, k) <==> Chosen(b, ca, k)
    ensures SelectRecipient(a, ca).Some? <==> SelectRecipient(b, ca).Some?
    ensures SelectRecipient(a, ca).Some? ==>
      exists k :: Chosen(a, ca, k) && a[k] == SelectRecipient(a, ca).value && b[k] == SelectRecipient(b, ca).value
  {
    forall k ensures Chosen(a, ca, k) <==> Chosen(b, ca, k) {
      if 0 <= k < |a| { assert SamePublic(a[k], b[k]); }
    }
    SelectionIsChosen(a, ca);
    SelectionIsChosen(b, ca);
    if SelectRecipient(a, ca).Some? {
      var k :| Chosen(a, ca, k) && a[k] == SelectRecipient(a, ca).value;
      var j :| Chosen(b, ca, j) && b[j] == SelectRecipient(b, ca).value;
      ChosenUnique(a, ca, k, j);
    }
  }

  lemma ChosenUnique(infos: seq<RecipientInfo>, ca: Certificate, j: int, k: int)
    requires Chosen(infos, ca, j) && Chosen(infos, ca, k)
    ensures j == k
  {
  }

  // ----- implicit rejection -----

  /** Every check that depends only on public data, including the lengths the cipher demands. */
  ghost predicate PublicChecksPass(e: EnvelopedData, ca: Certificate) {
    && CipherOf(e.encrypted.alg.oid).Some?
    && e.encrypted.content.Some?
    && ReadIv(e.encrypted.alg.parameters).Some?
    && |ReadIv(e.encrypted.alg.parameters).value| == CipherOf(e.encrypted.alg.oid).value.BlockLen()
    && (exists k :: Chosen(e.recipients, ca, k))
  }

  /** For every wrapped key and cipher the unwrap yields a key of exactly the cipher's length. */
  lemma UnwrapAlwaysYieldsAKey(p: Primitives, caKey: bytes, encKey: bytes, c: Cipher)
    requires Lawful(p)
    ensures |UnwrapCek(p, caKey, encKey, c.KeyLen())| == c.KeyLen()
  {
    assert |p.keyedHash(caKey, encKey)| == 32;
  }

  /**
   `open` fails for a public reason, or because what the chosen recipient's key
   decrypts to is no PKCS#7 padding: never for the unwrap. The key is the
   unwrapped one when that has the cipher's length, the synthetic one otherwise.
   */
  lemma OpenFailsUniformly(p: Primitives, e: EnvelopedData, ca: Certificate, caKey: bytes) returns (k: int, key: bytes)
    requires Lawful(p)
    ensures !PublicChecksPass(e, ca) ==> Open(p, e, ca, caKey) == Err(CryptoError)
    ensures Open(p, e, ca, caKey).Err? ==> Open(p, e, ca, caKey).error == CryptoError
    ensures PublicChecksPass(e, ca) ==>
      var c := CipherOf(e.encrypted.alg.oid).value;
      var iv, text := ReadIv(e.encrypted.alg.parameters).value, e.encrypted.content.value;
      && Chosen(e.recipients, ca, k) && |key| == c.KeyLen()
      && (match p.unwrap(caKey, e.recipients[k].encKey)
          case Some(cek) => key == if |cek| == c.KeyLen() then cek
            else p.keyedHash(caKey, e.recipients[k].encKey)[..c.KeyLen()]
          case None => key == p.keyedHash(caKey, e.recipients[k].encKey)[..c.KeyLen()])
      && Open(p, e, ca, caKey) == DecryptSymmetric(p, c, key, iv, text)
      && (Open(p, e, ca, caKey).Ok? <==>
        Partial(|text|, c.BlockLen()) == 0 && Padded(CbcDecrypt(p, c, key, iv, text), c.BlockLen()))
  {
    SelectionIsChosen(e.recipients, ca);
    OpenErrors(p, e, ca, caKey);
    k, key := -1, [];
    if PublicChecksPass(e, ca) {
      var c := CipherOf(e.encrypted.alg.oid).value;
      var iv, text := ReadIv(e.encrypted.alg.parameters).value, e.encrypted.content.value;
      k :| Chosen(e.recipients, ca, k) && e.recipients[k] == SelectRecipient(e.recipients, ca).value;
      key := UnwrapCek(p, caKey, e.recipients[k].encKey, c.KeyLen());
      UnwrapAlwaysYieldsAKey(p, caKey, e.recipients[k].encKey, c);
      UnpadExactly(CbcDecrypt(p, c, key, iv, text), c.BlockLen());
      assert Open(p, e, ca, caKey) == DecryptSymmetric(p, c, key, iv, text);
    }
  }

  /** The text is the padding of something. */
  ghost predicate Padded(y: bytes, size: BlockSize) { exists plain :: Pad(plain, size) == y }

  lemma UnpadExactly(y: bytes, size: BlockSize)
    ensures Unpad(y, size).Some? <==> Padded(y, size)
  {
    if Unpad(y, size).Some? {
      UnpadIsPad(y, size);
    }
    if plain :| Pad(plain, size) == y {
      PadRoundTrip(plain, size);
    }
  }
}
