/** Loading CA key material (`src/ca/keystore.rs`) and the bundle the bootstrap writes (`src/app.rs`). */
module Keystore {
  import opened Wrappers
  import opened Der
  import opened Asn1
  import opened Text
  import opened Pem
  import Base64

  /** The RSA key readers of the libraries; a key stands for itself as octets. */
  datatype KeyReaders = KeyReaders(
    pkcs8: bytes -> Option<bytes>,
    pkcs1: bytes -> Option<bytes>,
    isEncrypted: bytes -> bool,
    decrypt: (bytes, string) -> Option<bytes>)

  const CERTIFICATE := "CERTIFICATE"
  const PRIVATE_KEY := "PRIVATE KEY"

  predicate Contains(text: string, part: string) {
    part <= text || (text != "" && Contains(text[1..], part))
  }

  /** `as_pem_blocks`: UTF-8 text with the marker anywhere in it is PEM. */
  function AsPemBlocks(b: bytes): Option<seq<Block>> {
    var text :- DecodeUtf8(b);
    if Contains(text, BEGIN) then Some(Blocks(Lines(text))) else None
  }

  function FirstOfKind(blocks: seq<Block>, kind: string): Option<bytes> {
    if blocks == [] then None
    else if blocks[0].kind == kind then Some(blocks[0].der)
    else FirstOfKind(blocks[1..], kind)
  }

  /** `parse_certificate` */
  function ParseCertificate(b: bytes): Result<Certificate> {
    var blocks := AsPemBlocks(b);
    if blocks.Some? then
      var der :- FirstOfKind(blocks.value, CERTIFICATE).OkOr(Config);
      StrictCertificate(der).OkOr(Config)
    else StrictCertificate(b).OkOr(Config)
  }

  function DecryptPkcs8(k: KeyReaders, der: bytes, password: Option<string>): Result<bytes> {
    var p :- password.OkOr(Config);
    if !k.isEncrypted(der) then Err(Config)
    else
      var secret :- k.decrypt(der, p).OkOr(Config);
      k.pkcs8(secret).OkOr(Config)
  }

  /** `load_key_block`: `None` for a block that is no key. */
  function LoadKeyBlock(k: KeyReaders, b: Block, password: Option<string>): Option<Result<bytes>> {
    if b.kind == PRIVATE_KEY then Some(k.pkcs8(b.der).OkOr(Config))
    else if b.kind == "RSA PRIVATE KEY" then Some(k.pkcs1(b.der).OkOr(Config))
    else if b.kind == "ENCRYPTED PRIVATE KEY" then Some(DecryptPkcs8(k, b.der, password))
    else None
  }

  function FirstKey(k: KeyReaders, blocks: seq<Block>, password: Option<string>): Result<bytes> {
    if blocks == [] then Err(Config)
    else
      var loaded := LoadKeyBlock(k, blocks[0], password);
      if loaded.Some? then loaded.value else FirstKey(k, blocks[1..], password)
  }

  function KeyFromDer(k: KeyReaders, der: bytes, password: Option<string>): Result<bytes> {
    if k.pkcs8(der).Some? then Ok(k.pkcs8(der).value)
    else if k.pkcs1(der).Some? then Ok(k.pkcs1(der).value)
    else if k.isEncrypted(der) then DecryptPkcs8(k, der, password)
    else Err(Config)
  }

  /** `parse_private_key` */
  function ParsePrivateKey(k: KeyReaders, b: bytes, password: Option<string>): Result<bytes> {
    var blocks := AsPemBlocks(b);
    if blocks.Some? then FirstKey(k, blocks.value, password) else KeyFromDer(k, b, password)
  }

  /** `FileKeyStore::load`, from the file's octets. */
  function FileLoad(k: KeyReaders, file: bytes, password: Option<string>): Result<(Certificate, bytes)> {
    var cert :- ParseCertificate(file);
    var key :- ParsePrivateKey(k, file, password);
    Ok((cert, key))
  }

  function RemoveWhitespace(s: string): string {
    if s == "" then "" else (if Whitespace(s[0]) then "" else [s[0]]) + RemoveWhitespace(s[1..])
  }

  /** `material_to_bytes` */
  function MaterialToBytes(value: string): Result<bytes> {
    if "-----BEGIN" <= TrimStart(value) then Ok(EncodeUtf8(value))
    else Base64.Decode(RemoveWhitespace(value)).OkOr(Config)
  }

  function LoadCertificate(value: string): Result<Certificate> {
    var b :- MaterialToBytes(value);
    ParseCertificate(b)
  }

  function LoadKey(k: KeyReaders, value: string, password: Option<string>): Result<bytes> {
    var b :- MaterialToBytes(value);
    ParsePrivateKey(k, b, password)
  }

  /** `write_ca_pem`: the bundle's text. */
  function Bundle(certDer: bytes, keyDer: bytes): string {
    Document(CERTIFICATE, certDer) + Document(PRIVATE_KEY, keyDer)
  }

  lemma {:induction false} FirstKeyErrors(k: KeyReaders, blocks: seq<Block>, password: Option<string>)
    ensures FirstKey(k, blocks, password).Err? ==> FirstKey(k, blocks, password).error == Config
  {
    if blocks != [] { FirstKeyErrors(k, blocks[1..], password); }
  }

  lemma KeyErrors(k: KeyReaders, b: bytes, password: Option<string>)
    ensures ParsePrivateKey(k, b, password).Err? ==> ParsePrivateKey(k, b, password).error == Config
  {
    if AsPemBlocks(b).Some? { FirstKeyErrors(k, AsPemBlocks(b).value, password); }
  }

  // ----- the bundle round trip -----

  lemma LabelsAreOneLine()
    ensures ValidLabel(CERTIFICATE) && ValidLabel(PRIVATE_KEY)
    ensures CERTIFICATE != PRIVATE_KEY && CERTIFICATE != "RSA PRIVATE KEY" && CERTIFICATE != "ENCRYPTED PRIVATE KEY"
  {
    assert CERTIFICATE[0] == 'C';
  }

  /** The last document of a text. */
  lemma LastDocument(kind: string, der: bytes)
    requires ValidLabel(kind)
    ensures Blocks(Lines(Document(kind, der))) == [Block(kind, der)]
  {
    DocumentRoundTrip(kind, der, "");
    assert Document(kind, der) + "" == Document(kind, der);
  }

  /** Scanning the written bundle gives exactly the two blocks, for any octets. */
  lemma BundleScans(certDer: bytes, keyDer: bytes)
    ensures Blocks(Lines(Bundle(certDer, keyDer))) == [Block("CERTIFICATE", certDer), Block("PRIVATE KEY", keyDer)]
  {
    LabelsAreOneLine();
    LastDocument(PRIVATE_KEY, keyDer);
    DocumentRoundTrip(CERTIFICATE, certDer, Document(PRIVATE_KEY, keyDer));
  }

  lemma DocumentIsPem(kind: string, der: bytes, rest: string)
    ensures BEGIN <= Document(kind, der) + rest
    ensures AsPemBlocks(EncodeUtf8(Document(kind, der) + rest)) == Some(Blocks(Lines(Document(kind, der) + rest)))
    ensures MaterialToBytes(Document(kind, der) + rest) == Ok(EncodeUtf8(Document(kind, der) + rest))
  {
    var text, first := Document(kind, der) + rest, BEGIN + kind + DASHES;
    assert PemLines(kind, der)[0] == first;
    assert text[..|first|] == first && first[..|BEGIN|] == BEGIN;
    assert text[..|BEGIN|] == BEGIN;
    assert text[0] == '-' && TrimStart(text) == text;
    assert "-----BEGIN" <= BEGIN;
    Utf8RoundTrip(text);
  }

  /** For all certificate and key DER: loading the written bundle recovers both, whatever the password setting. */
  lemma BundleRoundTrip(k: KeyReaders, cert: Certificate, key: bytes, keyDer: bytes, password: Option<string>)
    requires StrictSerial(cert.serial) && Fits(CertificateToAny(cert))
    requires k.pkcs8(keyDer) == Some(key)
    ensures FileLoad(k, EncodeUtf8(Bundle(CertificateDer(cert), keyDer)), password) == Ok((cert, key))
  {
    var certDer := CertificateDer(cert);
    BundleScans(certDer, keyDer);
    DocumentIsPem(CERTIFICATE, certDer, Document(PRIVATE_KEY, keyDer));
    StrictCertificateExactly(cert, certDer);
    var blocks := [Block(CERTIFICATE, certDer), Block(PRIVATE_KEY, keyDer)];
    LabelsAreOneLine();
    assert FirstKey(k, blocks, password) == FirstKey(k, blocks[1..], password) == Ok(key);
  }

  // ----- the three forms of inline material -----

  lemma {:induction false} RemovedStart(s: string)
    ensures RemoveWhitespace(TrimStart(s)) == RemoveWhitespace(s)
    ensures TrimStart(s) != "" ==> !Whitespace(TrimStart(s)[0])
  {
    if s != "" {
      RemovedStart(s[1..]);
    }
  }

  /** Base64 text, with white space anywhere, is never mistaken for PEM and decodes to its octets. */
  lemma Base64IsNotPem(value: string, b: bytes)
    requires RemoveWhitespace(value) == Base64.Encode(b)
    ensures !("-----BEGIN" <= TrimStart(value))
    ensures MaterialToBytes(value) == Ok(b)
  {
    RemovedStart(value);
    Base64.EncodeAlphabet(b);
    Base64.RoundTrip(b);
  }

  lemma {:induction false} Utf8NotShorter(s: string)
    ensures |s| <= |EncodeUtf8(s)|
  {
    if s != "" {
      Utf8NotShorter(s[1..]);
    }
  }

  lemma {:induction false} FirstOfKindIsBlock(blocks: seq<Block>, kind: string)
    requires FirstOfKind(blocks, kind).Some?
    ensures Block(kind, FirstOfKind(blocks, kind).value) in blocks
  {
    if blocks[0].kind != kind {
      FirstOfKindIsBlock(blocks[1..], kind);
    }
  }

  /** A certificate read as bare DER: recovered exactly when its DER is not itself text with the marker. */
  lemma BareCertificate(cert: Certificate)
    requires StrictSerial(cert.serial) && Fits(CertificateToAny(cert))
    ensures ParseCertificate(CertificateDer(cert)) == Ok(cert) <==> AsPemBlocks(CertificateDer(cert)).None?
  {
    var der := CertificateDer(cert);
    StrictCertificateExactly(cert, der);
    if AsPemBlocks(der).Some? {
      var text := DecodeUtf8(der).value;
      var blocks := AsPemBlocks(der).value;
      var inner := FirstOfKind(blocks, CERTIFICATE);
      if inner.Some? {
        FirstOfKindIsBlock(blocks, CERTIFICATE);
        BlocksAreShorter(Lines(text));
        LinesTotal(text);
        Utf8NotShorter(text);
        Utf8Canonical(der);
        StrictCertificateExactly(cert, inner.value);
      }
    }
  }

  /** DER of 128 content octets or more is never UTF-8: its length octet is a stray continuation. */
  lemma LongDerIsNotText(a: Any)
    requires a.tag < 0x80 && |a.value| >= 0x80
    ensures AsPemBlocks(EncodeAny(a)).None?
  {
    var b := EncodeAny(a);
    assert b[0] == a.tag && 0x80 <= b[1] && (b[1] < 0xC0 || b[1] == 0xFF);
    assert b[1..][0] == b[1];
    assert DecodeUtf8(b[1..]).None?;
  }

  /** PEM text of a certificate, with anything after it, loads the certificate. */
  lemma PemCertificateLoads(cert: Certificate, rest: string)
    requires StrictSerial(cert.serial) && Fits(CertificateToAny(cert))
    ensures ParseCertificate(EncodeUtf8(Document(CERTIFICATE, CertificateDer(cert)) + rest)) == Ok(cert)
  {
    var der := CertificateDer(cert);
    LabelsAreOneLine();
    DocumentIsPem(CERTIFICATE, der, rest);
    DocumentRoundTrip(CERTIFICATE, der, rest);
    StrictCertificateExactly(cert, der);
  }

  lemma PemKeyLoads(k: KeyReaders, key: bytes, keyDer: bytes, password: Option<string>, rest: string)
    requires k.pkcs8(keyDer) == Some(key)
    ensures ParsePrivateKey(k, EncodeUtf8(Document(PRIVATE_KEY, keyDer) + rest), password) == Ok(key)
  {
    LabelsAreOneLine();
    DocumentIsPem(PRIVATE_KEY, keyDer, rest);
    DocumentRoundTrip(PRIVATE_KEY, keyDer, rest);
  }

  /**
   PEM text (with anything after it), base64 of that text, and base64 of the DER
   all load the same certificate; the last exactly when the DER is not itself
   text with the marker, which no certificate of 128 or more content octets is.
   */
  lemma CertificateForms(cert: Certificate, pem: string, rest: string, base64OfPem: string, base64OfDer: string)
    requires StrictSerial(cert.serial) && Fits(CertificateToAny(cert))
    requires pem == Document("CERTIFICATE", CertificateDer(cert)) + rest
    requires RemoveWhitespace(base64OfPem) == Base64.Encode(EncodeUtf8(pem))
    requires RemoveWhitespace(base64OfDer) == Base64.Encode(CertificateDer(cert))
    ensures LoadCertificate(pem) == Ok(cert)
    ensures LoadCertificate(base64OfPem) == Ok(cert)
    ensures LoadCertificate(base64OfDer) == Ok(cert) <==> AsPemBlocks(CertificateDer(cert)).None?
    ensures |CertificateToAny(cert).value| >= 0x80 ==> LoadCertificate(base64OfDer) == Ok(cert)
  {
    DocumentIsPem(CERTIFICATE, CertificateDer(cert), rest);
    PemCertificateLoads(cert, rest);
    LoadsAs(pem, EncodeUtf8(pem));
    Base64IsNotPem(base64OfPem, EncodeUtf8(pem));
    LoadsAs(base64OfPem, EncodeUtf8(pem));
    Base64IsNotPem(base64OfDer, CertificateDer(cert));
    LoadsAs(base64OfDer, CertificateDer(cert));
    BareCertificate(cert);
    if |CertificateToAny(cert).value| >= 0x80 {
      LongDerIsNotText(CertificateToAny(cert));
    }
  }

  lemma LoadsAs(value: string, b: bytes)
    requires MaterialToBytes(value) == Ok(b)
    ensures LoadCertificate(value) == ParseCertificate(b)
    ensures forall k, password :: LoadKey(k, value, password) == ParsePrivateKey(k, b, password)
  {
  }

  /**
   The same for a PKCS#8 key: its bare DER loads it exactly when the DER is not
   text with the marker, or that text's own first key block is this key again;
   no DER of 128 or more content octets, so no RSA key, is such text.
   */
  lemma KeyForms(k: KeyReaders, key: bytes, keyDer: bytes, password: Option<string>,
                 pem: string, rest: string, base64OfPem: string, base64OfDer: string)
    requires k.pkcs8(keyDer) == Some(key)
    requires pem == Document("PRIVATE KEY", keyDer) + rest
    requires RemoveWhitespace(base64OfPem) == Base64.Encode(EncodeUtf8(pem))
    requires RemoveWhitespace(base64OfDer) == Base64.Encode(keyDer)
    ensures LoadKey(k, pem, password) == Ok(key)
    ensures LoadKey(k, base64OfPem, password) == Ok(key)
    ensures LoadKey(k, base64OfDer, password) == Ok(key) <==>
      AsPemBlocks(keyDer).None? || FirstKey(k, AsPemBlocks(keyDer).value, password) == Ok(key)
    ensures forall a :: keyDer == EncodeAny(a) && a.tag < 0x80 && |a.value| >= 0x80 ==>
      LoadKey(k, base64OfDer, password) == Ok(key)
  {
    DocumentIsPem(PRIVATE_KEY, keyDer, rest);
    PemKeyLoads(k, key, keyDer, password, rest);
    LoadsAs(pem, EncodeUtf8(pem));
    Base64IsNotPem(base64OfPem, EncodeUtf8(pem));
    LoadsAs(base64OfPem, EncodeUtf8(pem));
    Base64IsNotPem(base64OfDer, keyDer);
    LoadsAs(base64OfDer, keyDer);
    forall a | keyDer == EncodeAny(a) && a.tag < 0x80 && |a.value| >= 0x80 ensures AsPemBlocks(keyDer).None? {
      LongDerIsNotText(a);
    }
  }

  // ----- what counts as text -----

  lemma {:induction false} ContainsExactly(text: string, part: string)
    ensures Contains(text, part) <==> exists i: nat :: i <= |text| && part <= text[i..]
  {
    assert text[0..] == text;
    if part <= text {
    } else if text != "" {
      ContainsExactly(text[1..], part);
      if i: nat :| i <= |text[1..]| && part <= text[1..][i..] { assert text[i + 1..] == text[1..][i..]; }
      if i: nat :| i <= |text| && part <= text[i..] {
        assert text[1..][i - 1..] == text[i..];
      }
    }
  }

  /** Octets are taken for PEM exactly when they are UTF-8 with the marker somewhere in it. */
  lemma PemExactly(b: bytes)
    ensures AsPemBlocks(b).Some? <==>
      exists text: string, i: nat :: b == EncodeUtf8(text) && i <= |text| && "-----BEGIN " <= text[i..]
  {
    if DecodeUtf8(b).Some? {
      Utf8Canonical(b);
      ContainsExactly(DecodeUtf8(b).value, BEGIN);
    }
    if text: string, i: nat :| b == EncodeUtf8(text) && i <= |text| && "-----BEGIN " <= text[i..] {
      Utf8RoundTrip(text);
    }
  }

  lemma {:induction false} BlankStart(before: string, rest: string)
    requires Blank(before) && (rest != "" ==> !Whitespace(rest[0]))
    ensures TrimStart(before + rest) == rest
  {
    if before == "" {
      assert before + rest == rest;
    } else {
      assert (before + rest)[1..] == before[1..] + rest;
      BlankStart(before[1..], rest);
    }
  }

  /** A value that begins with the marker, blanks before it or not, is the text itself. */
  lemma MaterialIsText(before: string, rest: string)
    requires Blank(before)
    ensures MaterialToBytes(before + ("-----BEGIN" + rest)) == Ok(EncodeUtf8(before + ("-----BEGIN" + rest)))
  {
    var t := "-----BEGIN" + rest;
    assert t[0] == '-' && t[..10] == "-----BEGIN";
    BlankStart(before, t);
  }

  /** Removing white space goes character by character. */
  lemma {:induction false} RemovesExactly(x: string, c: char, y: string)
    ensures RemoveWhitespace(x + [c] + y) ==
      RemoveWhitespace(x) + (if Whitespace(c) then "" else [c]) + RemoveWhitespace(y)
    ensures RemoveWhitespace("") == ""
  {
    if x == "" {
      assert (x + [c] + y)[0] == c && (x + [c] + y)[1..] == y;
    } else {
      assert (x + [c] + y)[0] == x[0] && (x + [c] + y)[1..] == x[1..] + [c] + y;
      RemovesExactly(x[1..], c, y);
    }
  }

  // ----- what a text of several blocks loads -----

  /** The first certificate block is the one that counts, whatever stands before and after it. */
  lemma {:induction false} FirstCertificateCounts(before: seq<Block>, der: bytes, rest: seq<Block>)
    requires forall b :: b in before ==> b.kind != "CERTIFICATE"
    ensures FirstOfKind(before + [Block("CERTIFICATE", der)] + rest, "CERTIFICATE") == Some(der)
  {
    if before == [] {
      assert (before + [Block("CERTIFICATE", der)] + rest)[0] == Block("CERTIFICATE", der);
    } else {
      assert before[0] in before;
      assert (before + [Block("CERTIFICATE", der)] + rest)[1..] == before[1..] + [Block("CERTIFICATE", der)] + rest;
      FirstCertificateCounts(before[1..], der, rest);
    }
  }

  /** The labels of the three private key blocks. */
  predicate KeyLabel(kind: string) { kind in {"PRIVATE KEY", "RSA PRIVATE KEY", "ENCRYPTED PRIVATE KEY"} }

  /** What a key block holds: PKCS#8, PKCS#1, or PKCS#8 to be decrypted with the password. */
  ghost predicate Holds(k: KeyReaders, b: Block, password: Option<string>, key: bytes) {
    || (b.kind == "PRIVATE KEY" && k.pkcs8(b.der) == Some(key))
    || (b.kind == "RSA PRIVATE KEY" && k.pkcs1(b.der) == Some(key))
    || (b.kind == "ENCRYPTED PRIVATE KEY" && Decrypts(k, b.der, password, key))
  }

  /** An encrypted key, the right password, and the key under it. */
  ghost predicate Decrypts(k: KeyReaders, der: bytes, password: Option<string>, key: bytes) {
    && password.Some? && k.isEncrypted(der)
    && k.decrypt(der, password.value).Some? && k.pkcs8(k.decrypt(der, password.value).value) == Some(key)
  }

  lemma KeyLabelsDiffer()
    ensures "PRIVATE KEY" != "RSA PRIVATE KEY" && "PRIVATE KEY" != "ENCRYPTED PRIVATE KEY"
    ensures "RSA PRIVATE KEY" != "ENCRYPTED PRIVATE KEY" && !KeyLabel("CERTIFICATE")
  {
    assert "PRIVATE KEY"[0] == 'P' && "RSA PRIVATE KEY"[0] == 'R' && "ENCRYPTED PRIVATE KEY"[0] == 'E';
    assert "CERTIFICATE"[0] == 'C';
  }

  lemma DecryptsExactly(k: KeyReaders, der: bytes, password: Option<string>, key: bytes)
    ensures DecryptPkcs8(k, der, password) == Ok(key) <==> Decrypts(k, der, password, key)
  {
  }

  /** The first private key block decides, whatever stands before and after it: it loads exactly the key it holds. */
  lemma {:induction false} FirstKeyCounts(k: KeyReaders, before: seq<Block>, b: Block, rest: seq<Block>,
                                          password: Option<string>, key: bytes)
    requires KeyLabel(b.kind) && forall x :: x in before ==> !KeyLabel(x.kind)
    ensures FirstKey(k, before + [b] + rest, password) == Ok(key) <==> Holds(k, b, password, key)
  {
    KeyLabelsDiffer();
    if before == [] {
      assert (before + [b] + rest)[0] == b;
      DecryptsExactly(k, b.der, password, key);
    } else {
      assert before[0] in before;
      assert (before + [b] + rest)[1..] == before[1..] + [b] + rest;
      FirstKeyCounts(k, before[1..], b, rest, password, key);
    }
  }

  /** Without a private key block there is no key. */
  lemma {:induction false} NoKeyBlock(k: KeyReaders, blocks: seq<Block>, password: Option<string>)
    requires forall x :: x in blocks ==> !KeyLabel(x.kind)
    ensures FirstKey(k, blocks, password) == Err(Config)
  {
    if blocks != [] {
      assert blocks[0] in blocks;
      NoKeyBlock(k, blocks[1..], password);
    }
  }

  /** Bare DER is tried as PKCS#8, then as PKCS#1, then as an encrypted key. */
  lemma BareKeyExactly(k: KeyReaders, der: bytes, password: Option<string>, key: bytes)
    ensures KeyFromDer(k, der, password) == Ok(key) <==>
      || k.pkcs8(der) == Some(key)
      || (k.pkcs8(der) == None && k.pkcs1(der) == Some(key))
      || (k.pkcs8(der) == None && k.pkcs1(der) == None && Decrypts(k, der, password, key))
  {
    DecryptsExactly(k, der, password, key);
  }

  /**
   Every form of every kind of key: PEM text under its label with anything after
   it, base64 of that text, and base64 of the DER. The text loads exactly the key
   the block holds; the DER, unless it is text with the marker, exactly what it
   is read as, tried in order.
   */
  lemma EveryKeyForm(k: KeyReaders, kind: string, der: bytes, password: Option<string>, key: bytes,
                     pem: string, rest: string, base64OfPem: string, base64OfDer: string)
    requires KeyLabel(kind) && pem == Document(kind, der) + rest
    requires RemoveWhitespace(base64OfPem) == Base64.Encode(EncodeUtf8(pem))
    requires RemoveWhitespace(base64OfDer) == Base64.Encode(der)
    ensures LoadKey(k, pem, password) == Ok(key) <==> Holds(k, Block(kind, der), password, key)
    ensures LoadKey(k, base64OfPem, password) == Ok(key) <==> Holds(k, Block(kind, der), password, key)
    ensures AsPemBlocks(der).None? ==>
      (LoadKey(k, base64OfDer, password) == Ok(key) <==>
       || k.pkcs8(der) == Some(key)
       || (k.pkcs8(der) == None && k.pkcs1(der) == Some(key))
       || (k.pkcs8(der) == None && k.pkcs1(der) == None && Decrypts(k, der, password, key)))
  {
    KeyTextLoads(k, kind, der, password, key, rest);
    LoadsAs(pem, EncodeUtf8(pem));
    Base64IsNotPem(base64OfPem, EncodeUtf8(pem));
    LoadsAs(base64OfPem, EncodeUtf8(pem));
    Base64IsNotPem(base64OfDer, der);
    LoadsAs(base64OfDer, der);
    BareKeyExactly(k, der, password, key);
  }

  lemma KeyLabelIsOneLine(kind: string)
    requires KeyLabel(kind)
    ensures ValidLabel(kind)
  {
  }

  lemma KeyTextLoads(k: KeyReaders, kind: string, der: bytes, password: Option<string>, key: bytes, rest: string)
    requires KeyLabel(kind)
    ensures MaterialToBytes(Document(kind, der) + rest) == Ok(EncodeUtf8(Document(kind, der) + rest))
    ensures ParsePrivateKey(k, EncodeUtf8(Document(kind, der) + rest), password) == Ok(key) <==>
      Holds(k, Block(kind, der), password, key)
  {
    KeyLabelIsOneLine(kind);
    DocumentIsPem(kind, der, rest);
    DocumentRoundTrip(kind, der, rest);
    FirstKeyCounts(k, [], Block(kind, der), Blocks(Lines(rest)), password, key);
    assert [] + [Block(kind, der)] + Blocks(Lines(rest)) == [Block(kind, der)] + Blocks(Lines(rest));
  }

  // ----- a certificate that is text -----

  /** A relative name: one common name, in a UTF8String. */
  function CommonName(text: string): bytes {
    EncodeAny(Any(SET, EncodeAny(Struct([Any(OID, [0x55, 0x04, 0x03]), Any(UTF8_STRING, EncodeUtf8(text))]))))
  }

  /** A version 1 certificate with nothing but this common name as its issuer. */
  function Named(text: string): Certificate {
    Certificate(None, [1], [], Name(CommonName(text)), [], Name([]), [], [0], None, [], [0])
  }

  ghost predicate AsciiOnly(b: bytes) { forall i :: 0 <= i < |b| ==> b[i] < 0x80 }

  ghost predicate At(part: bytes, b: bytes, i: nat) { i + |part| <= |b| && b[i..i + |part|] == part }

  /** Seven-bit octets, the part somewhere among them. */
  ghost predicate Shows(b: bytes, part: bytes) { AsciiOnly(b) && exists i: nat :: At(part, b, i) }

  lemma ShownBetween(a: bytes, b: bytes, c: bytes, part: bytes)
    requires AsciiOnly(a) && Shows(b, part) && AsciiOnly(c)
    ensures Shows(a + b + c, part)
  {
    var i: nat :| At(part, b, i);
    assert (a + b + c)[|a| + i..|a| + i + |part|] == part;
    assert At(part, a + b + c, |a| + i);
  }

  lemma AnyShows(a: Any, part: bytes)
    requires a.tag < 0x80 && |a.value| < 0x80 && Shows(a.value, part)
    ensures Shows(EncodeAny(a), part) && |EncodeAny(a)| == |a.value| + 2
  {
    ShownBetween([a.tag, |a.value|], a.value, [], part);
    assert EncodeAny(a) == [a.tag, |a.value|] + a.value + [];
  }

  /** Seven-bit fields of at most seven octets. */
  ghost predicate Small(a: Any) { a.tag < 0x80 && |a.value| <= 7 && AsciiOnly(a.value) }

  lemma {:induction false} SmallFields(f: seq<Any>)
    requires forall i :: 0 <= i < |f| ==> Small(f[i])
    ensures AsciiOnly(EncodeAll(f)) && |EncodeAll(f)| <= 9 * |f|
  {
    if f != [] {
      SmallFields(f[1..]);
      assert EncodeAny(f[0]) == [f[0].tag, |f[0].value|] + f[0].value;
    }
  }

  lemma {:induction false} AllAppend(f: seq<Any>, g: seq<Any>)
    ensures EncodeAll(f + g) == EncodeAll(f) + EncodeAll(g)
    decreases f
  {
    if f == [] {
      assert f + g == g;
    } else {
      AllAppend(f[1..], g);
      assert (f + g)[0] == f[0] && (f + g)[1..] == f[1..] + g;
      Associates(EncodeAny(f[0]), EncodeAll(f[1..]), EncodeAll(g));
    }
  }

  /** A list of fields shows what one of them shows, the others being small. */
  lemma FieldsShow(f: seq<Any>, a: Any, g: seq<Any>, part: bytes)
    requires forall i :: 0 <= i < |f| ==> Small(f[i])
    requires forall i :: 0 <= i < |g| ==> Small(g[i])
    requires a.tag < 0x80 && |a.value| < 0x80 && Shows(a.value, part)
    ensures Shows(EncodeAll(f + [a] + g), part)
    ensures |EncodeAll(f + [a] + g)| <= 9 * |f + g| + |a.value| + 2
  {
    SmallFields(f);
    SmallFields(g);
    AnyShows(a, part);
    AllAppend(f + [a], g);
    AllAppend(f, [a]);
    OneField(a);
    ShownBetween(EncodeAll(f), EncodeAny(a), EncodeAll(g), part);
  }

  lemma TextShows(text: string)
    requires Ascii(text)
    ensures Shows(EncodeUtf8(text), EncodeUtf8(text)) && |EncodeUtf8(text)| == |text|
  {
    var b := EncodeUtf8(text);
    AsciiOctets(text);
    assert b[0..0 + |b|] == b;
    assert At(b, b, 0);
  }

  lemma NameShows(text: string)
    requires Ascii(text) && |text| <= 11
    ensures Shows(CommonName(text), EncodeUtf8(text)) && |CommonName(text)| <= 26
  {
    var kind, value := Any(OID, [0x55, 0x04, 0x03]), Any(UTF8_STRING, EncodeUtf8(text));
    TextShows(text);
    FieldsShow([kind], value, [], EncodeUtf8(text));
    assert [kind] + [value] + [] == [kind, value] && |[kind] + []| == 1;
    AnyShows(Struct([kind, value]), EncodeUtf8(text));
    AnyShows(Any(SET, EncodeAny(Struct([kind, value]))), EncodeUtf8(text));
  }

  lemma NamedShows(text: string)
    requires Ascii(text) && |text| <= 11
    ensures Shows(CertificateDer(Named(text)), EncodeUtf8(text)) && |CertificateDer(Named(text))| <= 0x80
  {
    var c, part := Named(text), EncodeUtf8(text);
    NameShows(text);
    TbsShows(c, part);
    var a, f := TbsToAny(c), [Any(SEQUENCE, []), Any(BIT_STRING, [0])];
    FieldsShow([], a, f, part);
    assert [] + [a] + f == [a, f[0], f[1]] && |[] + f| == 2;
    AnyShows(CertificateToAny(c), part);
  }

  lemma TbsShows(c: Certificate, part: bytes)
    requires c.version == None && c.serial == [1] && c.signatureAlg == [] && c.validity == [] && c.subject == Name([])
    requires c.keyAlg == [] && c.keyBits == [0] && c.extensions == None
    requires Shows(c.issuer.rdns, part) && |c.issuer.rdns| <= 26
    ensures Shows(TbsToAny(c).value, part) && |TbsToAny(c).value| <= 75
    ensures TbsToAny(c).tag == SEQUENCE
  {
    TbsIs(c);
    KeyValue();
    TbsListShows(NameToAny(c.issuer), KeyInfoToAny(c), part);
  }

  lemma TbsListShows(name: Any, key: Any, part: bytes)
    requires Small(key) && name.tag < 0x80 && |name.value| <= 26 && Shows(name.value, part)
    ensures var all := [Any(INTEGER, [1]), Any(SEQUENCE, [])] + [name] + [Any(SEQUENCE, []), Any(SEQUENCE, []), key];
      Shows(EncodeAll(all), part) && |EncodeAll(all)| <= 75
  {
    var f, g := [Any(INTEGER, [1]), Any(SEQUENCE, [])], [Any(SEQUENCE, []), Any(SEQUENCE, []), key];
    assert |f + g| == 5;
    FieldsShow(f, name, g, part);
  }

  lemma TbsIs(c: Certificate)
    requires c.version == None && c.extensions == None
    ensures TbsToAny(c) == Struct([Any(INTEGER, c.serial), Any(SEQUENCE, c.signatureAlg)] + [NameToAny(c.issuer)]
                                  + [Any(SEQUENCE, c.validity), NameToAny(c.subject), KeyInfoToAny(c)])
  {
    assert [] + (TbsFields(c) + []) ==
      [Any(INTEGER, c.serial), Any(SEQUENCE, c.signatureAlg)] + [NameToAny(c.issuer)]
      + [Any(SEQUENCE, c.validity), NameToAny(c.subject), KeyInfoToAny(c)];
  }

  lemma OneField(a: Any)
    ensures EncodeAll([a]) == EncodeAny(a)
  {
    assert EncodeAll([a]) == EncodeAny(a) + EncodeAll([a][1..]) && [a][1..] == [];
  }

  lemma KeyValue()
    ensures Small(Struct([Any(SEQUENCE, []), Any(BIT_STRING, [0])]))
  {
    var a, b := Any(SEQUENCE, []), Any(BIT_STRING, [0]);
    AllAppend([a], [b]);
    OneField(a);
    OneField(b);
    assert [a] + [b] == [a, b];
    assert |EncodeAny(a)| == 2 && |EncodeAny(b)| == 3;
  }

  function TextOf(b: bytes): string { seq(|b|, i requires 0 <= i < |b| => b[i] as char) }

  lemma SevenBitText(b: bytes)
    requires AsciiOnly(b)
    ensures DecodeUtf8(b) == Some(TextOf(b))
  {
    AsciiOctets(TextOf(b));
    assert EncodeUtf8(TextOf(b)) == b;
    Utf8RoundTrip(TextOf(b));
  }

  /** Seven-bit octets are text, which contains what they show. */
  lemma ShownIsText(b: bytes, part: string)
    requires Ascii(part) && Shows(b, EncodeUtf8(part))
    ensures DecodeUtf8(b).Some? && Contains(DecodeUtf8(b).value, part)
  {
    SevenBitText(b);
    AsciiOctets(part);
    var n, i: nat :| n == |part| && At(EncodeUtf8(part), b, i);
    assert TextOf(b)[i..][..n] == part;
    ContainsAt(TextOf(b), part, i);
  }

  lemma {:induction false} ContainsAt(text: string, part: string, i: nat)
    requires i <= |text| && part <= text[i..]
    ensures Contains(text, part)
  {
    if i > 0 {
      assert text[1..][i - 1..] == text[i..];
      ContainsAt(text[1..], part, i - 1);
    }
  }

  lemma NamedIsText(text: string) returns (c: Certificate)
    requires Ascii(text) && |text| <= 11
    ensures c == Named(text) && |CertificateDer(c)| <= 0x80
    ensures DecodeUtf8(CertificateDer(c)).Some? && Contains(DecodeUtf8(CertificateDer(c)).value, text)
  {
    c := Named(text);
    NamedShows(text);
    ShownIsText(CertificateDer(c), text);
  }

  /**
   There is a certificate whose DER is text with the marker, its issuer's name
   being just that: it loads from PEM and not from its bare DER.
   */
  lemma TextualCertificate() returns (c: Certificate, text: string)
    ensures text == BEGIN && c == Named(text)
    ensures StrictSerial(c.serial) && Fits(CertificateToAny(c))
    ensures AsPemBlocks(CertificateDer(c)).Some?
    ensures ParseCertificate(CertificateDer(c)) != Ok(c)
    ensures ParseCertificate(EncodeUtf8(Document(CERTIFICATE, CertificateDer(c)))) == Ok(c)
  {
    text := BEGIN;
    c := NamedIsText(text);
    BareCertificate(c);
    PemCertificateLoads(c, "");
    assert Document(CERTIFICATE, CertificateDer(c)) + "" == Document(CERTIFICATE, CertificateDer(c));
  }
}
