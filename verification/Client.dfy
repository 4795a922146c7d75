/**
 The other side of the wire: a client that knows the standards and not this
 server. It reads every field of a message, by the tag and identifier numbers the
 standards give, and finds in the server's messages what they ask for.
 */
module Client {
  import opened Wrappers
  import opened Der
  import opened Asn1
  import opened Primitives
  import opened BlockCipher
  import opened Attributes
  import opened Sign
  import opened Text
  import AppState
  import Envelope
  import Exchange
  import Scep
  import Verify

  // ----- object identifiers -----

  /** Base 128, the high bit set on all octets but the last (section 8.19 of ITU-T X.690). */
  function SubIdentifier(n: nat): bytes { Continued(n / 128) + [n % 128] }

  function Continued(n: nat): bytes { if n == 0 then [] else Continued(n / 128) + [128 + n % 128] }

  function Arcs(arcs: seq<nat>): bytes {
    if arcs == [] then [] else SubIdentifier(arcs[0]) + Arcs(arcs[1..])
  }

  /** The content octets of an identifier in dotted form; the first two arcs share an octet. */
  function Dotted(a: nat, b: nat, arcs: seq<nat>): bytes { SubIdentifier(a * 40 + b) + Arcs(arcs) }

  lemma OneOctet(n: nat)
    requires n < 128
    ensures SubIdentifier(n) == [n]
  {
  }

  lemma TwoOctets(n: nat)
    requires 128 <= n < 16384
    ensures SubIdentifier(n) == [128 + n / 128, n % 128]
  {
    assert Continued(n / 128) == Continued(0) + [128 + n / 128];
  }

  lemma ThreeOctets(n: nat)
    requires 16384 <= n < 2097152
    ensures SubIdentifier(n) == [128 + n / 16384, 128 + n / 128 % 128, n % 128]
  {
    assert Continued(n / 128 / 128) == Continued(0) + [128 + n / 128 / 128];
  }

  lemma ArcsCons(a: nat, rest: seq<nat>)
    ensures Arcs([a] + rest) == SubIdentifier(a) + Arcs(rest)
  {
    assert ([a] + rest)[1..] == rest;
  }

  /** Small arcs are an octet each. */
  lemma {:induction false} SmallArcs(arcs: seq<nat>)
    requires forall i :: 0 <= i < |arcs| ==> arcs[i] < 128
    ensures |Arcs(arcs)| == |arcs| && forall i :: 0 <= i < |arcs| ==> Arcs(arcs)[i] == arcs[i]
  {
    if arcs != [] {
      OneOctet(arcs[0]);
      SmallArcs(arcs[1..]);
    }
  }

  lemma Glued(first: nat, x: nat, y: nat, rest: seq<nat>)
    ensures SubIdentifier(first) + Arcs([x, y] + rest) ==
      SubIdentifier(first) + SubIdentifier(x) + SubIdentifier(y) + Arcs(rest)
  {
    assert [x, y] + rest == [x] + ([y] + rest);
    ArcsCons(x, [y] + rest);
    ArcsCons(y, rest);
  }

  lemma Flat(a: bytes, b: bytes, c: bytes, all: bytes, rest: bytes)
    requires a + b + c == all
    ensures a + b + c + rest == all + rest
  {
  }

  // ----- which octets are an identifier -----

  /** Continuation octets, then one without the high bit; the first one carries something. */
  ghost predicate OneSubIdentifier(b: bytes) {
    && b != [] && b[|b| - 1] < 128 && b[0] != 128 && forall i :: 0 <= i < |b| - 1 ==> b[i] >= 128
  }

  lemma {:induction false} ContinuedShape(n: nat)
    ensures forall i :: 0 <= i < |Continued(n)| ==> Continued(n)[i] >= 128
    ensures Continued(n) != [] ==> Continued(n)[0] != 128
  {
    if n > 0 {
      ContinuedShape(n / 128);
      if n / 128 == 0 { assert Continued(n) == [128 + n % 128]; }
    }
  }

  lemma {:induction false} NumberOf(b: bytes) returns (n: nat)
    requires (forall i :: 0 <= i < |b| ==> b[i] >= 128) && (b != [] ==> b[0] != 128)
    ensures Continued(n) == b && (b != [] ==> n > 0)
  {
    if b == [] {
      n := 0;
    } else {
      var k := |b| - 1;
      var high := NumberOf(b[..k]);
      n := high * 128 + (b[k] - 128);
      assert b == b[..k] + [b[k]];
    }
  }

  lemma SubIdentifierExactly(b: bytes)
    ensures OneSubIdentifier(b) <==> exists n: nat :: b == SubIdentifier(n)
  {
    if OneSubIdentifier(b) {
      var k := |b| - 1;
      var high := NumberOf(b[..k]);
      var n := high * 128 + b[k];
      assert n / 128 == high && n % 128 == b[k] as int;
      assert b == b[..k] + [b[k]] == SubIdentifier(n);
    }
    if n: nat :| b == SubIdentifier(n) {
      ContinuedShape(n / 128);
      if Continued(n / 128) != [] { assert b[0] == Continued(n / 128)[0]; }
    }
  }

  /** Identifiers of at most 39 octets, each sub-identifier complete and minimal. */
  lemma {:induction false} IdentifierExactly(b: bytes)
    ensures ValidOid(b) <==> |b| <= 39 && exists arcs :: arcs != [] && b == Arcs(arcs)
  {
    if ValidOid(b) { var arcs := ArcsOf(b); }
    if arcs :| arcs != [] && b == Arcs(arcs) { ArcsShape(arcs); }
  }

  lemma {:induction false} ArcsShape(arcs: seq<nat>)
    ensures arcs != [] ==> Arcs(arcs) != [] && Arcs(arcs)[|Arcs(arcs)| - 1] < 128
    ensures forall i :: 0 <= i < |Arcs(arcs)| && Arcs(arcs)[i] == 128 ==> i > 0 && Arcs(arcs)[i - 1] >= 128
  {
    if arcs != [] {
      var first, rest := SubIdentifier(arcs[0]), Arcs(arcs[1..]);
      ArcsShape(arcs[1..]);
      SubIdentifierExactly(first);
      assert Arcs(arcs) == first + rest;
      forall i | 0 <= i < |first + rest| && (first + rest)[i] == 128 ensures i > 0 && (first + rest)[i - 1] >= 128 {
        if i >= |first| { assert rest[i - |first|] == 128; }
      }
    }
  }

  lemma {:induction false} ArcsOf(b: bytes) returns (arcs: seq<nat>)
    requires b != [] && b[|b| - 1] < 128
    requires forall i :: 0 <= i < |b| && b[i] == 128 ==> i > 0 && b[i - 1] >= 128
    ensures arcs != [] && b == Arcs(arcs)
    decreases |b|
  {
    var k: nat := 0;
    while b[k] >= 128
      invariant k < |b| && forall i :: 0 <= i < k ==> b[i] >= 128
      decreases |b| - k
    {
      k := k + 1;
    }
    var first, rest := b[..k + 1], b[k + 1..];
    assert OneSubIdentifier(first);
    SubIdentifierExactly(first);
    var n: nat :| first == SubIdentifier(n);
    assert b == first + rest;
    if rest == [] {
      arcs := [n];
      assert Arcs([n]) == SubIdentifier(n) + Arcs([n][1..]) && [n][1..] == [];
    } else {
      var more := ArcsOf(rest);
      arcs := [n] + more;
      ArcsCons(n, more);
    }
  }

  /** Arcs below 1.2.840.113549, RSA Data Security. */
  lemma Rsadsi(rest: seq<nat>)
    ensures Dotted(1, 2, [840, 113549] + rest) == [0x2A, 0x86, 0x48, 0x86, 0xF7, 0x0D] + Arcs(rest)
  {
    RootOctets();
    Glued(42, 840, 113549, rest);
    Flat(SubIdentifier(42), SubIdentifier(840), SubIdentifier(113549), [0x2A, 0x86, 0x48, 0x86, 0xF7, 0x0D],
         Arcs(rest));
  }

  lemma RootOctets()
    ensures SubIdentifier(42) + SubIdentifier(840) + SubIdentifier(113549) == [0x2A, 0x86, 0x48, 0x86, 0xF7, 0x0D]
    ensures SubIdentifier(96) + SubIdentifier(840) + SubIdentifier(1) == [0x60, 0x86, 0x48, 0x01]
  {
    OneOctet(42);
    OneOctet(96);
    OneOctet(1);
    TwoOctets(840);
    ThreeOctets(113549);
  }

  /** Arcs below 2.16.840.1, US organizations. */
  lemma Us(rest: seq<nat>)
    ensures Dotted(2, 16, [840, 1] + rest) == [0x60, 0x86, 0x48, 0x01] + Arcs(rest)
  {
    RootOctets();
    Glued(96, 840, 1, rest);
    Flat(SubIdentifier(96), SubIdentifier(840), SubIdentifier(1), [0x60, 0x86, 0x48, 0x01], Arcs(rest));
  }

  lemma Rsadsi3(a: nat, b: nat, c: nat)
    requires a < 128 && b < 128 && c < 128
    ensures Dotted(1, 2, [840, 113549] + [a, b, c]) == [0x2A, 0x86, 0x48, 0x86, 0xF7, 0x0D, a, b, c]
  {
    Rsadsi([a, b, c]);
    SmallArcs([a, b, c]);
    assert Arcs([a, b, c]) == [a, b, c];
  }

  /** NIST's algorithms, 2.16.840.1.101.3.4. */
  lemma Nist(a: nat, b: nat)
    requires a < 128 && b < 128
    ensures Dotted(2, 16, [840, 1] + [101, 3, 4, a, b]) == [0x60, 0x86, 0x48, 0x01, 0x65, 0x03, 0x04, a, b]
  {
    Us([101, 3, 4, a, b]);
    SmallArcs([101, 3, 4, a, b]);
    assert Arcs([101, 3, 4, a, b]) == [101, 3, 4, a, b];
  }

  /** Arcs below 2.16.840.1.113733.1.9, where SCEP keeps its attributes. */
  lemma Verisign(n: nat)
    requires n < 128
    ensures Dotted(2, 16, [840, 1] + ([113733] + [1, 9, n])) ==
      [0x60, 0x86, 0x48, 0x01, 0x86, 0xF8, 0x45, 0x01, 0x09, n]
  {
    Us([113733] + [1, 9, n]);
    ArcsCons(113733, [1, 9, n]);
    ThreeOctets(113733);
    SmallArcs([1, 9, n]);
    assert Arcs([1, 9, n]) == [1, 9, n];
  }

  /** OIW's algorithms, 1.3.14.3.2. */
  lemma Oiw(n: nat)
    requires n < 128
    ensures Dotted(1, 3, [14, 3, 2, n]) == [0x2B, 0x0E, 0x03, 0x02, n]
  {
    OneOctet(43);
    SmallArcs([14, 3, 2, n]);
    assert Arcs([14, 3, 2, n]) == [14, 3, 2, n];
  }

  /** The content types of sections 4 to 6 of RFC 5652. */
  lemma ContentTypes()
    ensures ID_DATA == Dotted(1, 2, [840, 113549] + [1, 7, 1])
    ensures ID_SIGNED_DATA == Dotted(1, 2, [840, 113549] + [1, 7, 2])
    ensures ID_ENVELOPED_DATA == Dotted(1, 2, [840, 113549] + [1, 7, 3])
  {
    Rsadsi3(1, 7, 1);
    Rsadsi3(1, 7, 2);
    Rsadsi3(1, 7, 3);
  }

  /** SHA-256 and SHA-1; RSA encryption and its signature with SHA-256 in PKCS #1. */
  lemma DigestsAndKeys()
    ensures ID_SHA256 == Dotted(2, 16, [840, 1] + [101, 3, 4, 2, 1]) && ID_SHA1 == Dotted(1, 3, [14, 3, 2, 26])
    ensures RSA_ENCRYPTION == Dotted(1, 2, [840, 113549] + [1, 1, 1])
    ensures SHA256_WITH_RSA == Dotted(1, 2, [840, 113549] + [1, 1, 11])
  {
    Nist(2, 1);
    Oiw(26);
    Rsadsi3(1, 1, 1);
    Rsadsi3(1, 1, 11);
  }

  /** AES with keys of 128, 192 and 256 bits in CBC mode. */
  lemma AesIdentifiers()
    ensures ID_AES_128_CBC == Dotted(2, 16, [840, 1] + [101, 3, 4, 1, 2])
    ensures ID_AES_192_CBC == Dotted(2, 16, [840, 1] + [101, 3, 4, 1, 22])
    ensures ID_AES_256_CBC == Dotted(2, 16, [840, 1] + [101, 3, 4, 1, 42])
  {
    Nist(1, 2);
    Nist(1, 22);
    Nist(1, 42);
  }

  /** Triple DES and DES in CBC mode. */
  lemma DesIdentifiers()
    ensures ID_DES_EDE3_CBC == Dotted(1, 2, [840, 113549] + [3, 7]) && ID_DES_CBC == Dotted(1, 3, [14, 3, 2, 7])
  {
    Rsadsi([3, 7]);
    SmallArcs([3, 7]);
    assert Arcs([3, 7]) == [3, 7];
    Oiw(7);
  }

  /** The CMS attributes of section 11 of RFC 5652, and 2.5.29.14. */
  lemma CmsAttributes()
    ensures ID_CONTENT_TYPE == Dotted(1, 2, [840, 113549] + [1, 9, 3])
    ensures ID_MESSAGE_DIGEST == Dotted(1, 2, [840, 113549] + [1, 9, 4])
    ensures ID_CE_SUBJECT_KEY_IDENTIFIER == Dotted(2, 5, [29, 14])
  {
    Rsadsi3(1, 9, 3);
    Rsadsi3(1, 9, 4);
    OneOctet(85);
    SmallArcs([29, 14]);
    assert Arcs([29, 14]) == [29, 14];
  }

  /** The attributes of section 3.2 of RFC 8894: an identifier below 2.16.840.1.113733.1.9 for each. */
  lemma ScepAttributeIdentifiers()
    ensures ID_MESSAGE_TYPE == Dotted(2, 16, [840, 1] + ([113733] + [1, 9, 2]))
    ensures ID_PKI_STATUS == Dotted(2, 16, [840, 1] + ([113733] + [1, 9, 3]))
    ensures ID_FAIL_INFO == Dotted(2, 16, [840, 1] + ([113733] + [1, 9, 4]))
    ensures ID_SENDER_NONCE == Dotted(2, 16, [840, 1] + ([113733] + [1, 9, 5]))
    ensures ID_RECIPIENT_NONCE == Dotted(2, 16, [840, 1] + ([113733] + [1, 9, 6]))
    ensures ID_TRANSACTION_ID == Dotted(2, 16, [840, 1] + ([113733] + [1, 9, 7]))
  {
    Verisign(2);
    Verisign(3);
    Verisign(4);
    Verisign(5);
    Verisign(6);
    Verisign(7);
  }

  // ----- reading every field -----

  /** The fields of a triple with this tag number. */
  function Parts(a: Any, tag: nat): Option<seq<Any>> { if a.tag as int == tag then DecodeAll(a.value) else None }

  function Each<T>(anys: seq<Any>, read: Any -> Option<T>): Option<seq<T>> {
    if anys == [] then Some([])
    else
      var first :- read(anys[0]);
      var rest :- Each(anys[1..], read);
      Some([first] + rest)
  }

  /** An algorithm: its identifier's octets and whatever parameters it has. */
  datatype Alg = Alg(oid: bytes, parameters: seq<Any>)

  function ReadAlg(a: Any): Option<Alg> {
    var f :- Parts(a, 0x30);
    if f != [] && f[0].tag == 0x06 then Some(Alg(f[0].value, f[1..])) else None
  }

  datatype Attr = Attr(oid: bytes, values: seq<Any>)

  function ReadAttr(a: Any): Option<Attr> {
    var f :- Parts(a, 0x30);
    if |f| != 2 || f[0].tag != 0x06 then None
    else
      var values :- Parts(f[1], 0x31);
      Some(Attr(f[0].value, values))
  }

  /** SignerInfo, its signer named by issuer and serial (section 5.3 of RFC 5652). */
  datatype Signer = Signer(
    version: bytes, issuer: bytes, serial: bytes, digest: Alg, attrs: seq<Attr>, signatureAlg: Alg, signature: bytes)

  function ReadSigner(a: Any): Option<Signer> {
    var f :- Parts(a, 0x30);
    if |f| != 6 || f[0].tag != 0x02 || f[3].tag != 0xA0 || f[5].tag != 0x04 then None
    else
      var sid :- Parts(f[1], 0x30);
      if |sid| != 2 || sid[0].tag != 0x30 || sid[1].tag != 0x02 then None
      else
        var digest :- ReadAlg(f[2]);
        var anys :- DecodeAll(f[3].value);
        var attrs :- Each(anys, ReadAttr);
        var signatureAlg :- ReadAlg(f[4]);
        Some(Signer(f[0].value, sid[0].value, sid[1].value, digest, attrs, signatureAlg, f[5].value))
  }

  /** SignedData (section 5.1 of RFC 5652), its content an OCTET STRING. */
  datatype Message = Message(
    version: bytes, digests: seq<Alg>, contentType: bytes, content: Option<bytes>, certificates: seq<Any>,
    signers: seq<Signer>)

  function ReadContent(f: seq<Any>): Option<Option<bytes>> {
    if |f| == 1 then Some(None)
    else if |f| != 2 || f[1].tag != 0xA0 then None
    else
      var a :- DecodeOnly(f[1].value);
      if a.tag == 0x04 then Some(Some(a.value)) else None
  }

  function ReadSignedData(a: Any): Option<Message> {
    var f :- Parts(a, 0x30);
    if |f| != 5 || f[0].tag != 0x02 || f[3].tag != 0xA0 then None
    else
      var digests :- Parts(f[1], 0x31);
      var algs :- Each(digests, ReadAlg);
      var encap :- Parts(f[2], 0x30);
      if encap == [] || encap[0].tag != 0x06 then None
      else
        var content :- ReadContent(encap);
        var certificates :- DecodeAll(f[3].value);
        var infos :- Parts(f[4], 0x31);
        var signers :- Each(infos, ReadSigner);
        Some(Message(f[0].value, algs, encap[0].value, content, certificates, signers))
  }

  /** ContentInfo (section 3 of RFC 5652): its type and what it holds. */
  function ReadContentInfo(der: bytes): Option<(bytes, Any)> {
    var a :- DecodeOnly(der);
    var f :- Parts(a, 0x30);
    if |f| != 2 || f[0].tag != 0x06 || f[1].tag != 0xA0 then None
    else
      var inner :- DecodeOnly(f[1].value);
      Some((f[0].value, inner))
  }

  function ReadMessage(der: bytes): Option<Message> {
    var (contentType, inner) :- ReadContentInfo(der);
    if contentType == Dotted(1, 2, [840, 113549] + [1, 7, 2]) then ReadSignedData(inner) else None
  }

  /** A key-transport recipient named by issuer and serial (section 6.2.1 of RFC 5652). */
  datatype Recipient = Recipient(version: bytes, issuer: bytes, serial: bytes, keyAlg: Alg, key: bytes)

  function ReadRecipient(a: Any): Option<Recipient> {
    var f :- Parts(a, 0x30);
    if |f| != 4 || f[0].tag != 0x02 || f[3].tag != 0x04 then None
    else
      var rid :- Parts(f[1], 0x30);
      if |rid| != 2 || rid[0].tag != 0x30 || rid[1].tag != 0x02 then None
      else
        var alg :- ReadAlg(f[2]);
        Some(Recipient(f[0].value, rid[0].value, rid[1].value, alg, f[3].value))
  }

  /** EnvelopedData (section 6.1 of RFC 5652). */
  datatype Enveloped = Enveloped(
    version: bytes, recipients: seq<Recipient>, contentType: bytes, cipher: Alg, ciphertext: bytes)

  function ReadEnveloped(a: Any): Option<Enveloped> {
    var f :- Parts(a, 0x30);
    if |f| != 3 || f[0].tag != 0x02 then None
    else
      var infos :- Parts(f[1], 0x31);
      var recipients :- Each(infos, ReadRecipient);
      var encrypted :- Parts(f[2], 0x30);
      if |encrypted| != 3 || encrypted[0].tag != 0x06 || encrypted[2].tag != 0x80 then None
      else
        var cipher :- ReadAlg(encrypted[1]);
        Some(Enveloped(f[0].value, recipients, encrypted[0].value, cipher, encrypted[2].value))
  }

  function ReadEnvelope(der: bytes): Option<Enveloped> {
    var (contentType, inner) :- ReadContentInfo(der);
    if contentType == Dotted(1, 2, [840, 113549] + [1, 7, 3]) then ReadEnveloped(inner) else None
  }

  // ----- what it finds -----

  lemma PartsOf(tag: Tag, f: seq<Any>)
    requires Fits(Any(tag, EncodeAll(f)))
    ensures Parts(Any(tag, EncodeAll(f)), tag as int) == Some(f)
    ensures forall i :: 0 <= i < |f| ==> Fits(f[i])
  {
    FieldsRoundTrip(f);
  }

  lemma AlgReads(a: Algorithm)
    requires Fits(AlgorithmToAny(a))
    ensures ReadAlg(AlgorithmToAny(a)) == Some(Alg(a.oid, if a.parameters.Some? then [a.parameters.value] else []))
  {
    var tail := if a.parameters.Some? then [a.parameters.value] else [];
    PartsOf(SEQUENCE, [Any(OID, a.oid)] + tail);
    assert ([Any(OID, a.oid)] + tail)[1..] == tail;
  }

  lemma One<T>(a: Any, read: Any -> Option<T>, value: T)
    requires read(a) == Some(value)
    ensures Each([a], read) == Some([value])
  {
    assert [a][1..] == [] && [value] + [] == [value];
    assert Each([a][1..], read) == Some([]);
  }

  /** The attributes as the client sees them. */
  function Attrs(attrs: seq<Attribute>): (r: seq<Attr>)
    ensures |r| == |attrs|
  {
    seq(|attrs|, i requires 0 <= i < |attrs| => Attr(attrs[i].oid, attrs[i].values))
  }

  lemma AttrReads(a: Attribute)
    requires Fits(AttributeToAny(a))
    ensures ReadAttr(AttributeToAny(a)) == Some(Attr(a.oid, a.values))
  {
    var f := [Any(OID, a.oid), Any(SET, EncodeAll(a.values))];
    PartsOf(SEQUENCE, f);
    assert Fits(f[1]);
    PartsOf(SET, a.values);
  }

  lemma {:induction false} AttrsRead(attrs: seq<Attribute>)
    requires forall i :: 0 <= i < |attrs| ==> Fits(AttributeToAny(attrs[i]))
    ensures Each(ToAnys(attrs), ReadAttr) == Some(Attrs(attrs))
  {
    if attrs != [] {
      AttrReads(attrs[0]);
      AttrsRead(attrs[1..]);
      AttrsTail(attrs);
    }
  }

  lemma AttrsTail(attrs: seq<Attribute>)
    requires attrs != []
    ensures ToAnys(attrs)[0] == AttributeToAny(attrs[0]) && ToAnys(attrs)[1..] == ToAnys(attrs[1..])
    ensures Attrs(attrs) == [Attr(attrs[0].oid, attrs[0].values)] + Attrs(attrs[1..])
  {
  }

  lemma SidReads(cert: Certificate)
    requires Fits(Struct([NameToAny(cert.issuer), Any(INTEGER, cert.serial)]))
    ensures Parts(Struct([NameToAny(cert.issuer), Any(INTEGER, cert.serial)]), 0x30) ==
      Some([Any(0x30, cert.issuer.rdns), Any(0x02, cert.serial)])
  {
    PartsOf(SEQUENCE, [NameToAny(cert.issuer), Any(INTEGER, cert.serial)]);
  }

  /** SHA-256, and RSA with SHA-256, each with NULL parameters. */
  function Sha256Alg(): Alg { Alg(Dotted(2, 16, [840, 1] + [101, 3, 4, 2, 1]), [Any(0x05, [])]) }

  function RsaSha256Alg(): Alg { Alg(Dotted(1, 2, [840, 113549] + [1, 1, 11]), [Any(0x05, [])]) }

  lemma SignerReads(cert: Certificate, sorted: seq<Attribute>, signature: bytes)
    requires Fits(Struct(SignerInfoFields(cert, sorted, signature)))
    ensures ReadSigner(Struct(SignerInfoFields(cert, sorted, signature))) ==
      Some(Signer([1], cert.issuer.rdns, cert.serial, Sha256Alg(), Attrs(sorted), RsaSha256Alg(), signature))
  {
    var f := SignerInfoFields(cert, sorted, signature);
    PartsOf(SEQUENCE, f);
    assert Fits(f[1]) && Fits(f[2]) && Fits(f[3]) && Fits(f[4]);
    SidReads(cert);
    AlgsRead();
    AttrSetReads(sorted);
  }

  lemma AlgsRead()
    ensures ReadAlg(AlgorithmToAny(SHA256_ALG)) == Some(Sha256Alg())
    ensures ReadAlg(AlgorithmToAny(Algorithm(SHA256_WITH_RSA, Some(Any(NULL, []))))) == Some(RsaSha256Alg())
  {
    var rsa := Algorithm(SHA256_WITH_RSA, Some(Any(NULL, [])));
    StructSize([Any(OID, SHA256_ALG.oid), Any(NULL, [])], 9);
    StructSize([Any(OID, rsa.oid), Any(NULL, [])], 9);
    assert AlgorithmToAny(SHA256_ALG) == Struct([Any(OID, SHA256_ALG.oid), Any(NULL, [])]);
    assert AlgorithmToAny(rsa) == Struct([Any(OID, rsa.oid), Any(NULL, [])]);
    AlgReads(SHA256_ALG);
    AlgReads(rsa);
    DigestsAndKeys();
  }

  lemma AttrSetReads(sorted: seq<Attribute>)
    requires |EncodeAttributes(sorted)| <= MAX_LEN
    ensures DecodeAll(EncodeAttributes(sorted)) == Some(ToAnys(sorted)) &&
      Each(ToAnys(sorted), ReadAttr) == Some(Attrs(sorted))
  {
    FieldsRoundTrip(ToAnys(sorted));
    forall i | 0 <= i < |sorted| ensures Fits(AttributeToAny(sorted[i])) { assert Fits(ToAnys(sorted)[i]); }
    AttrsRead(sorted);
  }

  lemma ContentReads(content: Option<bytes>)
    requires Fits(Struct(ContentFields(content)))
    ensures Parts(Struct(ContentFields(content)), 0x30) == Some(ContentFields(content))
    ensures ContentFields(content)[0] == Any(0x06, Dotted(1, 2, [840, 113549] + [1, 7, 1]))
    ensures ReadContent(ContentFields(content)) == Some(content)
  {
    var f := ContentFields(content);
    PartsOf(SEQUENCE, f);
    ContentTypes();
    if content.Some? {
      assert Fits(f[1]);
      OnlyRoundTrip(Any(OCTET_STRING, content.value));
    }
  }

  lemma OneOf(tag: Tag, a: Any)
    requires Fits(Any(tag, EncodeAny(a)))
    ensures Parts(Any(tag, EncodeAny(a)), tag as int) == Some([a]) && DecodeAll(EncodeAny(a)) == Some([a]) && Fits(a)
  {
    assert [a][1..] == [] && EncodeAny(a) + [] == EncodeAny(a);
    assert EncodeAll([a]) == EncodeAny(a) + EncodeAll([a][1..]) == EncodeAny(a);
    PartsOf(tag, [a]);
    assert [a][0] == a;
  }

  lemma InfoReads(contentType: Oid, inner: Any)
    requires Fits(ContentInfoToAny(contentType, inner))
    ensures ReadContentInfo(EncodeAny(ContentInfoToAny(contentType, inner))) == Some((contentType, inner)) &&
      Fits(inner)
  {
    var f := [Any(OID, contentType), Any(CONTEXT_0_CONSTRUCTED, EncodeAny(inner))];
    OnlyRoundTrip(ContentInfoToAny(contentType, inner));
    PartsOf(SEQUENCE, f);
    assert Fits(f[1]);
    OnlyRoundTrip(inner);
  }

  lemma SignedDataReads(cert: Certificate, content: Option<bytes>, sorted: seq<Attribute>, signature: bytes)
    requires Fits(Struct(SignedDataFields(cert, content, sorted, signature)))
    ensures ReadSignedData(Struct(SignedDataFields(cert, content, sorted, signature))) ==
      Some(Message([1], [Sha256Alg()], Dotted(1, 2, [840, 113549] + [1, 7, 1]), content, [CertificateToAny(cert)],
                   [Signer([1], cert.issuer.rdns, cert.serial, Sha256Alg(), Attrs(sorted), RsaSha256Alg(), signature)]))
  {
    var f := SignedDataFields(cert, content, sorted, signature);
    PartsOf(SEQUENCE, f);
    assert Fits(f[1]) && Fits(f[2]) && Fits(f[3]) && Fits(f[4]);
    OneOf(SET, AlgorithmToAny(SHA256_ALG));
    AlgsRead();
    One(AlgorithmToAny(SHA256_ALG), ReadAlg, Sha256Alg());
    ContentReads(content);
    OneOf(CONTEXT_0_CONSTRUCTED, CertificateToAny(cert));
    var info := Struct(SignerInfoFields(cert, sorted, signature));
    OneOf(SET, info);
    SignerReads(cert, sorted, signature);
    One(info, ReadSigner,
        Signer([1], cert.issuer.rdns, cert.serial, Sha256Alg(), Attrs(sorted), RsaSha256Alg(), signature));
  }

  /** The values of the first attribute with this identifier. */
  function ValuesIn(attrs: seq<Attr>, oid: bytes): Option<seq<Any>> {
    if attrs == [] then None else if attrs[0].oid == oid then Some(attrs[0].values) else ValuesIn(attrs[1..], oid)
  }

  /** A single PrintableString, its octets as characters. */
  function TextIn(attrs: seq<Attr>, oid: bytes): Option<string> {
    var values :- ValuesIn(attrs, oid);
    if |values| == 1 && values[0].tag == 0x13 then Some(Characters(values[0].value)) else None
  }

  /** An octet to a character. */
  function Characters(b: bytes): string { seq(|b|, i requires 0 <= i < |b| => b[i] as char) }

  /** A single OCTET STRING. */
  function OctetsIn(attrs: seq<Attr>, oid: bytes): Option<bytes> {
    var values :- ValuesIn(attrs, oid);
    if |values| == 1 && values[0].tag == 0x04 then Some(values[0].value) else None
  }

  lemma {:induction false} ValuesAreFound(attrs: seq<Attribute>, oid: Oid)
    ensures ValuesIn(Attrs(attrs), oid) == match Find(attrs, oid) case None => None case Some(a) => Some(a.values)
  {
    if attrs != [] {
      ValuesAreFound(attrs[1..], oid);
      assert Attrs(attrs)[1..] == Attrs(attrs[1..]);
    }
  }

  /** What is in a list, the client finds in any order of it. */
  lemma Found(list: seq<Attribute>, sorted: seq<Attribute>, a: Attribute)
    requires DistinctOids(list) && multiset(sorted) == multiset(list) && a in list
    ensures ValuesIn(Attrs(sorted), a.oid) == Some(a.values)
  {
    FindMember(list, a);
    FindOrderIrrelevant(list, sorted, a.oid);
    ValuesAreFound(sorted, a.oid);
  }

  lemma TextFound(list: seq<Attribute>, sorted: seq<Attribute>, oid: Oid, value: string)
    requires DistinctOids(list) && multiset(sorted) == multiset(list)
    requires Exchange.TextAttribute(oid, value) in list && Printable(value)
    ensures TextIn(Attrs(sorted), oid) == Some(value)
  {
    Found(list, sorted, Exchange.TextAttribute(oid, value));
    PrintableIsAscii(value);
  }

  lemma PrintableIsAscii(value: string)
    requires Printable(value)
    ensures Characters(EncodeUtf8(value)) == value
  {
    assert forall i :: 0 <= i < |value| ==> PrintableChar(value[i]);
    AsciiOctets(value);
  }

  lemma OctetsFound(list: seq<Attribute>, sorted: seq<Attribute>, oid: Oid, value: bytes)
    requires DistinctOids(list) && multiset(sorted) == multiset(list)
    requires Exchange.OctetsAttribute(oid, value) in list
    ensures OctetsIn(Attrs(sorted), oid) == Some(value)
  {
    Found(list, sorted, Exchange.OctetsAttribute(oid, value));
  }

  lemma NotFound(list: seq<Attribute>, sorted: seq<Attribute>, oid: Oid)
    requires DistinctOids(list) && multiset(sorted) == multiset(list) && forall a :: a in list ==> a.oid != oid
    ensures ValuesIn(Attrs(sorted), oid) == None
  {
    FindIsMember(list, oid);
    FindOrderIrrelevant(list, sorted, oid);
    ValuesAreFound(sorted, oid);
  }

  /**
   Version 1, one SHA-256 signer named by its certificate's issuer and serial, content of type data, as RFC 5652 has
   it.
   */
  ghost predicate Conforms(m: Message, cert: Certificate, content: Option<bytes>) {
    && m.version == [1] && m.digests == [Sha256Alg()] && m.contentType == Dotted(1, 2, [840, 113549] + [1, 7, 1])
    && m.content == content && m.certificates == [CertificateToAny(cert)]
    && |m.signers| == 1 && m.signers[0].version == [1]
    && m.signers[0].issuer == cert.issuer.rdns && m.signers[0].serial == cert.serial
    && m.signers[0].digest == Sha256Alg() && m.signers[0].signatureAlg == RsaSha256Alg()
  }

  /** The content type attribute names the type of the content, and the digest attribute has its SHA-256. */
  ghost predicate Bound(p: Primitives, m: Message)
    requires |m.signers| == 1
  {
    && ValuesIn(m.signers[0].attrs, Dotted(1, 2, [840, 113549] + [1, 9, 3])) == Some([Any(0x06, m.contentType)])
    && (m.content.Some? ==>
          OctetsIn(m.signers[0].attrs, Dotted(1, 2, [840, 113549] + [1, 9, 4])) ==
            Some(p.hash(Sha256, m.content.value)))
  }

  /**
   What a client finds in any message the server's printer makes: a SignedData
   as RFC 5652 has it, signed over its attributes as a SET, which are bound to
   the content.
   */
  lemma MessageOnTheWire(p: Primitives, key: bytes, cert: Certificate, content: Option<bytes>, attrs: seq<Attribute>,
                         der: bytes)
    returns (m: Message, sorted: seq<Attribute>)
    requires ScepAttributes(attrs) && SignedReply(p, key, cert, content, attrs) == Ok(der)
    ensures ReadMessage(der) == Some(m) && Conforms(m, cert, content) && Bound(p, m)
    ensures m.signers[0].attrs == Attrs(sorted) && multiset(sorted) == multiset(AttributeList(p, content, attrs))
    ensures p.sign(key, EncodeAny(Any(0x31, EncodeAll(ToAnys(sorted))))) == Some(m.signers[0].signature)
  {
    var signature;
    sorted, signature := Verify.SignedParts(p, key, cert, content, attrs, der);
    Verify.SortedIsValid(p, content, attrs);
    var inner := Struct(SignedDataFields(cert, content, sorted, signature));
    FitsOfToDer(ContentInfoToAny(ID_SIGNED_DATA, inner));
    InfoReads(ID_SIGNED_DATA, inner);
    SignedDataReads(cert, content, sorted, signature);
    ContentTypes();
    m := ReadMessage(der).value;
    BoundBySigning(p, content, attrs, sorted, m);
  }

  lemma BoundBySigning(p: Primitives, content: Option<bytes>, attrs: seq<Attribute>, sorted: seq<Attribute>, m: Message)
    requires ScepAttributes(attrs) && multiset(sorted) == multiset(AttributeList(p, content, attrs))
    requires |m.signers| == 1 && m.signers[0].attrs == Attrs(sorted) && m.content == content
    requires m.contentType == Dotted(1, 2, [840, 113549] + [1, 7, 1])
    ensures Bound(p, m)
  {
    var list := AttributeList(p, content, attrs);
    AttributeListDistinct(p, content, attrs);
    ContentTypes();
    CmsAttributes();
    assert ContentTypeAttribute() in list;
    Found(list, sorted, ContentTypeAttribute());
    if content.Some? {
      assert list[|attrs|] == DigestAttribute(p, content.value);
      Found(list, sorted, DigestAttribute(p, content.value));
    }
  }

  // ----- every reply -----

  /** What the SCEP attributes say, by the identifiers and numbers of section 3.2 of RFC 8894. */
  ghost predicate States(attrs: seq<Attr>, status: string, failInfo: Option<string>, id: string, recipient: bytes,
                         sender: bytes) {
    && TextIn(attrs, Dotted(2, 16, [840, 1] + ([113733] + [1, 9, 2]))) == Some("3")
    && TextIn(attrs, Dotted(2, 16, [840, 1] + ([113733] + [1, 9, 3]))) == Some(status)
    && TextIn(attrs, Dotted(2, 16, [840, 1] + ([113733] + [1, 9, 4]))) == failInfo
    && OctetsIn(attrs, Dotted(2, 16, [840, 1] + ([113733] + [1, 9, 5]))) == Some(sender)
    && OctetsIn(attrs, Dotted(2, 16, [840, 1] + ([113733] + [1, 9, 6]))) == Some(recipient)
    && TextIn(attrs, Dotted(2, 16, [840, 1] + ([113733] + [1, 9, 7]))) == Some(id)
  }

  lemma InList(p: Primitives, content: Option<bytes>, attrs: seq<Attribute>)
    requires ScepAttributes(attrs)
    ensures DistinctOids(AttributeList(p, content, attrs))
    ensures forall a :: a in attrs ==> a in AttributeList(p, content, attrs)
    ensures forall a :: a in AttributeList(p, content, attrs) ==>
      a in attrs || a.oid == ID_CONTENT_TYPE || a.oid == ID_MESSAGE_DIGEST
  {
    AttributeListDistinct(p, content, attrs);
  }

  /** The six lookups, by the constants the printer uses. */
  lemma StatesBy(attrs: seq<Attr>, status: string, failInfo: Option<string>, id: string, recipient: bytes,
                 sender: bytes)
    requires TextIn(attrs, ID_MESSAGE_TYPE) == Some("3") && TextIn(attrs, ID_PKI_STATUS) == Some(status)
    requires TextIn(attrs, ID_FAIL_INFO) == failInfo && TextIn(attrs, ID_TRANSACTION_ID) == Some(id)
    requires OctetsIn(attrs, ID_SENDER_NONCE) == Some(sender) && OctetsIn(attrs, ID_RECIPIENT_NONCE) == Some(recipient)
    ensures States(attrs, status, failInfo, id, recipient, sender)
  {
    ScepAttributeIdentifiers();
  }

  /** A list with a text for the type and the ID and the two nonces. */
  lemma CommonFound(list: seq<Attribute>, sorted: seq<Attribute>, status: string, id: string, recipient: bytes,
                    nonce: bytes)
    requires DistinctOids(list) && multiset(sorted) == multiset(list) && Printable(id) && status in {"0", "2"}
    requires Exchange.TextAttribute(ID_MESSAGE_TYPE, "3") in list &&
      Exchange.TextAttribute(ID_PKI_STATUS, status) in list
    requires Exchange.TextAttribute(ID_TRANSACTION_ID, id) in list
    requires Exchange.OctetsAttribute(ID_SENDER_NONCE, nonce) in list
    requires Exchange.OctetsAttribute(ID_RECIPIENT_NONCE, recipient) in list
    ensures var attrs := Attrs(sorted);
      && TextIn(attrs, ID_MESSAGE_TYPE) == Some("3") && TextIn(attrs, ID_PKI_STATUS) == Some(status)
      && TextIn(attrs, ID_TRANSACTION_ID) == Some(id)
      && OctetsIn(attrs, ID_SENDER_NONCE) == Some(nonce) && OctetsIn(attrs, ID_RECIPIENT_NONCE) == Some(recipient)
  {
    Exchange.Numbers();
    TextFound(list, sorted, ID_MESSAGE_TYPE, "3");
    TextFound(list, sorted, ID_PKI_STATUS, status);
    TextFound(list, sorted, ID_TRANSACTION_ID, id);
    OctetsFound(list, sorted, ID_SENDER_NONCE, nonce);
    OctetsFound(list, sorted, ID_RECIPIENT_NONCE, recipient);
  }

  lemma SuccessStates(p: Primitives, content: Option<bytes>, id: string, recipient: bytes, nonce: bytes,
                      sorted: seq<Attribute>)
    requires Printable(id) && ScepAttributes(Exchange.SuccessTexts(id, recipient, nonce))
    requires multiset(sorted) == multiset(AttributeList(p, content, Exchange.SuccessTexts(id, recipient, nonce)))
    ensures States(Attrs(sorted), "0", None, id, recipient, nonce)
  {
    SuccessMembers(id, recipient, nonce);
    ListStates(p, content, Exchange.SuccessTexts(id, recipient, nonce), sorted, id, recipient, nonce);
  }

  lemma ListStates(p: Primitives, content: Option<bytes>, attrs: seq<Attribute>, sorted: seq<Attribute>, id: string,
                   recipient: bytes, nonce: bytes)
    requires ScepAttributes(attrs) && multiset(sorted) == multiset(AttributeList(p, content, attrs)) && Printable(id)
    requires IsSuccess(attrs, id, recipient, nonce)
    ensures States(Attrs(sorted), "0", None, id, recipient, nonce)
  {
    var list := AttributeList(p, content, attrs);
    InList(p, content, attrs);
    CommonFound(list, sorted, "0", id, recipient, nonce);
    NoFailInfo(attrs, list, sorted);
    StatesBy(Attrs(sorted), "0", None, id, recipient, nonce);
  }

  ghost predicate IsSuccess(attrs: seq<Attribute>, id: string, recipient: bytes, nonce: bytes) {
    && |attrs| == 5 && attrs[0] == Exchange.TextAttribute(ID_MESSAGE_TYPE, "3")
    && attrs[1] == Exchange.TextAttribute(ID_PKI_STATUS, "0")
    && attrs[2] == Exchange.TextAttribute(ID_TRANSACTION_ID, id)
    && attrs[3] == Exchange.OctetsAttribute(ID_SENDER_NONCE, nonce)
    && attrs[4] == Exchange.OctetsAttribute(ID_RECIPIENT_NONCE, recipient)
  }

  lemma SuccessMembers(id: string, recipient: bytes, nonce: bytes)
    ensures IsSuccess(Exchange.SuccessTexts(id, recipient, nonce), id, recipient, nonce)
  {
  }

  lemma NoFailInfo(attrs: seq<Attribute>, list: seq<Attribute>, sorted: seq<Attribute>)
    requires |attrs| == 5 && DistinctOids(list) && multiset(sorted) == multiset(list)
    requires attrs[0].oid == ID_MESSAGE_TYPE && attrs[1].oid == ID_PKI_STATUS && attrs[2].oid == ID_TRANSACTION_ID
    requires attrs[3].oid == ID_SENDER_NONCE && attrs[4].oid == ID_RECIPIENT_NONCE
    requires forall a :: a in list ==> a in attrs || a.oid == ID_CONTENT_TYPE || a.oid == ID_MESSAGE_DIGEST
    ensures TextIn(Attrs(sorted), ID_FAIL_INFO) == None
  {
    Exchange.SuccessShape(attrs);
    IdentifiersDiffer();
    NotFound(list, sorted, ID_FAIL_INFO);
  }

  lemma FailureStates(p: Primitives, id: string, recipient: bytes, fail: FailInfo, nonce: bytes, sorted: seq<Attribute>)
    requires Printable(id) && ScepAttributes(Exchange.FailureTexts(id, recipient, fail, nonce))
    requires multiset(sorted) == multiset(AttributeList(p, None, Exchange.FailureTexts(id, recipient, fail, nonce)))
    ensures States(Attrs(sorted), "2", Some(Exchange.Code(fail)), id, recipient, nonce)
  {
    var attrs := Exchange.FailureTexts(id, recipient, fail, nonce);
    var list := AttributeList(p, None, attrs);
    InList(p, None, attrs);
    CommonFound(list, sorted, "2", id, recipient, nonce);
    Exchange.Numbers();
    TextFound(list, sorted, ID_FAIL_INFO, Exchange.Code(fail));
    StatesBy(Attrs(sorted), "2", Some(Exchange.Code(fail)), id, recipient, nonce);
  }

  /** What the printer was given, for either kind of reply. */
  lemma FailureTextsAre(id: string, recipient: bytes, fail: FailInfo, nonce: bytes)
    ensures FailureAttrs(id, recipient, fail, nonce) ==
      if Printable(id) then Ok(Exchange.FailureTexts(id, recipient, fail, nonce)) else Err(CryptoError)
    ensures ScepAttributes(Exchange.FailureTexts(id, recipient, fail, nonce))
  {
    Exchange.FailureList(id, recipient, fail, nonce);
    Exchange.FailureIsScep(Exchange.FailureTexts(id, recipient, fail, nonce));
  }

  lemma SuccessTextsAre(id: string, recipient: bytes, nonce: bytes)
    ensures SuccessAttrs(id, recipient, nonce) ==
      if Printable(id) then Ok(Exchange.SuccessTexts(id, recipient, nonce)) else Err(CryptoError)
    ensures ScepAttributes(Exchange.SuccessTexts(id, recipient, nonce))
  {
    Exchange.SuccessList(id, recipient, nonce);
    Exchange.SuccessIsScep(Exchange.SuccessTexts(id, recipient, nonce));
  }

  lemma FailureWasPrinted(s: Scep.Services, ca: AppState.CertificateAuthority, r: Verify.ParsedRequest, fail: FailInfo,
                          nonce: bytes, reply: bytes) returns (attrs: seq<Attribute>)
    requires Scep.FailureReply(s, ca, r, fail, nonce) == Ok(reply)
    ensures FailureAttrs(r.transactionId, r.senderNonce, fail, nonce) == Ok(attrs)
    ensures SignedReply(s.p, ca.key, ca.cert, None, attrs) == Ok(reply)
  {
    attrs := FailureAttrs(r.transactionId, r.senderNonce, fail, nonce).value;
  }

  lemma SuccessWasPrinted(s: Scep.Services, ca: AppState.CertificateAuthority, r: Verify.ParsedRequest,
                          cert: Certificate, rand: Envelope.Randomness, nonce: bytes, reply: bytes)
    returns (envelope: bytes, attrs: seq<Attribute>)
    requires rand.Valid() && Scep.SuccessReply(s, ca, r, cert, rand, nonce) == Ok(reply)
    ensures Scep.CertsOnly(cert).Ok?
    ensures Envelope.EnvelopeFor(s.p, Scep.CertsOnly(cert).value, r.recipient, rand) == Ok(envelope)
    ensures SuccessAttrs(r.transactionId, r.senderNonce, nonce) == Ok(attrs)
    ensures SignedReply(s.p, ca.key, ca.cert, Some(envelope), attrs) == Ok(reply)
  {
    envelope := Envelope.EnvelopeFor(s.p, Scep.CertsOnly(cert).value, r.recipient, rand).value;
    attrs := SuccessAttrs(r.transactionId, r.senderNonce, nonce).value;
  }

  /** A message by the CA with this content, saying this of the request. */
  ghost predicate Tells(p: Primitives, reply: bytes, m: Message, ca: AppState.CertificateAuthority,
                        r: Verify.ParsedRequest, nonce: bytes, status: string, failInfo: Option<string>) {
    && ReadMessage(reply) == Some(m) && Conforms(m, ca.cert, m.content) && Bound(p, m)
    && States(m.signers[0].attrs, status, failInfo, r.transactionId, r.senderNonce, nonce)
  }

  lemma FailureOnTheWire(s: Scep.Services, ca: AppState.CertificateAuthority, r: Verify.ParsedRequest, fail: FailInfo,
                         nonce: bytes, reply: bytes) returns (m: Message)
    requires Scep.FailureReply(s, ca, r, fail, nonce) == Ok(reply)
    ensures Tells(s.p, reply, m, ca, r, nonce, "2", Some(Exchange.Code(fail))) && m.content == None
  {
    var attrs := FailureWasPrinted(s, ca, r, fail, nonce, reply);
    var sorted;
    FailureTextsAre(r.transactionId, r.senderNonce, fail, nonce);
    m, sorted := MessageOnTheWire(s.p, ca.key, ca.cert, None, attrs, reply);
    FailureStates(s.p, r.transactionId, r.senderNonce, fail, nonce, sorted);
  }

  lemma SuccessOnTheWire(s: Scep.Services, ca: AppState.CertificateAuthority, r: Verify.ParsedRequest,
                         cert: Certificate, rand: Envelope.Randomness, nonce: bytes, reply: bytes)
    returns (m: Message, envelope: bytes)
    requires rand.Valid() && Scep.SuccessReply(s, ca, r, cert, rand, nonce) == Ok(reply)
    ensures Tells(s.p, reply, m, ca, r, nonce, "0", None) && m.content == Some(envelope)
    ensures Scep.CertsOnly(cert).Ok?
    ensures Envelope.EnvelopeFor(s.p, Scep.CertsOnly(cert).value, r.recipient, rand) == Ok(envelope)
  {
    var attrs, sorted;
    envelope, attrs := SuccessWasPrinted(s, ca, r, cert, rand, nonce, reply);
    SuccessTextsAre(r.transactionId, r.senderNonce, nonce);
    m, sorted := MessageOnTheWire(s.p, ca.key, ca.cert, Some(envelope), attrs, reply);
    SuccessStates(s.p, Some(envelope), r.transactionId, r.senderNonce, nonce, sorted);
  }

  lemma OutcomeOnTheWire(s: Scep.Services, r: Verify.ParsedRequest, o: Exchange.Outcome, w: Scep.World, reply: bytes)
    returns (m: Message)
    requires w.Valid()
    requires o.Failed? ==> Scep.FailureReply(s, o.ca, r, o.fail, w.nonce) == Ok(reply)
    requires o.Succeeded? ==> Scep.SuccessReply(s, o.ca, r, o.cert, w.envelope, w.nonce) == Ok(reply)
    ensures o.Failed? ==> m.content == None && Tells(s.p, reply, m, o.ca, r, w.nonce, "2", Some(Exchange.Code(o.fail)))
    ensures o.Succeeded? ==> m.content.Some? && Tells(s.p, reply, m, o.ca, r, w.nonce, "0", None)
  {
    match o
    case Failed(_, fail) => m := FailureOnTheWire(s, o.ca, r, fail, w.nonce, reply);
    case Succeeded(_, cert) =>
      var envelope;
      m, envelope := SuccessOnTheWire(s, o.ca, r, cert, w.envelope, w.nonce, reply);
  }

  /**
   What a client finds in any reply: a SignedData by the CA whose pkiStatus is 0
   exactly when a certificate was issued and 2 otherwise; then failInfo is 1 for
   a request that could not be opened or read and 2 for one that was rejected or
   could not be issued. It carries content exactly in the first case.
   */
  lemma ReplyOnTheWire(st: AppState.State, s: Scep.Services, profile: string, body: bytes, w: Scep.World,
                       r: Verify.ParsedRequest, reply: bytes) returns (o: Exchange.Outcome, m: Message)
    requires w.Valid() && Scep.Reply(st, s, profile, body, w) == Ok(reply) && Verify.ParseAndVerify(s.p, body) == Ok(r)
    ensures profile in st.profiles && st.profiles[profile].caId in st.cas && o.ca == st.cas[st.profiles[profile].caId]
    ensures o.Succeeded? <==> exists cert :: Exchange.Issued(st, s, profile, body, w, cert)
    ensures m.content.Some? <==> o.Succeeded?
    ensures o.Succeeded? ==> Tells(s.p, reply, m, o.ca, r, w.nonce, "0", None)
    ensures o.Failed? ==>
      Tells(s.p, reply, m, o.ca, r, w.nonce, "2", Some(if Exchange.Unreadable(s, o.ca, r) then "1" else "2"))
  {
    o := Exchange.ReplyOfOutcome(st, s, profile, body, w, r, reply);
    OutcomeIs(st, s, profile, body, w, r, o);
    m := OutcomeOnTheWire(s, r, o, w, reply);
  }

  lemma OutcomeIs(st: AppState.State, s: Scep.Services, profile: string, body: bytes, w: Scep.World,
                  r: Verify.ParsedRequest, o: Exchange.Outcome)
    requires w.Valid() && Exchange.OutcomeOf(st, s, profile, body, w) == Some(o)
    requires Verify.ParseAndVerify(s.p, body) == Ok(r)
    ensures profile in st.profiles && st.profiles[profile].caId in st.cas && o.ca == st.cas[st.profiles[profile].caId]
    ensures o.Succeeded? <==> exists cert :: Exchange.Issued(st, s, profile, body, w, cert)
    ensures o.Failed? ==> Exchange.Code(o.fail) == if Exchange.Unreadable(s, o.ca, r) then "1" else "2"
  {
    Exchange.OutcomeCa(st, s, profile, body, w, o);
    Exchange.OutcomeFails(st, s, profile, body, w, r, o);
  }

  // ----- what a success carries -----

  /**
   What a client finds in the envelope: AES-256 in CBC mode under a key wrapped
   with RSA for the recipient, named by its own issuer and serial, however long.
   */
  lemma EnvelopeOnTheWire(p: Primitives, plaintext: bytes, r: Envelope.Recipient, rand: Envelope.Randomness, der: bytes)
    returns (wrapped: bytes)
    requires rand.Valid() && Envelope.EnvelopeFor(p, plaintext, r, rand) == Ok(der)
    ensures p.wrap(r.publicKey, rand.cek, rand.padding) == Some(wrapped)
    ensures ReadEnvelope(der) == Some(Enveloped(
      [0], [Recipient([0], r.issuer.rdns, r.serial, Alg(Dotted(1, 2, [840, 113549] + [1, 1, 1]), [Any(0x05, [])]),
                      wrapped)],
      Dotted(1, 2, [840, 113549] + [1, 7, 1]),
      Alg(Dotted(2, 16, [840, 1] + [101, 3, 4, 1, 42]), [Any(0x04, rand.iv)]),
      CbcEncrypt(p, Aes256, rand.cek, rand.iv, Pad(plaintext, 16))))
  {
    wrapped := p.wrap(r.publicKey, rand.cek, rand.padding).value;
    var ktri := Envelope.OutRecipient(r, wrapped);
    var e := Envelope.OutEncrypted(rand.iv, CbcEncrypt(p, Aes256, rand.cek, rand.iv, Pad(plaintext, 16)));
    var inner := Envelope.OutEnveloped([Envelope.RecipientToAny(ktri)], e);
    FitsOfToDer(ContentInfoToAny(ID_ENVELOPED_DATA, inner));
    InfoReads(ID_ENVELOPED_DATA, inner);
    EnvelopedReads(r, wrapped, rand.iv, e);
    ContentTypes();
  }

  lemma RecipientReads(r: Envelope.Recipient, wrapped: bytes)
    requires Fits(Envelope.RecipientToAny(Envelope.OutRecipient(r, wrapped)))
    ensures ReadRecipient(Envelope.RecipientToAny(Envelope.OutRecipient(r, wrapped))) ==
      Some(Recipient([0], r.issuer.rdns, r.serial, Alg(Dotted(1, 2, [840, 113549] + [1, 1, 1]), [Any(0x05, [])]),
                     wrapped))
  {
    var rid := Envelope.IssuerAndSerial(r.issuer, r.serial);
    var alg := Algorithm(RSA_ENCRYPTION, Some(Any(NULL, [])));
    var f := [Envelope.VersionToAny(0), Envelope.RidToAny(rid), AlgorithmToAny(alg), Any(OCTET_STRING, wrapped)];
    PartsOf(SEQUENCE, f);
    assert Fits(f[1]) && Fits(f[2]);
    PartsOf(SEQUENCE, [NameToAny(r.issuer), Any(INTEGER, r.serial)]);
    RsaAlgReads();
  }

  lemma RsaAlgReads()
    ensures ReadAlg(AlgorithmToAny(Algorithm(RSA_ENCRYPTION, Some(Any(NULL, []))))) ==
      Some(Alg(Dotted(1, 2, [840, 113549] + [1, 1, 1]), [Any(0x05, [])]))
  {
    var rsa := Algorithm(RSA_ENCRYPTION, Some(Any(NULL, [])));
    StructSize([Any(OID, rsa.oid), Any(NULL, [])], 9);
    assert AlgorithmToAny(rsa) == Struct([Any(OID, rsa.oid), Any(NULL, [])]);
    AlgReads(rsa);
    DigestsAndKeys();
  }

  lemma EncryptedReads(iv: bytes, ciphertext: bytes) returns (f: seq<Any>)
    requires Fits(Envelope.EncryptedToAny(Envelope.OutEncrypted(iv, ciphertext)))
    ensures Parts(Envelope.EncryptedToAny(Envelope.OutEncrypted(iv, ciphertext)), 0x30) == Some(f)
    ensures |f| == 3 && f[0] == Any(0x06, Dotted(1, 2, [840, 113549] + [1, 7, 1])) && f[2] == Any(0x80, ciphertext)
    ensures ReadAlg(f[1]) == Some(Alg(Dotted(2, 16, [840, 1] + [101, 3, 4, 1, 42]), [Any(0x04, iv)]))
  {
    var e := Envelope.OutEncrypted(iv, ciphertext);
    f := [Any(OID, e.contentType), AlgorithmToAny(e.alg), Any(CONTEXT_0, ciphertext)];
    assert [Any(OID, e.contentType), AlgorithmToAny(e.alg)] + EncodeOptional(CONTEXT_0, e.content) == f;
    PartsOf(SEQUENCE, f);
    assert Fits(f[1]);
    AlgReads(e.alg);
    ContentTypes();
    AesIdentifiers();
  }

  lemma EnvelopedReads(r: Envelope.Recipient, wrapped: bytes, iv: bytes, e: Envelope.EncryptedContent)
    requires e.content.Some? && e == Envelope.OutEncrypted(iv, e.content.value)
    requires Fits(Envelope.OutEnveloped([Envelope.RecipientToAny(Envelope.OutRecipient(r, wrapped))], e))
    ensures ReadEnveloped(Envelope.OutEnveloped([Envelope.RecipientToAny(Envelope.OutRecipient(r, wrapped))], e)) ==
      Some(Enveloped(
        [0], [Recipient([0], r.issuer.rdns, r.serial, Alg(Dotted(1, 2, [840, 113549] + [1, 1, 1]), [Any(0x05, [])]),
                        wrapped)],
        Dotted(1, 2, [840, 113549] + [1, 7, 1]),
        Alg(Dotted(2, 16, [840, 1] + [101, 3, 4, 1, 42]), [Any(0x04, iv)]), e.content.value))
  {
    var recipient := Envelope.RecipientToAny(Envelope.OutRecipient(r, wrapped));
    var f := Envelope.OutFields(recipient, e);
    assert f[0] == Any(0x02, [0]);
    PartsOf(SET, [recipient]);
    assert [recipient][0] == recipient;
    RecipientReads(r, wrapped);
    One(recipient, ReadRecipient, ReadRecipient(recipient).value);
    var g := EncryptedReads(iv, e.content.value);
  }

  lemma CertsOnlyReads(cert: Certificate)
    requires Fits(Struct(Scep.CertsOnlyFields(cert)))
    ensures ReadSignedData(Struct(Scep.CertsOnlyFields(cert))) ==
      Some(Message([1], [], Dotted(1, 2, [840, 113549] + [1, 7, 1]), None, [CertificateToAny(cert)], []))
  {
    var f := Scep.CertsOnlyFields(cert);
    ContentTypes();
    PartsOf(SEQUENCE, f);
    assert Fits(f[2]) && Fits(f[3]);
    PartsOf(SEQUENCE, [Any(OID, ID_DATA)]);
    OneOf(CONTEXT_0_CONSTRUCTED, CertificateToAny(cert));
  }

  /** And in its payload: the certificate, no digest, no content and no signer. */
  lemma CertsOnlyOnTheWire(cert: Certificate, der: bytes)
    requires Scep.CertsOnly(cert) == Ok(der)
    ensures ReadMessage(der) ==
      Some(Message([1], [], Dotted(1, 2, [840, 113549] + [1, 7, 1]), None, [CertificateToAny(cert)], []))
  {
    var inner := Struct(Scep.CertsOnlyFields(cert));
    FitsOfToDer(ContentInfoToAny(ID_SIGNED_DATA, inner));
    InfoReads(ID_SIGNED_DATA, inner);
    ContentTypes();
    CertsOnlyReads(cert);
  }

  // ----- certificates -----

  /** A certificate (section 4.1 of RFC 5280), each field by its octets. */
  datatype Cert = Cert(
    version: Option<bytes>, serial: bytes, issuer: bytes, validity: bytes, subject: bytes, keyAlg: bytes, key: bytes,
    extensions: Option<bytes>, signature: bytes)

  /** The field with this tag number, if it comes next, and the fields after it. */
  function Next(f: seq<Any>, tag: nat): (Option<bytes>, seq<Any>) {
    if f != [] && f[0].tag as int == tag then (Some(f[0].value), f[1..]) else (None, f)
  }

  function ReadTbs(tbs: seq<Any>, signature: bytes): Option<Cert> {
    var (version, f) := Next(tbs, 0xA0);
    if |f| < 6 || f[0].tag != 0x02 || f[1].tag != 0x30 || f[2].tag != 0x30 || f[3].tag != 0x30 || f[4].tag != 0x30
    then None
    else
      var key :- Parts(f[5], 0x30);
      if |key| != 2 || key[0].tag != 0x30 || key[1].tag != 0x03 then None
      else
        var (extensions, rest) := Next(f[6..], 0xA3);
        if rest != [] then None
        else Some(Cert(version, f[0].value, f[2].value, f[3].value, f[4].value, key[0].value, key[1].value, extensions,
                       signature))
  }

  function ReadCert(a: Any): Option<Cert> {
    var top :- Parts(a, 0x30);
    if |top| != 3 || top[1].tag != 0x30 || top[2].tag != 0x03 then None
    else
      var tbs :- Parts(top[0], 0x30);
      ReadTbs(tbs, top[2].value)
  }

  lemma TbsReads(c: Certificate, tbs: seq<Any>)
    requires tbs ==
      EncodeOptional(CONTEXT_0_CONSTRUCTED, c.version) + (TbsFields(c) + EncodeOptional(EXTENSIONS, c.extensions))
    requires Fits(KeyInfoToAny(c))
    ensures ReadTbs(tbs, c.signature) == Some(Cert(c.version, c.serial, c.issuer.rdns, c.validity, c.subject.rdns,
                                                   c.keyAlg, c.keyBits, c.extensions, c.signature))
  {
    var tail := TbsFields(c) + EncodeOptional(EXTENSIONS, c.extensions);
    OptionalRoundTrip(CONTEXT_0_CONSTRUCTED, c.version, tail);
    OptionalRoundTrip(EXTENSIONS, c.extensions, []);
    assert tail[6..] == EncodeOptional(EXTENSIONS, c.extensions) + [];
    PartsOf(SEQUENCE, [Any(SEQUENCE, c.keyAlg), Any(BIT_STRING, c.keyBits)]);
  }

  /** Every certificate the server prints, a client reads field by field. */
  lemma CertificateOnTheWire(c: Certificate)
    requires Fits(CertificateToAny(c))
    ensures ReadCert(CertificateToAny(c)) == Some(Cert(c.version, c.serial, c.issuer.rdns, c.validity, c.subject.rdns,
                                                       c.keyAlg, c.keyBits, c.extensions, c.signature))
  {
    var top := [TbsToAny(c), Any(SEQUENCE, c.outerAlg), Any(BIT_STRING, c.signature)];
    PartsOf(SEQUENCE, top);
    assert Fits(top[0]);
    var tbs :=
      EncodeOptional(CONTEXT_0_CONSTRUCTED, c.version) + (TbsFields(c) + EncodeOptional(EXTENSIONS, c.extensions));
    PartsOf(SEQUENCE, tbs);
    var v := |EncodeOptional(CONTEXT_0_CONSTRUCTED, c.version)|;
    assert tbs[v + 5] == TbsFields(c)[5] == KeyInfoToAny(c);
    TbsReads(c, tbs);
  }
}
