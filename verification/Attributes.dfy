/**
 SCEP signed attributes (section 3.2.1 of RFC 8894): their values, the set they
 form in a SignerInfo, and the attributes every reply carries.
 */
module Attributes {
  import opened Wrappers
  import opened Der
  import opened Asn1
  import opened Text
  import SetOf

  const ID_CONTENT_TYPE: Oid := [0x2A, 0x86, 0x48, 0x86, 0xF7, 0x0D, 0x01, 0x09, 0x03]
  const ID_MESSAGE_DIGEST: Oid := [0x2A, 0x86, 0x48, 0x86, 0xF7, 0x0D, 0x01, 0x09, 0x04]
  const ID_MESSAGE_TYPE: Oid := [0x60, 0x86, 0x48, 0x01, 0x86, 0xF8, 0x45, 0x01, 0x09, 0x02]
  const ID_PKI_STATUS: Oid := [0x60, 0x86, 0x48, 0x01, 0x86, 0xF8, 0x45, 0x01, 0x09, 0x03]
  const ID_FAIL_INFO: Oid := [0x60, 0x86, 0x48, 0x01, 0x86, 0xF8, 0x45, 0x01, 0x09, 0x04]
  const ID_SENDER_NONCE: Oid := [0x60, 0x86, 0x48, 0x01, 0x86, 0xF8, 0x45, 0x01, 0x09, 0x05]
  const ID_RECIPIENT_NONCE: Oid := [0x60, 0x86, 0x48, 0x01, 0x86, 0xF8, 0x45, 0x01, 0x09, 0x06]
  const ID_TRANSACTION_ID: Oid := [0x60, 0x86, 0x48, 0x01, 0x86, 0xF8, 0x45, 0x01, 0x09, 0x07]

  datatype MessageType = CertRep | RenewalReq | PkcsReq | GetCertInitial | GetCert | GetCrl {
    function AsValue(): string {
      match this
      case CertRep => "3"
      case RenewalReq => "17"
      case PkcsReq => "19"
      case GetCertInitial => "20"
      case GetCert => "21"
      case GetCrl => "22"
    }
  }

  function MessageTypeFromValue(s: string): Result<MessageType> {
    var t := Trim(s);
    if t == "3" then Ok(CertRep)
    else if t == "17" then Ok(RenewalReq)
    else if t == "19" then Ok(PkcsReq)
    else if t == "20" then Ok(GetCertInitial)
    else if t == "21" then Ok(GetCert)
    else if t == "22" then Ok(GetCrl)
    else Err(BadRequest)
  }

  datatype FailInfo = BadAlg | BadMessageCheck | BadRequestInfo | BadTime | BadCertId {
    function AsValue(): string {
      match this
      case BadAlg => "0"
      case BadMessageCheck => "1"
      case BadRequestInfo => "2"
      case BadTime => "3"
      case BadCertId => "4"
    }
  }

  const SUCCESS := "0"
  const FAILURE := "2"

  // ----- one attribute -----

  datatype Attribute = Attribute(oid: Oid, values: seq<Any>)

  function AttributeToAny(a: Attribute): Any {
    Struct([Any(OID, a.oid), Any(SET, EncodeAll(a.values))])
  }

  function AttributeDer(a: Attribute): bytes { EncodeAny(AttributeToAny(a)) }

  function AttributeFromAny(a: Any): Option<Attribute> {
    var f :- Fields(a, SEQUENCE);
    if |f| != 2 || f[0].tag != OID || !ValidOid(f[0].value) then None
    else
      var values :- Fields(f[1], SET);
      var sorted :- SetOf.FromSeq(values, EncodeAny);
      Some(Attribute(f[0].value, sorted))
  }

  /** The values of an attribute form a DER set. */
  ghost predicate ValidAttribute(a: Attribute) { SetOf.Ordered(a.values, EncodeAny) }

  lemma AttributeRoundTrip(a: Attribute)
    requires ValidAttribute(a) && Fits(AttributeToAny(a))
    ensures AttributeFromAny(AttributeToAny(a)) == Some(a)
  {
    var f := [Any(OID, a.oid), Any(SET, EncodeAll(a.values))];
    FieldsOfStruct(SEQUENCE, f);
    assert Fits(f[1]);
    FieldsOfStruct(SET, a.values);
    SetOf.OrderedFixed(a.values, EncodeAny);
  }

  // ----- the attribute set -----

  function ToAnys(attrs: seq<Attribute>): (r: seq<Any>)
    ensures |r| == |attrs|
    ensures forall i :: 0 <= i < |r| ==> r[i] == AttributeToAny(attrs[i])
  {
    seq(|attrs|, i requires 0 <= i < |attrs| => AttributeToAny(attrs[i]))
  }

  function FromAnys(anys: seq<Any>): Option<seq<Attribute>> {
    if anys == [] then Some([])
    else
      var a :- AttributeFromAny(anys[0]);
      var rest :- FromAnys(anys[1..]);
      Some([a] + rest)
  }

  /** Content octets of the SET OF: what is signed, under tag SET. */
  function EncodeAttributes(attrs: seq<Attribute>): bytes { EncodeAll(ToAnys(attrs)) }

  function DecodeAttributes(content: bytes): Option<seq<Attribute>> {
    var anys :- DecodeAll(content);
    var attrs :- FromAnys(anys);
    SetOf.FromSeq(attrs, AttributeDer)
  }

  /** A DER set of attributes, each with a DER set of values. */
  ghost predicate ValidSet(attrs: seq<Attribute>) {
    && SetOf.Ordered(attrs, AttributeDer)
    && forall i :: 0 <= i < |attrs| ==> ValidAttribute(attrs[i])
  }

  lemma {:induction false} AttributesFromAnys(attrs: seq<Attribute>)
    requires forall i :: 0 <= i < |attrs| ==> ValidAttribute(attrs[i]) && Fits(AttributeToAny(attrs[i]))
    ensures FromAnys(ToAnys(attrs)) == Some(attrs)
  {
    if attrs != [] {
      AttributeRoundTrip(attrs[0]);
      AttributesFromAnys(attrs[1..]);
      AnysOfTail(attrs);
    }
  }

  lemma AnysOfTail(attrs: seq<Attribute>)
    requires attrs != []
    ensures ToAnys(attrs)[0] == AttributeToAny(attrs[0]) && ToAnys(attrs)[1..] == ToAnys(attrs[1..])
    ensures attrs == [attrs[0]] + attrs[1..]
  {
  }

  /** A set of attributes is recovered from its encoding. */
  lemma AttributesRoundTrip(attrs: seq<Attribute>)
    requires ValidSet(attrs) && |EncodeAttributes(attrs)| <= MAX_LEN
    ensures DecodeAttributes(EncodeAttributes(attrs)) == Some(attrs)
  {
    FieldsRoundTrip(ToAnys(attrs));
    forall i | 0 <= i < |attrs| ensures Fits(AttributeToAny(attrs[i])) {
      assert Fits(ToAnys(attrs)[i]);
    }
    AttributesFromAnys(attrs);
    SetOf.OrderedFixed(attrs, AttributeDer);
  }

  /** The encoding is injective: equal signed octets mean equal attributes. */
  lemma AttributesInjective(a: seq<Attribute>, b: seq<Attribute>)
    requires ValidSet(a) && ValidSet(b)
    requires EncodeAttributes(a) == EncodeAttributes(b) && |EncodeAttributes(a)| <= MAX_LEN
    ensures a == b
  {
    AttributesRoundTrip(a);
    AttributesRoundTrip(b);
  }

  lemma {:induction false} FromAnysValid(anys: seq<Any>)
    requires FromAnys(anys).Some?
    ensures forall i :: 0 <= i < |FromAnys(anys).value| ==> ValidAttribute(FromAnys(anys).value[i])
  {
    if anys != [] {
      var f := Fields(anys[0], SEQUENCE).value;
      SetOf.FromSeqOrdered(Fields(f[1], SET).value, EncodeAny);
      FromAnysValid(anys[1..]);
    }
  }

  /** Whatever order it arrives in, a decoded set is in DER order. */
  lemma DecodedIsValid(content: bytes)
    requires DecodeAttributes(content).Some?
    ensures ValidSet(DecodeAttributes(content).value)
  {
    var attrs := FromAnys(DecodeAll(content).value).value;
    FromAnysValid(DecodeAll(content).value);
    SetOf.FromSeqOrdered(attrs, AttributeDer);
    var s := SetOf.FromSeq(attrs, AttributeDer).value;
    forall i | 0 <= i < |s| ensures ValidAttribute(s[i]) {
      assert s[i] in multiset(s);
      assert s[i] in attrs;
    }
  }

  // ----- lookup -----

  function Find(attrs: seq<Attribute>, oid: Oid): Option<Attribute> {
    if attrs == [] then None
    else if attrs[0].oid == oid then Some(attrs[0])
    else Find(attrs[1..], oid)
  }

  ghost predicate DistinctOids(attrs: seq<Attribute>) {
    forall i, j :: 0 <= i < j < |attrs| ==> attrs[i].oid != attrs[j].oid
  }

  lemma {:induction false} FindIsMember(attrs: seq<Attribute>, oid: Oid)
    ensures Find(attrs, oid).Some? ==> Find(attrs, oid).value in attrs && Find(attrs, oid).value.oid == oid
    ensures Find(attrs, oid).None? <==> forall a :: a in attrs ==> a.oid != oid
  {
    if attrs != [] {
      FindIsMember(attrs[1..], oid);
      assert attrs == [attrs[0]] + attrs[1..];
    }
  }

  /** Lookup gives the first attribute of its identifier, where one comes more than once. */
  lemma {:induction false} FindFirst(attrs: seq<Attribute>, oid: Oid, a: Attribute)
    ensures Find(attrs, oid) == Some(a) <==>
      exists i :: 0 <= i < |attrs| && attrs[i] == a && a.oid == oid && forall j :: 0 <= j < i ==> attrs[j].oid != oid
  {
    if attrs != [] && attrs[0].oid != oid {
      FindFirst(attrs[1..], oid, a);
      if i :| 0 <= i < |attrs[1..]| && attrs[1..][i] == a && forall j :: 0 <= j < i ==> attrs[1..][j].oid != oid {
        assert attrs[i + 1] == a;
        assert forall j :: 1 <= j < i + 1 ==> attrs[j] == attrs[1..][j - 1];
      }
      if i :| 0 <= i < |attrs| && attrs[i] == a && a.oid == oid && forall j :: 0 <= j < i ==> attrs[j].oid != oid {
        assert attrs[1..][i - 1] == a;
        assert forall j :: 0 <= j < i - 1 ==> attrs[1..][j] == attrs[j + 1];
      }
    }
  }

  /** With distinct identifiers, looking up a member gives that member. */
  lemma FindMember(attrs: seq<Attribute>, a: Attribute)
    requires DistinctOids(attrs) && a in attrs
    ensures Find(attrs, a.oid) == Some(a)
  {
    FindIsMember(attrs, a.oid);
  }

  /** With distinct identifiers, lookup does not depend on order. */
  lemma FindOrderIrrelevant(xs: seq<Attribute>, ys: seq<Attribute>, oid: Oid)
    requires DistinctOids(xs) && multiset(xs) == multiset(ys)
    ensures Find(xs, oid) == Find(ys, oid)
  {
    FindIsMember(xs, oid);
    FindIsMember(ys, oid);
    forall a ensures a in xs <==> a in ys {
      assert a in multiset(xs) <==> a in multiset(ys);
    }
  }

  /** An attribute's identifier can be read off its encoding. */
  lemma IdentifierOfDer(a: Attribute, b: Attribute)
    requires AttributeDer(a) == AttributeDer(b)
    ensures a.oid == b.oid
  {
    SameContent(AttributeToAny(a), AttributeToAny(b));
    var x, y := [Any(OID, a.oid), Any(SET, EncodeAll(a.values))], [Any(OID, b.oid), Any(SET, EncodeAll(b.values))];
    assert EncodeAll(x) == EncodeAny(x[0]) + EncodeAll(x[1..]) && EncodeAll(y) == EncodeAny(y[0]) + EncodeAll(y[1..]);
    AnyPrefixFree(x[0], y[0], EncodeAll(x[1..]), EncodeAll(y[1..]));
  }

  /** Distinct identifiers give distinct encodings, so the set can always be built. */
  lemma DistinctBuildsSet(attrs: seq<Attribute>)
    requires DistinctOids(attrs)
    ensures SetOf.FromSeq(attrs, AttributeDer).Some?
  {
    forall i, j | 0 <= i < j < |attrs| ensures AttributeDer(attrs[i]) != AttributeDer(attrs[j]) {
      if AttributeDer(attrs[i]) == AttributeDer(attrs[j]) {
        IdentifierOfDer(attrs[i], attrs[j]);
      }
    }
    SetOf.FromSeqOrdered(attrs, AttributeDer);
  }

  // ----- typed values -----

  /** The PrintableString repertoire. */
  predicate PrintableChar(c: char) {
    || 'a' <= c <= 'z' || 'A' <= c <= 'Z' || '0' <= c <= '9'
    || c == ' ' || c == '\'' || c == '(' || c == ')' || c == '+' || c == ',' || c == '-'
    || c == '.' || c == '/' || c == ':' || c == '=' || c == '?'
  }

  predicate Printable(s: string) { forall i :: 0 <= i < |s| ==> PrintableChar(s[i]) }

  /** The 74 characters of section 41.4 of ITU-T X.680. */
  lemma RepertoireExactly(c: char)
    ensures PrintableChar(c) <==> c in {
      'A', 'B', 'C', 'D', 'E', 'F', 'G', 'H', 'I', 'J', 'K', 'L', 'M', 'N', 'O', 'P', 'Q', 'R', 'S', 'T', 'U', 'V',
      'W', 'X', 'Y', 'Z', 'a', 'b', 'c', 'd', 'e', 'f', 'g', 'h', 'i', 'j', 'k', 'l', 'm', 'n', 'o', 'p', 'q', 'r',
      's', 't', 'u', 'v', 'w', 'x', 'y', 'z', '0', '1', '2', '3', '4', '5', '6', '7', '8', '9', ' ', '\'', '(',
      ')', '+', ',', '-', '.', '/', ':', '=', '?'}
  {
  }

  function SingleValue(oid: Oid, value: Any): Result<Attribute> {
    var values :- SetOf.Insert([], value, EncodeAny).OkOr(CryptoError);
    Ok(Attribute(oid, values))
  }

  function PrintableAttribute(oid: Oid, value: string): Result<Attribute> {
    if Printable(value) then SingleValue(oid, Any(PRINTABLE_STRING, EncodeUtf8(value))) else Err(CryptoError)
  }

  function OctetAttribute(oid: Oid, value: bytes): Result<Attribute> {
    SingleValue(oid, Any(OCTET_STRING, value))
  }

  /** `decode_as` for the three string types, in the order they are tried. */
  function StringOf(value: Any): Option<string> {
    var s :- DecodeUtf8(value.value);
    if (value.tag == PRINTABLE_STRING && Printable(s)) || value.tag == UTF8_STRING
       || (value.tag == IA5_STRING && Ascii(s))
    then Some(s) else None
  }

  /** A string value reads as exactly the text whose UTF-8 it is, under the three tags, within what each can hold. */
  lemma StringExactly(value: Any, s: string)
    ensures StringOf(value) == Some(s) <==>
      && value.value == EncodeUtf8(s)
      && ((value.tag == 19 && Printable(s)) || value.tag == 12
          || (value.tag == 22 && forall i :: 0 <= i < |s| ==> s[i] as int < 0x80))
  {
    Utf8RoundTrip(s);
    if DecodeUtf8(value.value).Some? { Utf8Canonical(value.value); }
  }

  function ReadString(attrs: seq<Attribute>, oid: Oid): Result<string> {
    var a :- Find(attrs, oid).OkOr(BadRequest);
    if a.values == [] then Err(BadRequest) else StringOf(a.values[0]).OkOr(BadRequest)
  }

  function ReadOctets(attrs: seq<Attribute>, oid: Oid): Result<bytes> {
    var a :- Find(attrs, oid).OkOr(BadRequest);
    if a.values == [] || a.values[0].tag != OCTET_STRING then Err(BadRequest) else Ok(a.values[0].value)
  }

  /** Octets are read exactly from a first value that is an OCTET STRING of them. */
  lemma OctetsExactly(attrs: seq<Attribute>, oid: Oid, octets: bytes)
    ensures ReadOctets(attrs, oid) == Ok(octets) <==>
      && Find(attrs, oid).Some? && Find(attrs, oid).value.values != []
      && Find(attrs, oid).value.values[0] == Any(0x04, octets)
    ensures ReadOctets(attrs, oid).Err? ==> ReadOctets(attrs, oid).error == BadRequest
  {
  }

  /** A built string attribute reads back as the string; building fails exactly outside the repertoire. */
  lemma PrintableReadsBack(attrs: seq<Attribute>, oid: Oid, value: string)
    requires PrintableAttribute(oid, value).Ok? ==> Find(attrs, oid) == Some(PrintableAttribute(oid, value).value)
    ensures PrintableAttribute(oid, value).Ok? <==> Printable(value)
    ensures Printable(value) ==>
      ReadString(attrs, oid) == Ok(value) && ValidAttribute(PrintableAttribute(oid, value).value)
  {
    Utf8RoundTrip(value);
  }

  lemma OctetsReadBack(attrs: seq<Attribute>, oid: Oid, value: bytes)
    requires Find(attrs, oid) == Some(OctetAttribute(oid, value).value)
    ensures ReadOctets(attrs, oid) == Ok(value) && ValidAttribute(OctetAttribute(oid, value).value)
  {
  }

  /** The numbers of section 3.2.1.2 of RFC 8894. */
  lemma MessageTypeNumbers(t: MessageType)
    ensures t.AsValue() == match t
      case CertRep => "3"
      case RenewalReq => "17"
      case PkcsReq => "19"
      case GetCertInitial => "20"
      case GetCert => "21"
      case GetCrl => "22"
  {
  }

  /** A message type is read from its number, with white space around it or not, and from nothing else. */
  lemma MessageTypeExactly(text: string, t: MessageType)
    ensures MessageTypeFromValue(text) == Ok(t) <==> Trim(text) == t.AsValue()
    ensures MessageTypeFromValue(text).Err? ==> MessageTypeFromValue(text).error == BadRequest
  {
    assert |"3"| == 1 && |"17"| == 2 && "17"[1] == '7' && "19"[1] == '9';
    assert "20"[1] == '0' && "21"[1] == '1' && "22"[1] == '2';
  }

  lemma MessageTypeRoundTrip(t: MessageType, before: string, after: string)
    requires Blank(before) && Blank(after)
    ensures MessageTypeFromValue(before + t.AsValue() + after) == Ok(t) && Printable(t.AsValue())
    ensures MessageTypeFromValue(t.AsValue()) == Ok(t)
  {
    var s := t.AsValue();
    BlanksAreTrimmed(before, s, after);
    MessageTypeExactly(before + s + after, t);
    BlanksAreTrimmed("", s, "");
    assert "" + s + "" == s;
    MessageTypeExactly(s, t);
  }

  // ----- what a reply carries (`src/scep/protocol.rs`) -----

  function SuccessAttrs(transactionId: string, recipientNonce: bytes, nonce: bytes): Result<seq<Attribute>> {
    var messageType :- PrintableAttribute(ID_MESSAGE_TYPE, CertRep.AsValue());
    var status :- PrintableAttribute(ID_PKI_STATUS, SUCCESS);
    var id :- PrintableAttribute(ID_TRANSACTION_ID, transactionId);
    var sender :- OctetAttribute(ID_SENDER_NONCE, nonce);
    var recipient :- OctetAttribute(ID_RECIPIENT_NONCE, recipientNonce);
    Ok([messageType, status, id, sender, recipient])
  }

  function FailureAttrs(transactionId: string, recipientNonce: bytes, fail: FailInfo,
                        nonce: bytes): Result<seq<Attribute>> {
    var messageType :- PrintableAttribute(ID_MESSAGE_TYPE, CertRep.AsValue());
    var status :- PrintableAttribute(ID_PKI_STATUS, FAILURE);
    var info :- PrintableAttribute(ID_FAIL_INFO, fail.AsValue());
    var id :- PrintableAttribute(ID_TRANSACTION_ID, transactionId);
    var sender :- OctetAttribute(ID_SENDER_NONCE, nonce);
    var recipient :- OctetAttribute(ID_RECIPIENT_NONCE, recipientNonce);
    Ok([messageType, status, info, id, sender, recipient])
  }

  /** The identifiers a SCEP message uses beside the two CMS ones, told apart by their last octet. */
  lemma IdentifiersDiffer()
    ensures forall x, y :: x in ReplyOids() && y in ReplyOids() && x != y ==>
      x[9] != y[9]
    ensures ID_CONTENT_TYPE != ID_MESSAGE_DIGEST
    ensures forall x :: x in ReplyOids() ==> |x| == 10 && x != ID_CONTENT_TYPE && x != ID_MESSAGE_DIGEST
  {
    assert ID_CONTENT_TYPE[8] != ID_MESSAGE_DIGEST[8];
  }

  ghost function ReplyOids(): set<Oid> {
    {ID_MESSAGE_TYPE, ID_PKI_STATUS, ID_FAIL_INFO, ID_SENDER_NONCE, ID_RECIPIENT_NONCE, ID_TRANSACTION_ID}
  }
}
