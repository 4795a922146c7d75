# blapki: a verified model of the SCEP server

blapki is a SCEP certificate server (RFC 8894). This project models the parts
that are its own: the CMS messages it prints and reads, the enrolment flow over
two database tables, the two revocation views of the certificate table, the key
material formats, the configuration wiring and the Intune token cache. Libraries
appear as functions with laws (`Primitives.Lawful`) or as records of readers and
builders (`Scep.Services`, `Keystore.KeyReaders`, `AppState.Surroundings`);
randomness, clock readings, Intune's verdict and the fate of each database call
are parameters.

Nothing is assumed about the encodings. DER tags, lengths and content octets,
SET OF order, UTF-8, base64, PEM lines, hexadecimal, decimal, civil dates and
PKCS#7 padding are written out, and each reader is a function of octets that does
not know the printer.

## How the files fit together

- `Wrappers`, `Bits`, `Der`, `SetOf`, `Text`, `Base64`: octets and their encodings.
- `Primitives`, `BlockCipher`: the laws of the library cryptography; padding and chaining.
- `Asn1`, `Envelope`, `Attributes`, `Sign`, `Verify`, `Authenticity`: the message pipeline.
- `Foreign`: the messages and envelopes other implementations may send, and that nothing else is read.
- `Client`: a client that reads every field of the server's messages by the standards' own numbers.
- `Pem`, `Keystore`: the PEM scanner, the bundle and the three forms of inline material.
- `SerialNumbers`, `Timestamps`, `Repository`, `Revocation`: the tables and the two views.
- `Challenge`, `AppState`, `Scep`, `Exchange`, `Device`: the state a server runs with, one request, its reply, the way from the device and back.
- `Enrolment`, `Lifetime`: any number of requests interleaved, and what becomes of the certificates they were sent.
- `Scenarios`: concrete servers, requests and runs.
- `TokenCache`: the Intune caches.

Code that updates state in the source is a class or a method here (the
repository, the two revocation responders, the builders, the scanner, the
validators, `pki_operation` itself, the loops of `build_state`), and each such
method is proved equal to a function of its inputs or of the old tables. The
lemmas are about those functions.

## What turned out to be conditional

Each of these is a property the source or its documentation suggests that holds
only under a condition a caller can check; the condition is proved exact.

- A success reply is read back by the server's own parser exactly when the
  requester's serial has at most 20 octets, because the envelope printer leaves
  the serial uncapped and the parser does not. The reply verifies either way, and
  a client that reads without the cap always opens it.
  `Envelope.LongSerialIsRefused` gives a 40-octet serial that is refused.
- Where signatures distinguish keys, a reply verifies exactly when the CA signs
  with the key its certificate carries; loading key material does not compare the
  two, and `Keystore.BundleRoundTrip` loads any pair.
  `Scenarios.MismatchedReplyFails` is a server whose reply does not verify.
- A request that is not refused is answered exactly when its transaction ID fits
  a PrintableString and the library calls of the reply succeed. An ID outside
  that repertoire is read in the other string types: the request is admitted, the
  certificate issued and stored, and the request still ends in an error.
  `Scenarios.UnderscoreIsIssuedUnanswered` is such a request.
- The CRL of a CA fails as a whole when one stored revocation time is readable
  but outside 1970 to 9999, while the responder reports that certificate revoked
  now. `Revocation.EarlyRevocation` is a run of two calls that leads there.
- DER that is itself UTF-8 text with the BEGIN marker does not load as bare DER.
  No DER of 128 or more content octets is such text; `Keystore.TextualCertificate`
  is a smaller certificate that is.
- Validation of the settings does not promise that inline key material resolves:
  one half of it may be declared beside a key file. `AppState.HalfDeclared` gives
  validated settings that load in no surroundings.
- The digest is checked only when content is present, so any accepted octets
  stripped of their content are still accepted, with no envelope. Any content that
  is present is the one that was signed.
- A transaction row names the profile of its certificate exactly when the run
  that recorded the ID first and the run that issued were started under the same
  profile. `Scenarios.ReusedIdKeepsFirstProfile` is a run from the idle machine
  after which they differ.
- The responder knows the certificate of a success reply, whatever happens later,
  exactly when its insert reached the database: the reply is sent either way.
  `Scenarios.DeliveredAndUnknown` is a run whose insert did not.
- A renewal is recorded with message type PKCSReq like any enrolment.

## Model

| member | source | states |
|---|---|---|
| Der.LengthRoundTrip | src/crypto/envelope.rs:176 | A printed length is read back as that length and takes as many octets as were printed |
| Der.LengthsReach | src/crypto/sign.rs:73 | Lengths below 2^32 are printed so that they read back, and no other |
| Der.KnownTagExactly | src/crypto/verify.rs:58-72 | The tags the decoder knows, by their numbers |
| Der.AnyPrefixFree | src/crypto/verify.rs:184-190 | No DER encoding is a prefix of another, so concatenated values split in one way only |
| Der.AllRoundTrip | src/crypto/envelope.rs:172-176 | A list of values is recovered from its concatenated encodings |
| Der.AllCanonical | src/crypto/verify.rs:123-126 | Octets the reader accepts are the only encoding of what it read: re-encoding gives them back |
| SetOf.FromSeqOrdered | src/scep/attributes.rs:141-145 | Inserting one by one succeeds exactly when no two encodings agree, keeps the same elements and ends in strict DER order |
| SetOf.BelowExactly | src/scep/attributes.rs:141-145 | The order is that of the first octet that differs, an end coming before any octet |
| SetOf.InsertionOrderIrrelevant | src/crypto/sign.rs:57-61 | The set, or the refusal to build one, does not depend on the insertion order |
| Bits.OctetBit | src/challenge/mod.rs:106-115 | A bit of the exclusive or is set where the two differ, a bit of the or where either is set |
| BlockCipher.PadRoundTrip | src/crypto/envelope.rs:129-131 | Padding fills whole blocks and is undone by unpadding, for every length and both block sizes |
| BlockCipher.UnpadIsPad | src/crypto/envelope.rs:301-326 | Only a padded text unpads, and it is the padding of what comes back |
| BlockCipher.CbcRoundTrip | src/crypto/envelope.rs:306-326 | Chained decryption undoes chained encryption of whole blocks for every cipher, key and initial vector |
| Asn1.CertificateRoundTrip | src/crypto/verify.rs:35-36 | Reading a printed certificate gives the certificate, with no cap on its serial |
| Asn1.StrictCertificateExactly | src/ca/keystore.rs:107-111 | The strict reader takes octets for a certificate exactly when they are its DER and its serial has at most 20 octets |
| Asn1.SubjectKeyIdentifierExactly | src/crypto/envelope.rs:260-265 | The key identifier of a certificate is the octets of its one such extension, wherever it stands; with none or several there is none |
| Envelope.FillBytes | src/crypto/envelope.rs:124-127 | The buffer ends up holding the random octets |
| Envelope.BuildFor | src/crypto/envelope.rs:120-177 | Filling the buffers, wrapping the key and inserting the recipient produces the message whose reading back and whose failures are proved below |
| Envelope.EnvelopeFailsExactly | src/crypto/envelope.rs:133-137 | Printing an envelope fails exactly when the key wrap fails or the message is longer than DER lengths reach |
| Envelope.EnvelopeParses | src/crypto/envelope.rs:79-98 | A printed envelope is accepted by a reader with the serial cap exactly within it, and by one without always, and then read as one key-transport recipient and the AES-256 ciphertext |
| Envelope.EnvelopeRoundTrip | src/crypto/envelope.rs:56-74 | For every plaintext, content key, initial vector and capped recipient, the holder of the private key opens the parsed envelope to exactly the plaintext, under any certificate |
| Envelope.UncappedRoundTrip | src/crypto/envelope.rs:41-45 | A client that reads without the cap finds its serial exactly as sent and recovers the plaintext, for every recipient |
| Envelope.CapIsTwenty | src/crypto/envelope.rs:181-191 | A printed envelope is parsed exactly for a recipient serial of at most 20 octets |
| Envelope.LongSerialIsRefused | src/crypto/envelope.rs:41-45 | A concrete recipient with a 40-octet serial whose envelope is printed and then refused by the parser |
| Envelope.OutEnvelopedRoundTrip | src/crypto/envelope.rs:179-191 | The reader's view of the printed structure, field by field, refused only for the serial cap |
| Envelope.SuiteOpens | src/crypto/envelope.rs:270-332 | For each of the five ciphers by its identifier, with keys of 16, 24, 32, 24 and 8 octets and an initial vector of 16 or 8: whatever was encrypted under a key wrapped to the CA for the recipient chosen is what opening returns |
| Envelope.OthersAreRefused | src/crypto/envelope.rs:61-72 | Any other cipher, absent content or parameters that are no OCTET STRING are refused |
| Envelope.MatchesExactly | src/crypto/envelope.rs:254-267 | A recipient names the CA by its issuer and serial, or by the identifier in the one key identifier extension of its certificate |
| Envelope.SelectionIsChosen | src/crypto/envelope.rs:202-221 | Selection succeeds exactly when there is a first key-transport recipient naming the CA or a lone one, and returns that one |
| Envelope.ChoiceIgnoresWrappedKeys | src/crypto/envelope.rs:193-197 | Lists with the same kinds and identifiers have the same position selected, whatever the wrapped keys |
| Envelope.UnwrapAlwaysYieldsAKey | src/crypto/envelope.rs:231-252 | For every wrapped key and each of the five ciphers the unwrap returns a key of exactly the cipher's length |
| Envelope.OpenFailsUniformly | src/crypto/envelope.rs:61-74 | Opening fails for a public reason, or because the text decrypted is no padding of anything: decrypted under the unwrapped key where its length fits the cipher, and under the synthetic key otherwise, never because of the unwrap; the error is one and the same |
| Attributes.AttributesRoundTrip | src/crypto/verify.rs:78-84 | A DER set of attributes is recovered from its encoding |
| Attributes.AttributesInjective | src/crypto/verify.rs:123-126 | Equal signed octets mean equal attribute sets |
| Attributes.DecodedIsValid | src/crypto/verify.rs:78-84 | Whatever order attributes arrive in, the decoded set is in DER order with no duplicates |
| Attributes.FindMember | src/scep/attributes.rs:148-150 | With distinct identifiers, looking up a member's identifier finds that member |
| Attributes.FindFirst | src/crypto/verify.rs:223-228 | Lookup gives the first attribute of its identifier |
| Attributes.FindOrderIrrelevant | src/crypto/verify.rs:223-228 | With distinct identifiers, lookup does not depend on order |
| Attributes.DistinctBuildsSet | src/scep/attributes.rs:141-145 | Attributes with distinct identifiers can always be put in a set, whatever their size |
| Attributes.PrintableReadsBack | src/scep/attributes.rs:127-132 | A string attribute can be built exactly within the PrintableString repertoire, and then reads back as the string |
| Attributes.RepertoireExactly | src/scep/attributes.rs:127-132 | The characters a PrintableString can hold |
| Attributes.StringExactly | src/scep/attributes.rs:153-174 | A value reads as a text exactly when it is its UTF-8, under the tag of a PrintableString, UTF8String or IA5String and within what that holds |
| Attributes.OctetsReadBack | src/scep/attributes.rs:135-139 | A nonce attribute reads back as its octets |
| Attributes.OctetsExactly | src/scep/attributes.rs:177-189 | Octets are read exactly from a first value that is an OCTET STRING of them |
| Attributes.MessageTypeNumbers | src/scep/attributes.rs:57-67 | The number of each message type, as RFC 8894 gives it |
| Attributes.MessageTypeExactly | src/scep/attributes.rs:69-84 | A text is read as a type exactly when, its white space trimmed, it is that number |
| Attributes.MessageTypeRoundTrip | src/scep/attributes.rs:57-84 | Every message type is read back from its number, which is printable, with any white space around it |
| Sign.BuildCertRep | src/crypto/sign.rs:24-74 | The loop over the attributes signs the DER set of the caller's list with the content type and digest, and prints one signer with its certificate; refused when two attributes encode alike |
| Sign.CanonicalMessage | src/crypto/sign.rs:57-61 | The printed message does not depend on the order the attributes were passed in |
| Sign.SignedExactly | src/crypto/sign.rs:24-74 | Printing a SCEP message fails exactly when the signature fails or the message is longer than DER lengths reach |
| Verify.AcceptsExactly | src/crypto/verify.rs:114-221 | A signer naming SHA-256 or SHA-1 is accepted exactly when its key is RSA, its signature verifies with that hash and any content has the digest it claims under that hash; every other identifier is refused |
| Verify.ExtractExactly | src/crypto/verify.rs:157-182 | What a verified message must have to be taken, and what is taken from it: for the numbers 3, 17 and 19 its content must be an envelope, if there is any |
| Verify.SignedVerifiesExactly | src/crypto/verify.rs:97-155 | A printed message verifies exactly when its signature checks under the certificate it carries, for any insertion order, with or without content, and keeps content, signer certificate and attributes |
| Verify.SignedRoundTrip | src/crypto/verify.rs:97-155 | Signed with the key its certificate carries it always verifies |
| Verify.MessageRoundTrip | src/crypto/verify.rs:157-181 | Parsing a printed message is reading the caller's own attribute list: sorting and encoding leave no trace |
| Verify.FieldsRoundTripThroughMessage | src/crypto/verify.rs:157-182 | Type, transaction ID in any of the string types read, nonce, recipient and payload survive; the message is refused exactly when its type calls for an envelope and its content is none |
| Foreign.ReadExactly | src/crypto/verify.rs:58-121 | Octets are read as a signer with attributes, a certificate and content exactly when they are a SignedData of RFC 5652 whose first signer, first certificate and content those are, whatever else it carries |
| Foreign.UnsortedDecodes | src/crypto/verify.rs:78-84 | Attributes sent in any order are read as their DER set |
| Foreign.AnyMessageVerifiesExactly | src/crypto/verify.rs:97-155 | Such a message from anyone verifies exactly when its key is RSA, the signature over its sorted attributes checks with the hash it names, SHA-256 or SHA-1, and any content has the digest it claims |
| Foreign.EnvelopedExactly | src/crypto/envelope.rs:181-191 | A triple is read as an envelope exactly when it is an EnvelopedData of RFC 5652 of known versions within the cap, its recipients in any order |
| Foreign.AnyEnvelopeParses | src/crypto/envelope.rs:179-191 | Wrapped in a ContentInfo or bare, a well-formed envelope is read as it was meant |
| Foreign.AnyEnvelopeOpens | src/crypto/envelope.rs:56-74 | Whatever a sender encrypts with one of the five ciphers, however many recipients it names and whatever it adds, the server opens to the plaintext |
| Verify.StrippedReads | src/crypto/verify.rs:97-112 | Whatever octets the reader accepts, leaving their content out gives octets read as the same signer, signed attributes, signature and certificate, with no content |
| Verify.StrippedMessageIsAccepted | src/crypto/verify.rs:134-155 | Any accepted octets with their content left out are accepted with the same type, ID, nonce and requester and no envelope |
| Authenticity.SignedOctetsInjective | src/crypto/sign.rs:48-61 | Two attribute sets with the same signed octets are the same set |
| Authenticity.SequencesAreNoSets | src/ca/authority.rs:36-39 | What the same keys sign besides, certificates first, never begins as a SET, so it lies outside the signatures the two theorems below speak of |
| Authenticity.AcceptedWasSigned | src/crypto/verify.rs:123-155 | With ideal signatures over SETs and an injective hash, an accepted message under an honest key has exactly the attributes of one signing call, and any content it carries is that call's content; what else the key signs does not matter |
| Authenticity.AcceptedFieldsWereSigned | src/crypto/verify.rs:157-182 | Type, transaction ID, nonce and envelope of an accepted message are those the signer put in that one call |
| Authenticity.IdealPrimitivesExist | src/crypto/verify.rs:192-213 | For every set of signings, and any other octets that begin otherwise, there are lawful primitives under which keys sign all of these and no other SET verifies |
| Text.Utf8RoundTrip | src/ca/keystore.rs:176 | UTF-8 text is recovered from its octets |
| Text.Utf8Canonical | src/ca/keystore.rs:175-181 | Octets that decode as UTF-8 are the encoding of what they decode to |
| Text.TrimExactly | src/scep/attributes.rs:70 | Trimming takes the white space off both ends and nothing else |
| Text.WhitespaceExactly | src/ca/keystore.rs:215 | The white space that is trimmed and removed: the 25 code points of the Unicode property |
| Text.SlashesExactly | src/http/mod.rs:46-54 | What is taken off the base URL is its trailing slashes, all of them |
| Base64.RoundTrip | src/ca/keystore.rs:202-204 | Decoding undoes encoding for octets of every length |
| Base64.Canonical | src/ca/keystore.rs:216-218 | Accepted base64 is the encoding of what it decodes to, so trailing bits and padding are strict |
| Pem.ReadBody | src/ca/keystore.rs:195-201 | The inner loop joins the trimmed lines up to the first END line and leaves the cursor behind it, or at the end of the text |
| Pem.PemBlocks | src/ca/keystore.rs:184-207 | The two loops over one cursor consume each line once and collect the blocks of the text in order, leaving out bodies that are not base64 |
| Pem.ScanIsHomomorphic | src/ca/keystore.rs:184-207 | For a newline-terminated text that leaves no block open, the blocks of a concatenation are the concatenated blocks |
| Pem.IndentationIsIgnored | src/ca/keystore.rs:188-200 | Re-indenting each line in its own way never changes the blocks, whether or not the last line is terminated |
| Pem.LineEndingsAreIgnored | src/ca/keystore.rs:186 | Switching LF to CRLF never changes the blocks |
| Pem.DocumentRoundTrip | src/app.rs:142-149 | Scanning a printed document gives its label and octets, followed by the blocks of whatever follows |
| Pem.DocumentShape | src/app.rs:141-150 | The text of a document: the two boundary lines of RFC 7468 around base64 in 64 columns |
| Pem.BlocksAreShorter | src/ca/keystore.rs:202-204 | A block is strictly shorter than the text it is cut from |
| Keystore.PemExactly | src/ca/keystore.rs:175-181 | Octets are taken for PEM exactly when they are UTF-8 text with the marker in it |
| Keystore.MaterialIsText | src/ca/keystore.rs:211-214 | A value that begins with the marker, blanks before it or not, is used as it stands |
| Keystore.FirstCertificateCounts | src/ca/keystore.rs:100-109 | Of several blocks the first certificate is taken, whatever stands around it |
| Keystore.FirstKeyCounts | src/ca/keystore.rs:116-145 | Of several blocks the first private key one decides, and loads exactly the key it holds: PKCS#8, PKCS#1, or PKCS#8 decrypted with the password |
| Keystore.BareKeyExactly | src/ca/keystore.rs:147-173 | Bare DER is tried as PKCS#8, PKCS#1 and encrypted PKCS#8, in that order |
| Keystore.BundleScans | src/app.rs:141-150 | The written bundle scans to exactly the certificate block and the key block, for any octets |
| Keystore.BundleRoundTrip | src/ca/keystore.rs:47-57 | Loading the written bundle recovers certificate and key, whatever the password setting |
| Keystore.Base64IsNotPem | src/ca/keystore.rs:211-219 | Base64 with white space anywhere is never mistaken for PEM and decodes to its octets |
| Keystore.BareCertificate | src/ca/keystore.rs:100-112 | A certificate given as DER loads exactly when its DER is not itself text with the BEGIN marker |
| Keystore.LongDerIsNotText | src/ca/keystore.rs:175-181 | DER of 128 or more content octets is never taken for PEM text |
| Keystore.CertificateForms | src/ca/keystore.rs:79-97 | PEM, base64 of PEM and base64 of DER load the same certificate, the last exactly when the DER is not text with the marker |
| Keystore.KeyForms | src/ca/keystore.rs:114-124 | The same for a PKCS#8 key; its bare DER loads it exactly when it is not text with the marker, or that text's first key block is the key again; DER of 128 or more content octets always loads |
| Keystore.EveryKeyForm | src/ca/keystore.rs:114-173 | For each of the three key labels: PEM text, its base64 and base64 of the DER load exactly the key that is there, an encrypted one exactly with its password |
| Keystore.TextualCertificate | src/ca/keystore.rs:100-112 | A concrete certificate, its issuer named like the marker, that loads from PEM and not from its bare DER |
| SerialNumbers.RandomSerial | src/ca/serial.rs:9-19 | Patching the first octet in place gives the serial described by SerialIsCanonical |
| SerialNumbers.SerialIsCanonical | src/ca/serial.rs:12-18 | Every sixteen random octets give a canonical positive serial between 2^120 and 2^127 that the strict type accepts unchanged; fifteen of them are kept, and the low seven bits of the first unless they are zero |
| SerialNumbers.SerialNewExactly | src/http/crl.rs:49-53 | Unsigned octets become a canonical serial of the same value; refused are none and those beyond 20 octets |
| SerialNumbers.SerialDecimal | src/http/scep.rs:279-291 | The shift loop loses no bit up to sixteen octets and gives the decimal text of the big-endian value; longer serials become hexadecimal |
| SerialNumbers.DecimalDenotes | src/http/scep.rs:286 | Decimal text denotes the number it was made from |
| SerialNumbers.HexRoundTrip | src/http/ocsp.rs:82 | Hexadecimal text decodes to its octets |
| SerialNumbers.HexDigits | src/http/ocsp.rs:82 | The stored text has two lower-case digits for each octet |
| SerialNumbers.HexUpperRoundTrip | src/http/scep.rs:269-271 | The upper-case thumbprint text decodes to its octets |
| SerialNumbers.HexUpperDigits | src/http/scep.rs:269-271 | The thumbprint has upper-case digits |
| SerialNumbers.SerialChain | src/http/crl.rs:48-53 | Serial, stored text, lookup key and decimal form determine one another: no two issued serials share a key |
| Timestamps.CivilRoundTrip | src/http/scep.rs:306-318 | The civil date computed from a second denotes that second |
| Timestamps.MonthLengths | src/http/scep.rs:306-318 | The months of the calendar and its leap years |
| Timestamps.FormatReadsBack | src/http/scep.rs:293-304 | Reading a formatted time gives the date and time it was made from |
| Timestamps.TimeReadsBack | src/http/crl.rs:108-115 | From 1970 to 9999 a relying party reads the written date, which is a UTCTime exactly until 2049 |
| Timestamps.TimeRoundTrip | src/http/crl.rs:105-116 | Conversion succeeds exactly for 1970 to 9999 and what is read back denotes the same second |
| Timestamps.TimestampRoundTrip | src/http/crl.rs:118-123 | Format, parse, convert and read back denote the same second for every second from 1970 to 9999 |
| Timestamps.ZonesReadBack | src/http/crl.rs:118-123 | A time written with a fraction and a zone is read as the second it denotes in UTC |
| Timestamps.LowerCaseReadsBack | src/http/crl.rs:118-123 | The letters of a stored time may be lower-case |
| Repository.Pool.InsertIssued | src/db/repo.rs:30-53 | Succeeds exactly when the serial is new and the call is acknowledged, and then adds that one row |
| Repository.Pool.StatusBySerial | src/db/repo.rs:66-94 | Unknown exactly when no row has that serial and CA, revoked exactly when that row is, with its stored time and reason |
| Repository.Pool.ListRevoked | src/db/repo.rs:104-122 | Lists each revoked row of the CA once, with its time and reason, and nothing else |
| Repository.Pool.Revoke | src/db/repo.rs:125-146 | Answers true exactly when the row was valid, and then the status is the given time and reason |
| Repository.Pool.RecordTransaction | src/db/repo.rs:149-186 | Select, then update or insert, with any writes of others in between: a failed select writes nothing, and an insert that others forestalled is an error |
| Repository.KeyedForever | src/db/mod.rs:19-20 | Over every run a row stays under its own serial |
| Repository.RevokedForever | src/db/repo.rs:132-145 | Over every run a certificate row is never dropped or rewritten, and a revoked one keeps its first time and reason |
| Repository.TransactionIdentityForever | src/db/repo.rs:157-184 | Over every run a transaction row is never dropped and keeps its profile and creation time |
| Repository.RevocationsAreCounted | src/db/repo.rs:125-146 | Over every run a CA's revoked set grows by exactly the calls that revoked: those answered true and those whose answer was lost |
| Repository.ListingLength | src/db/repo.rs:104-122 | The listing has one entry per revoked certificate of the CA |
| Repository.RevokedAtMostOnce | src/db/repo.rs:132-145 | Over every run a serial is revoked at most once, for whichever CA |
| Repository.OneAuthorityPerSerial | src/db/mod.rs:19-21 | A serial known to one CA is never known to another |
| Revocation.BuildCrl | src/http/crl.rs:37-103 | The loop turns each listed row into one entry or skips it, and the first bad time decides the failure |
| Revocation.BuildResponse | src/http/ocsp.rs:65-103 | One answer per requested serial, in order, each from the table as it is at that lookup while others write; one failed lookup fails the response |
| Revocation.IssuedForever | src/http/scep.rs:204-220 | Persisting issued serials and revoking keeps every key the text of an issued serial |
| Revocation.NoRowSkipped | src/http/crl.rs:46-66 | Over such tables neither the hexadecimal nor the serial guard ever skips a row |
| Revocation.SkippedExactly | src/http/crl.rs:48-53 | A row is skipped exactly when its serial is no hexadecimal text or makes no serial of 20 octets |
| Revocation.CrlFailsExactly | src/http/crl.rs:54-60 | The CRL entries fail exactly when there is a row and the clock or some readable time is outside 1970 to 9999 |
| Revocation.ViewsAgree | src/http/ocsp.rs:105-121 | A CRL lists exactly the serials the responder reports revoked, each once; both give the second stored, and where none is readable each gives its own clock, so they agree there exactly when the clocks do |
| Revocation.EarlyRevocation | src/http/crl.rs:54-60 | A concrete run, one certificate inserted and then revoked at the last second of 1969, after which the CRL fails and the responder answers revoked now |
| Challenge.ConstantTimeEq | src/challenge/mod.rs:106-115 | The accumulating loop decides octet equality |
| Challenge.Validate | src/challenge/mod.rs:54-90 | A static profile approves exactly the equal password, the test profile everything, Intune on its verdict; errors by kind |
| AppState.InlineMaterialFailsExactly | src/config.rs:82-111 | For a CA that passed validation, inline material fails exactly for an unset variable or for one half declared beside a key file |
| AppState.HalfDeclared | src/config.rs:82-111 | Concrete settings that pass validation and whose CA loads in no surroundings |
| AppState.ValidateExactly | src/config.rs:193-226 | The settings that validation accepts, CA by CA and profile by profile |
| AppState.CaComesFrom | src/app.rs:98-139 | Inline certificate and key where both are declared, with the password of its variable; otherwise the key file where it exists, and a generated CA only where it does not |
| AppState.PasswordExactly | src/app.rs:99-102 | The key password is the value of the variable named for it, and none where that is not set |
| AppState.LoadErrors | src/app.rs:98-139 | Failing to load a CA is a configuration error, but for generating it |
| AppState.ValidatorExactly | src/app.rs:66-93 | A static profile gets the value of its own variable as its secret, an Intune one Intune, and only one configured none accepts everything; it fails exactly where there is nothing to build |
| AppState.OnlyUnsetSecretsFail | src/config.rs:205-224 | For validated settings a profile fails exactly for an unset secret |
| AppState.ProfileIsConfigured | src/app.rs:42-56 | A stored profile has the CA, days, usages and validator of the last profile configured under its name |
| AppState.LoadCas | src/app.rs:23-27 | Under each id what the last configuration of that id loads; otherwise the error of the first configuration that does not load |
| AppState.BuildProfiles | src/app.rs:42-56 | Each profile name runs the last profile of that name with the validator it asks for; it fails exactly where a secret is not set or Intune is not configured |
| AppState.BuildState | src/app.rs:20-64 | Success exactly when every CA loads and every secret is set, and then each id holds its own CA and each name its own profile with the validator it asks for; CAs fail first, by the first that does; for validated settings every stored profile resolves to its CA |
| AppState.ProfilesResolve | src/http/mod.rs:41-44 | In a consistent state lookup succeeds for every stored profile, with the CA its id names |
| AppState.UrlsNameOneCa | src/http/mod.rs:46-54 | OCSP and CRL URLs of two CAs are equal only for the same id |
| Scep.ParseCsrExactly | src/ca/csr.rs:27-36 | What is kept of a CSR: its own octets, and its subject, key and password as read |
| Scep.DeviceReadsItsCertificate | src/ca/authority.rs:90-154 | The payload of an issued certificate reads back as version 3 with the device's own subject and public key, the generated serial, the CA's name as issuer, 86400 seconds of validity for each day of the profile, and extensions for its usages and the CA's URLs; issuing fails exactly past the end of 9999 or for a failing builder |
| Scep.CertsOnlyRoundTrip | src/crypto/degenerate.rs:15-18 | A device reads from the certs-only payload exactly the certificate put in |
| Scep.RowDescribesCertificate | src/http/scep.rs:204-218 | The stored row determines the certificate: serial, DER and thumbprint decode from it, notBefore is the second of issuing and notAfter 86400 seconds for each day of the profile later, and it names CA, request and profile |
| Scep.NoProfileWithoutCa | src/http/scep.rs:94-101 | For validated settings a request is refused as unknown exactly for an unconfigured profile, and the missing-CA branch is never taken |
| Scep.ParsingErrors | src/crypto/verify.rs:97-182 | Which error a message that does not parse ends in |
| Scep.RefusedExactly | src/http/scep.rs:93-117 | A request is refused exactly for an unconfigured profile, a message that does not parse, a type that is no enrolment or a missing envelope, and with which error |
| Scep.Persist | src/http/scep.rs:196-222 | The certificate is inserted first and the transaction recorded as issued only if that was acknowledged |
| Scep.Record | src/http/scep.rs:224-240 | Best-effort recording: the tables afterwards, for every fate of the two calls |
| Scep.Enrol | src/http/scep.rs:132-185 | From validation on: reply and tables for every verdict and every database failure, which never changes the reply |
| Scep.PkiOperation | src/http/scep.rs:93-185 | The reply and tables that the lemmas of Exchange and Enrolment describe; refused and unopened requests change no table |
| Scep.SendFailure | src/http/scep.rs:187-194 | The signed failure reply, or the attribute error |
| Scep.SendSuccess | src/http/scep.rs:175-185 | The signed and enveloped reply, or the first encoding error |
| Exchange.SuccessAttributesSay | src/scep/protocol.rs:17-25 | Success attributes exist only for a printable ID and read back as type 3, status 0, the ID and both nonces, with no failInfo |
| Exchange.FailureAttributesSay | src/scep/protocol.rs:28-41 | Failure attributes read back as type 3, status 2, the number of the failInfo, the ID and both nonces |
| Exchange.FullExchange | src/http/scep.rs:93-194 | Every reply says type 3 and echoes ID and nonce; status 0, an envelope and no failInfo coincide and mean a certificate was issued, and otherwise the status is 2 and failInfo 1 exactly for a request that does not open or hold a CSR and 2 for any other; it verifies for a CA that signs with the key it shows and, where signatures distinguish keys, for no other; the parser accepts it exactly within the serial cap, and for every serial a reader without the cap opens it to exactly that certificate |
| Exchange.AnsweredExactly | src/http/scep.rs:175-194 | A request that is not refused is answered exactly when its transaction ID is printable, the key wrap and the signature succeed, and no encoding is longer than DER lengths reach; otherwise it ends in a cryptographic error |
| Exchange.RepliesAnswerVerifiedRequests | src/http/scep.rs:103-120 | A reply is only sent to a verified enrolment with an envelope and a printable transaction ID |
| Exchange.UniformRejection | src/http/scep.rs:114-130 | All requests that cannot be opened or parsed, with the same ID and nonce, get the same reply for the same fresh nonce and change no table |
| Exchange.OnlySenderNonceDiffers | src/scep/protocol.rs:33-40 | Two rejections differ in the sender nonce attribute only |
| Client.ReplyOnTheWire | src/http/scep.rs:93-194 | A client that knows only the standards finds in every reply a SignedData by the CA whose pkiStatus, 2.16.840.1.113733.1.9.3, is 0 exactly when a certificate was issued and 2 otherwise, with failInfo 1 for a request that could not be opened or read and 2 for any other failure |
| Client.MessageOnTheWire | src/crypto/sign.rs:24-74 | In any message it finds one SHA-256 signer named by its certificate's issuer and serial, signed over the attributes as a SET, which are bound to type and digest of the content |
| Client.EnvelopeOnTheWire | src/crypto/envelope.rs:120-177 | In any envelope it finds AES-256 under a key wrapped with RSA for the recipient, named by its own issuer and serial |
| Client.CertsOnlyOnTheWire | src/crypto/degenerate.rs:15-18 | In the payload it finds the certificate, no digest, no content and no signer |
| Client.CertificateOnTheWire | src/ca/authority.rs:109-154 | A printed certificate is read field by field as RFC 5280 has it |
| Client.IdentifierExactly | src/crypto/verify.rs:137 | The octets that are taken for an object identifier: at most 39, every sub-identifier complete and minimal |
| Client.ScepAttributeIdentifiers | src/scep/attributes.rs:17-32 | The identifiers of the SCEP attributes are those of section 3.2 of RFC 8894 |
| Client.CmsAttributes | src/crypto/verify.rs:137 | The content type, message digest and key identifier identifiers, by their arcs |
| Client.ContentTypes | src/crypto/mod.rs:31-33 | The content types, by their arcs |
| Client.DigestsAndKeys | src/crypto/mod.rs:35-36 | The digest and RSA identifiers, by their arcs |
| Client.AesIdentifiers | src/crypto/mod.rs:38-40 | The AES identifiers, by their arcs |
| Client.DesIdentifiers | src/crypto/mod.rs:42-45 | The DES identifiers, by their arcs |
| Device.RequestIsAdmitted | src/roundtrip.rs:41-104 | A CSR enveloped to the CA and signed by the device is always admitted with the type, ID, nonce, device key and CSR the device meant, whichever string type carries the ID |
| Device.UnprintableIdIsIssued | src/http/scep.rs:165-184 | A request whose ID no PrintableString can hold is admitted with that ID; once approved its certificate is issued and stored, and the request still ends in an error |
| Device.ShortReplyServes | src/http/scep.rs:176-184 | With a wrapping and signing library and parts of at most 256 KiB, every library call of a success reply succeeds |
| Device.HonestEnrolment | src/roundtrip.rs:104-132 | From the device and back: an approved honest request is answered exactly when its ID is printable and the library calls of the reply succeed, which short parts ensure, and any answer delivers to the device's key exactly the certificate issued, under its own ID and nonce |
| Enrolment.RowsKeepTheirIdentity | src/db/repo.rs:149-186 | Over every interleaving a transaction keeps its profile and creation time and a certificate row is never dropped or rewritten |
| Enrolment.IssuedHasCertificate | src/http/scep.rs:139-169 | Over every interleaving and failure, a transaction recorded as issued has a certificate row with its ID; the type recorded is always PKCSReq |
| Enrolment.ProfilesAgreeExactly | src/db/repo.rs:157-184 | Over every interleaving, a transaction row and a certificate row with its ID name the same profile exactly when the run that first recorded the ID and the run that issued were started under the same profile |
| Enrolment.Provenance | src/http/scep.rs:103-169 | Every certificate row comes from exactly one run whose message verified as an enrolment and whose CSR and password the profile's validator approved; for static profiles the password is the secret; the row's CA id is the one in the certificate's URLs |
| Enrolment.ConfiguredProvenance | src/app.rs:66-93 | Back to validated settings: a row under a profile configured static comes from a CSR whose password is the value of that profile's variable, one under an Intune profile from a request Intune approved |
| Enrolment.StepKeeps | src/http/scep.rs:137-169 | Each step between two awaits, dropped requests and revocations included, keeps the accounting of rows, sessions and transactions |
| Enrolment.DroppedStops | src/http/scep.rs:137-169 | A request dropped at an await does nothing more |
| Enrolment.RevocationIsACall | src/db/repo.rs:125-146 | A revocation between two steps is one call of revoke |
| Enrolment.TablesAreARun | src/db/repo.rs:30-186 | Every reachable state is a run of writes from empty tables that insert only valid rows under issued serials |
| Enrolment.ViewsAlwaysAgree | src/http/crl.rs:37-66 | In every reachable state CRL and responder agree as above, and the CRL has one entry per revocation that took effect |
| Enrolment.AloneIsPkiOperation | src/http/scep.rs:93-185 | Without interleaving, the steps of one session do to the tables exactly what pki_operation does |
| Lifetime.SuccessIsKnown | src/http/scep.rs:158-185 | Over every interleaving the reply of a run that issued is a success carrying its certificate; if the insert was acknowledged the certificate is in the tables after anything that follows and the responder never answers unknown for it |
| Lifetime.KnownExactly | src/http/ocsp.rs:82-121 | While no other run has generated its serial, the responder knows the certificate after anything that follows exactly when the insert reached the database, answered or not, and answers unknown otherwise |
| Scenarios.DeliveredAndUnknown | src/http/scep.rs:158-161 | A concrete run from the idle machine whose insert never reaches the database: the device is sent its certificate and the responder answers unknown for it |
| Scenarios.UnderscoreIsIssuedUnanswered | src/scep/attributes.rs:161-170 | A concrete server and request, the ID an underscore in a UTF8String, that is issued and stored and ends in an error |
| Scenarios.MismatchedReplyFails | src/crypto/sign.rs:24-74 | A concrete server whose CA signs with a key that is not its certificate's: the reply it sends does not verify |
| Scenarios.ReusedIdKeepsFirstProfile | src/db/repo.rs:163-172 | A concrete run from the idle machine: one ID rejected under one profile and issued under another leaves an issued record under the first beside a certificate row under the second |
| TokenCache.IntuneClient.Lookup | src/intune/mod.rs:228-232 | Serves the cached token of the scope while it is unexpired |
| TokenCache.IntuneClient.Store | src/intune/mod.rs:256-263 | Caches the token for its lifetime less a minute, at least zero; 3600 seconds if unstated |
| TokenCache.IntuneClient.Token | src/intune/mod.rs:227-265 | A cached token is served without asking; a failed fetch changes nothing; a fetched one is cached and returned |
| TokenCache.IntuneClient.ValidationEndpoint | src/intune/mod.rs:154-192 | What is cached is served; otherwise the address of the first endpoint of the service, if it has one, is stored over whatever another caller stored meanwhile; a failure stores nothing |
| TokenCache.TokensAreFresh | src/intune/mod.rs:226-265 | Over every interleaving a returned token was granted for its scope, and a cached one is more than 60 seconds before the end of its lifetime from receipt |
| TokenCache.ShortTokensAreNotReused | src/intune/mod.rs:256-261 | A token granted for 60 seconds or less is never served from the cache |
| TokenCache.FailedFetchStoresNothing | src/intune/mod.rs:233-255 | A fetch that fails ends its call and leaves every cached token as it is |
| TokenCache.ServedExactlyWhileFresh | src/intune/mod.rs:228-232 | A stored token is served exactly as long as it is that fresh, and other scopes are untouched |

## Left out

- Asn1.StrictCertificateExactly: of the strict reader only structure, serial and key encoding are modelled; validity, algorithms and extensions stay raw octets, so the library refuses some DER accepted here.
- Device.RequestIsAdmitted: for a CA whose certificate carries its own key and a capped serial; a CA loaded with another key cannot open what is enveloped to its certificate.
- RSA, AES, DES, SHA, HMAC and signature internals and all timing behaviour: functions with the laws of `Primitives.Lawful`. The implicit-rejection key derivation from the private exponent is part of the abstract keyed hash.
- Secrecy: nothing is said about what an attacker can learn from ciphertexts.
- The CMS builder's printing follows section 5.4 of RFC 5652 and its attribute handling as the source describes it; the serial cap of the strict type is taken as the 20 octets the source states; the proofs use only that sixteen octets fit and forty do not.
- Names, algorithm parameters and extensions are raw octets; name comparison is equality of encodings. Issuer and subject unique identifiers, which no certificate of this server carries, are not read.
- Object identifiers are checked for form, not for arcs beyond 32 bits.
- X.509 extension builders, certificate signing and CSR parsing: functions in `Scep.Services`. Key usage names and the requested alternative names live inside them.
- PKCS#8, PKCS#1 and encrypted key parsing and RSA key generation: functions in `Keystore.KeyReaders` and `AppState.Surroundings`.
- The wrapping of PEM output at 64 columns and the final newline are taken from RFC 7468, which the library follows.
- Leap seconds, which the RFC 3339 parser may accept as second 60 under conditions of its own.
- Intune's HTTP requests and JSON bodies: their outcome is a parameter. Success and failure notifications change no table and no reply, so they are not steps.
- SQL column widths, type conversions and connection pooling: a table is a map from its primary key, and a call may be acknowledged, lose its answer or fail.
- OCSP and CRL signing, request parsing, nonces and the next-update fields of single responses.
- `revoke` has no caller in the server itself; the model lets it be called at any time.
- HTTP routing, base64 of GET messages, GetCACaps, GetCACert, the health endpoint, logging and error-to-status mapping: plumbing.
- `common_name`, `chain_only` and the envelope wrapper used by tests: they would only add easy members.
- Instant overflow in the token cache's expiry.
