/**
 The two revocation views of the certificate table: the OCSP responder
 (`src/http/ocsp.rs`) and the CRL (`src/http/crl.rs`). Signing and the outer
 encodings are not part of this model; a view is what it says of each serial.
 */
module Revocation {
  import opened Wrappers
  import opened Asn1
  import opened SerialNumbers
  import opened Timestamps
  import opened Repository

  const CRL_LIFETIME_SECS: nat := 24 * 3600

  /** The second a stored revocation time denotes, if it is readable at all. */
  function RevocationSecond(at: Option<string>): Option<int> {
    var text :- at;
    ParseRfc3339(text)
  }

  predicate InRange(t: int) { 0 <= t <= MAX_SECONDS }

  // ----- CRL -----

  datatype RevokedCert = RevokedCert(serial: Serial, date: Time)

  datatype Crl = Crl(thisUpdate: Time, nextUpdate: Time, revoked: Option<seq<RevokedCert>>)

  /** One row: skipped if its serial is unreadable, an error if its time is out of range. */
  function CrlEntry(e: RevokedEntry, now: int): Result<Option<RevokedCert>> {
    var octets := HexDecode(e.serial);
    if octets.None? || SerialNew(octets.value).None? then Ok(None)
    else
      var second := RevocationSecond(e.revokedAt);
      var fallback := ToTime(now);
      if second.Some? && ToTime(second.value).Err? then Err(CryptoError)
      else if fallback.Err? then Err(CryptoError)
      else Ok(Some(RevokedCert(SerialNew(octets.value).value,
                               if second.Some? then ToTime(second.value).value else fallback.value)))
  }

  function CrlEntries(entries: seq<RevokedEntry>, now: int): Result<seq<RevokedCert>> {
    if entries == [] then Ok([])
    else
      var init :- CrlEntries(entries[..|entries| - 1], now);
      var last :- CrlEntry(entries[|entries| - 1], now);
      Ok(if last.Some? then init + [last.value] else init)
  }

  /** `build_crl`, up to signing. */
  method BuildCrl(pool: Pool, cas: set<string>, caId: string, up: bool, now: int)
    returns (r: Result<Crl>, ghost rows: seq<RevokedEntry>)
    ensures caId !in cas ==> r == Err(NotFound)
    ensures caId in cas && !up ==> r == Err(Database)
    ensures caId in cas && up ==>
      && Lists(pool.tables, caId, rows)
      && r == match CrlEntries(rows, now)
              case Err(e) => Err(e)
              case Ok(list) =>
                if ToTime(now).Err? || ToTime(now + 86400).Err? then Err(CryptoError)
                else Ok(Crl(ToTime(now).value, ToTime(now + 86400).value,
                            if list == [] then None else Some(list)))
  {
    rows := [];
    if caId !in cas { return Err(NotFound), rows; }
    var listed := pool.ListRevoked(caId, up);
    if listed.Err? { return Err(Database), rows; }
    var revokedRows := listed.value;
    rows := revokedRows;
    var revoked: seq<RevokedCert> := [];
    var i := 0;
    while i < |revokedRows|
      invariant 0 <= i <= |revokedRows|
      invariant CrlEntries(revokedRows[..i], now) == Ok(revoked)
    {
      var row := revokedRows[i];
      assert revokedRows[..i + 1][..i] == revokedRows[..i];
      i := i + 1;
      var entry := CrlEntry(row, now);
      if entry.Err? {
        FirstErrorDecides(revokedRows, i, now);
        return Err(entry.error), rows;
      }
      if entry.value.None? { continue; }
      revoked := revoked + [entry.value.value];
    }
    assert revokedRows[..i] == revokedRows;
    var thisUpdate, nextUpdate := ToTime(now), ToTime(now + CRL_LIFETIME_SECS);
    if thisUpdate.Err? { return Err(CryptoError), rows; }
    if nextUpdate.Err? { return Err(CryptoError), rows; }
    r := Ok(Crl(thisUpdate.value, nextUpdate.value, if revoked == [] then None else Some(revoked)));
  }

  lemma {:induction false} FirstErrorDecides(entries: seq<RevokedEntry>, i: nat, now: int)
    requires i <= |entries| && CrlEntries(entries[..i], now).Err?
    ensures CrlEntries(entries, now) == CrlEntries(entries[..i], now)
  {
    if i == |entries| {
      assert entries[..i] == entries;
    } else {
      var init := entries[..|entries| - 1];
      assert init[..i] == entries[..i];
      FirstErrorDecides(init, i, now);
    }
  }

  // ----- OCSP -----

  datatype CertStatus = StatusGood | StatusUnknown | StatusRevoked(time: DateTime)

  datatype SingleResponse = SingleResponse(serial: Serial, status: CertStatus)

  /** The responder's clock reading, with the end of the range for a clock out of it. */
  function OcspNow(now: int): DateTime { if InRange(now) then FromSeconds(now) else FromSeconds(MAX_SECONDS) }

  function ToCertStatus(s: RevocationStatus, now: int): CertStatus {
    match s
    case Good => StatusGood
    case Unknown => StatusUnknown
    case Revoked(at, reason) =>
      var second := RevocationSecond(at);
      if second.Some? && InRange(second.value) then StatusRevoked(FromSeconds(second.value))
      else StatusRevoked(OcspNow(now))
  }

  /** What the responder says of one serial. */
  function OcspStatus(t: Tables, caId: string, serial: Serial, now: int): CertStatus {
    ToCertStatus(StatusOf(t, caId, HexEncode(serial)), now)
  }

  /** The tables after the first `i` batches of others' writes. */
  function Seen(t: Tables, others: seq<seq<Call>>, i: nat): Tables
    requires i <= |others|
  {
    if i == 0 then t else Run(Seen(t, others, i - 1), others[i - 1])
  }

  /**
   `build_response`, up to signing: one answer per requested serial, in order,
   each from the tables at its own lookup; `others[i]` is written before lookup
   `i`, and `up` tells which lookups succeed.
   */
  method BuildResponse(pool: Pool, cas: set<string>, caId: string, requested: seq<Serial>, up: seq<bool>,
                       others: seq<seq<Call>>, now: int) returns (r: Result<seq<SingleResponse>>)
    requires |up| == |requested| == |others|
    modifies pool
    ensures caId !in cas ==> r == Err(NotFound) && pool.tables == old(pool.tables)
    ensures caId in cas ==> (r.Ok? <==> forall i :: 0 <= i < |up| ==> up[i])
    ensures caId in cas && r.Err? ==> r.error == Database
    ensures r.Ok? ==> |r.value| == |requested| && forall i :: 0 <= i < |requested| ==>
      r.value[i] == SingleResponse(requested[i],
                                   OcspStatus(Seen(old(pool.tables), others, i + 1), caId, requested[i], now))
  {
    if caId !in cas { return Err(NotFound); }
    var responses: seq<SingleResponse> := [];
    ghost var start := pool.tables;
    for i := 0 to |requested|
      invariant |responses| == i
      invariant pool.tables == Seen(start, others, i)
      invariant forall j :: 0 <= j < i ==> up[j]
      invariant forall j :: 0 <= j < i ==>
        responses[j] == SingleResponse(requested[j], OcspStatus(Seen(start, others, j + 1), caId, requested[j], now))
    {
      var single := Respond(pool, caId, requested[i], up[i], others[i], now);
      if single.Err? { return Err(Database); }
      responses := responses + [single.value];
    }
    r := Ok(responses);
  }

  /** One turn of the loop. */
  method Respond(pool: Pool, caId: string, serial: Serial, up: bool, others: seq<Call>, now: int)
    returns (r: Result<SingleResponse>)
    modifies pool
    ensures pool.tables == Run(old(pool.tables), others)
    ensures r == if up then Ok(SingleResponse(serial, OcspStatus(pool.tables, caId, serial, now))) else Err(Database)
  {
    pool.Yield(others);
    var status := pool.StatusBySerial(caId, HexEncode(serial), up);
    if status.Err? { return Err(Database); }
    r := Ok(SingleResponse(serial, ToCertStatus(status.value, now)));
  }

  // ----- agreement -----

  ghost predicate IssuedKey(k: string) { exists s: bytes :: IssuedSerial(s) && HexEncode(s) == k }

  /** Tables as `persist` fills them: every key is the text of a serial this server generated. */
  ghost predicate IssuedTables(t: Tables) { Keyed(t) && forall k :: k in t.certs ==> IssuedKey(k) }

  /** Persisting issued serials and revoking keeps the tables so, over every run. */
  lemma {:induction false} IssuedForever(t: Tables, calls: seq<Call>)
    requires IssuedTables(t)
    requires forall i :: 0 <= i < |calls| && calls[i].write.InsertCert? ==> IssuedKey(calls[i].write.row.serial)
    ensures IssuedTables(Run(t, calls))
    decreases calls
  {
    if calls != [] {
      IssuedForever(After(t, calls[0]), calls[1..]);
    }
  }

  /** A listed row of issued tables is never skipped: its serial decodes to the one issued. */
  lemma ListedSerial(t: Tables, caId: string, e: RevokedEntry) returns (s: Serial)
    requires IssuedTables(t) && e.serial in RevokedSerials(t, caId)
    ensures HexEncode(s) == e.serial && HexDecode(e.serial) == Some(s) && SerialNew(s) == Some(s)
  {
    var issued: bytes :| IssuedSerial(issued) && HexEncode(issued) == e.serial;
    SerialChain(issued, issued);
    s := issued;
  }

  /** A stored time that is readable but no X.509 time can state. */
  ghost predicate BadTime(e: RevokedEntry) {
    RevocationSecond(e.revokedAt).Some? && !InRange(RevocationSecond(e.revokedAt).value)
  }

  /** The row's entry: which time it carries, and when it makes the whole CRL fail. */
  lemma EntryOfListed(t: Tables, caId: string, e: RevokedEntry, now: int)
    requires IssuedTables(t) && e.serial in RevokedSerials(t, caId)
    ensures CrlEntry(e, now).Err? <==>
      BadTime(e) || !InRange(now)
    ensures CrlEntry(e, now).Ok? ==>
      CrlEntry(e, now).value.Some? && HexEncode(CrlEntry(e, now).value.value.serial) == e.serial
  {
    var s := ListedSerial(t, caId, e);
    TimeRoundTrip(now);
    if RevocationSecond(e.revokedAt).Some? {
      TimeRoundTrip(RevocationSecond(e.revokedAt).value);
    }
  }

  /** A row is skipped exactly when its serial is no hexadecimal of octets, or those make no serial of 20 octets. */
  lemma SkippedExactly(e: RevokedEntry, now: int)
    ensures CrlEntry(e, now) == Ok(None) <==>
      match HexDecode(e.serial)
      case None => true
      case Some(b) => b == [] || BigEndian(b) >= Pow256(20) / 2
  {
    if HexDecode(e.serial).Some? { SerialNewExactly(HexDecode(e.serial).value); }
  }

  ghost predicate Listed(entries: seq<RevokedEntry>, t: Tables, caId: string) {
    forall i :: 0 <= i < |entries| ==> entries[i].serial in RevokedSerials(t, caId)
  }

  /** No row is skipped: the CRL has one entry per row, in the same order. */
  lemma {:induction false} NoRowSkipped(t: Tables, caId: string, entries: seq<RevokedEntry>, now: int)
    requires IssuedTables(t) && Listed(entries, t, caId)
    requires CrlEntries(entries, now).Ok?
    ensures |CrlEntries(entries, now).value| == |entries|
    ensures forall i :: 0 <= i < |entries| ==>
      CrlEntry(entries[i], now) == Ok(Some(CrlEntries(entries, now).value[i]))
  {
    if entries != [] {
      var init := entries[..|entries| - 1];
      NoRowSkipped(t, caId, init, now);
      EntryOfListed(t, caId, entries[|entries| - 1], now);
      assert forall i :: 0 <= i < |init| ==> init[i] == entries[i];
    }
  }

  /** The CRL fails as a whole exactly when some listed row's readable time, or the clock, is outside 1970 to 9999. */
  lemma {:induction false} CrlFailsExactly(t: Tables, caId: string, entries: seq<RevokedEntry>, now: int)
    requires IssuedTables(t) && Listed(entries, t, caId)
    ensures CrlEntries(entries, now).Err? <==>
      entries != [] && (!InRange(now) || exists e :: e in entries && BadTime(e))
  {
    if entries != [] {
      var init, last := entries[..|entries| - 1], entries[|entries| - 1];
      assert entries == init + [last];
      CrlFailsExactly(t, caId, init, now);
      EntryOfListed(t, caId, last, now);
    }
  }

  /** The CRL's serials are the rows' serials. */
  ghost predicate SameSerials(entries: seq<RevokedEntry>, list: seq<RevokedCert>) {
    |list| == |entries| && forall i :: 0 <= i < |list| ==> HexEncode(list[i].serial) == entries[i].serial
  }

  ghost predicate OnList(list: seq<RevokedCert>, s: Serial) { exists i :: 0 <= i < |list| && list[i].serial == s }

  lemma ListedIsRevoked(t: Tables, caId: string, entries: seq<RevokedEntry>, list: seq<RevokedCert>, s: Serial,
                        now: int)
    requires Lists(t, caId, entries) && SameSerials(entries, list) && OnList(list, s)
    ensures OcspStatus(t, caId, s, now).StatusRevoked?
  {
    var i :| 0 <= i < |list| && list[i].serial == s;
    assert entries[i].serial in RevokedSerials(t, caId);
  }

  lemma RevokedIsListed(t: Tables, caId: string, entries: seq<RevokedEntry>, list: seq<RevokedCert>, s: Serial,
                        now: int)
    requires Lists(t, caId, entries) && SameSerials(entries, list)
    requires OcspStatus(t, caId, s, now).StatusRevoked?
    ensures OnList(list, s)
  {
    assert HexEncode(s) in RevokedSerials(t, caId);
    assert Mentions(entries, HexEncode(s));
    var i :| 0 <= i < |entries| && entries[i].serial == HexEncode(s);
    HexInjective(list[i].serial, s);
  }

  lemma ListedOnce(t: Tables, caId: string, entries: seq<RevokedEntry>, list: seq<RevokedCert>)
    requires Lists(t, caId, entries) && SameSerials(entries, list)
    ensures forall i, j :: 0 <= i < j < |list| ==> list[i].serial != list[j].serial
  {
    forall i, j | 0 <= i < j < |list| ensures list[i].serial != list[j].serial {
      assert HexEncode(list[i].serial) != HexEncode(list[j].serial);
    }
  }

  /** Every row's entry, with its serial and time. */
  lemma EntriesAgree(t: Tables, caId: string, entries: seq<RevokedEntry>, crlNow: int, ocspNow: int,
                     list: seq<RevokedCert>)
    requires IssuedTables(t) && Lists(t, caId, entries)
    requires CrlEntries(entries, crlNow) == Ok(list)
    ensures SameSerials(entries, list)
    ensures forall i :: 0 <= i < |list| ==> SameSecond(t, caId, entries[i], list[i], crlNow, ocspNow)
  {
    NoRowSkipped(t, caId, entries, crlNow);
    forall i | 0 <= i < |list|
      ensures HexEncode(list[i].serial) == entries[i].serial &&
        SameSecond(t, caId, entries[i], list[i], crlNow, ocspNow)
    {
      EntryTime(t, caId, entries[i], crlNow, ocspNow, list[i]);
    }
  }

  /**
   In every table state reached by persisting and revoking, a CRL lists exactly
   the serials the responder reports revoked, each once. For every row with a
   readable time both give that second; for any other each gives its own clock,
   so there they agree exactly when the clocks do.
   */
  lemma ViewsAgree(t: Tables, caId: string, entries: seq<RevokedEntry>, crlNow: int, ocspNow: int,
                   list: seq<RevokedCert>)
    requires IssuedTables(t) && Lists(t, caId, entries)
    requires CrlEntries(entries, crlNow) == Ok(list)
    ensures forall s: Serial :: OcspStatus(t, caId, s, ocspNow).StatusRevoked? <==> OnList(list, s)
    ensures forall i, j :: 0 <= i < j < |list| ==> list[i].serial != list[j].serial
    ensures |list| == |entries|
    ensures forall i :: 0 <= i < |list| ==> SameSecond(t, caId, entries[i], list[i], crlNow, ocspNow)
  {
    EntriesAgree(t, caId, entries, crlNow, ocspNow, list);
    ListedOnce(t, caId, entries, list);
    forall s: Serial ensures OcspStatus(t, caId, s, ocspNow).StatusRevoked? <==> OnList(list, s) {
      if OnList(list, s) { ListedIsRevoked(t, caId, entries, list, s, ocspNow); }
      if OcspStatus(t, caId, s, ocspNow).StatusRevoked? { RevokedIsListed(t, caId, entries, list, s, ocspNow); }
    }
  }

  /**
   The second each view gives for a row: the stored one in both, if it is
   readable; otherwise the CRL's clock in one and the responder's, kept within
   the range, in the other.
   */
  ghost predicate SameSecond(t: Tables, caId: string, e: RevokedEntry, c: RevokedCert, crlNow: int, ocspNow: int) {
    && HexEncode(c.serial) == e.serial
    && match RevocationSecond(e.revokedAt)
       case Some(second) => BothGive(t, caId, c, second, ocspNow)
       case None => EachItsClock(t, caId, c, crlNow, ocspNow)
  }

  ghost predicate BothGive(t: Tables, caId: string, c: RevokedCert, second: int, ocspNow: int) {
    exists dt: DateTime :: dt.Valid() && ReadTime(c.date) == Some(dt) && dt.Seconds() == second
      && OcspStatus(t, caId, c.serial, ocspNow) == StatusRevoked(dt)
  }

  ghost predicate EachItsClock(t: Tables, caId: string, c: RevokedCert, crlNow: int, ocspNow: int) {
    && crlNow >= 0 && ReadTime(c.date) == Some(FromSeconds(crlNow)) && FromSeconds(crlNow).Seconds() == crlNow
    && OcspStatus(t, caId, c.serial, ocspNow) == StatusRevoked(OcspNow(ocspNow))
    && OcspNow(ocspNow).Seconds() == Clamped(ocspNow)
    && (FromSeconds(crlNow) == OcspNow(ocspNow) <==> crlNow == Clamped(ocspNow))
  }

  /** The responder's clock, with the end of the range for a clock out of it. */
  function Clamped(now: int): nat { if InRange(now) then now else MAX_SECONDS }

  lemma EntryTime(t: Tables, caId: string, e: RevokedEntry, crlNow: int, ocspNow: int, c: RevokedCert)
    requires IssuedTables(t) && e.serial in RevokedSerials(t, caId) && e == EntryOf(t, e.serial)
    requires CrlEntry(e, crlNow) == Ok(Some(c))
    ensures SameSecond(t, caId, e, c, crlNow, ocspNow)
  {
    EntryOfListed(t, caId, e, crlNow);
    assert StatusOf(t, caId, HexEncode(c.serial)) == Revoked(e.revokedAt, e.reason);
    EntryDate(e, c, crlNow);
    match RevocationSecond(e.revokedAt)
    case Some(second) => StoredSecond(t, caId, e, c, second, ocspNow);
    case None => OwnClocks(t, caId, e, c, crlNow, ocspNow);
  }

  /** The date an entry carries. */
  lemma EntryDate(e: RevokedEntry, c: RevokedCert, crlNow: int)
    requires CrlEntry(e, crlNow) == Ok(Some(c))
    ensures RevocationSecond(e.revokedAt).Some? ==> ToTime(RevocationSecond(e.revokedAt).value) == Ok(c.date)
    ensures RevocationSecond(e.revokedAt).None? ==> ToTime(crlNow) == Ok(c.date)
  {
  }

  lemma StoredSecond(t: Tables, caId: string, e: RevokedEntry, c: RevokedCert, second: int, ocspNow: int)
    requires StatusOf(t, caId, HexEncode(c.serial)) == Revoked(e.revokedAt, e.reason)
    requires RevocationSecond(e.revokedAt) == Some(second) && ToTime(second) == Ok(c.date)
    ensures BothGive(t, caId, c, second, ocspNow)
  {
    TimeRoundTrip(second);
    TimestampRoundTrip(second);
  }

  lemma OwnClocks(t: Tables, caId: string, e: RevokedEntry, c: RevokedCert, crlNow: int, ocspNow: int)
    requires StatusOf(t, caId, HexEncode(c.serial)) == Revoked(e.revokedAt, e.reason)
    requires RevocationSecond(e.revokedAt).None? && ToTime(crlNow) == Ok(c.date)
    ensures EachItsClock(t, caId, c, crlNow, ocspNow)
  {
    TimeRoundTrip(crlNow);
    TimestampRoundTrip(crlNow);
    CivilRoundTrip(Clamped(ocspNow));
    assert OcspNow(ocspNow) == FromSeconds(Clamped(ocspNow));
  }

  const EARLY := DateTime(1969, 12, 31, 23, 59, 59)

  lemma EarlyIsBad()
    ensures RevocationSecond(Some(Format(EARLY))) == Some(-1)
  {
    assert EARLY.Seconds() == -1 by { EpochIsZero(); YearStep(1969); December(1969); }
    FormattedParses(EARLY);
  }

  /** A valid row inserted and then revoked, both acknowledged. */
  function InsertThenRevoke(row: CertRow, reason: int, at: string): seq<Call> {
    [Call(InsertCert(row), Acknowledged), Call(RevokeCert(row.caId, row.serial, reason, at), Acknowledged)]
  }

  lemma InsertedThenRevoked(row: CertRow, reason: int, at: string)
    requires row.status == STATUS_VALID
    ensures var later := row.(status := STATUS_REVOKED, revokedAt := Some(at), reason := Some(reason));
      Run(EMPTY, InsertThenRevoke(row, reason, at)) == Tables(map[row.serial := later], map[])
  {
    var calls := InsertThenRevoke(row, reason, at);
    var t := After(EMPTY, calls[0]);
    assert calls[1..] == [calls[1]] && [calls[1]][1..] == [];
    assert t.certs == map[row.serial := row];
    assert Run(EMPTY, calls) == Run(t, [calls[1]]) == After(t, calls[1]);
  }

  lemma OneRevoked(t: Tables, row: CertRow) returns (e: RevokedEntry)
    requires t == Tables(map[row.serial := row], map[]) && row.status == STATUS_REVOKED && IssuedKey(row.serial)
    ensures e == RevokedEntry(row.serial, row.revokedAt, row.reason)
    ensures IssuedTables(t) && Lists(t, row.caId, [e])
  {
    e := RevokedEntry(row.serial, row.revokedAt, row.reason);
    assert RevokedSerials(t, row.caId) == {row.serial};
    assert [e][0].serial == row.serial && Mentions([e], row.serial);
  }

  /**
   The views differ in how they fail: after a run that inserts one certificate
   and revokes it at the last second of 1969, the whole CRL fails, while the
   responder reports the certificate revoked now.
   */
  lemma EarlyRevocation(now: nat) returns (row: CertRow, s: Serial, e: RevokedEntry)
    requires now <= MAX_SECONDS
    ensures row.status == STATUS_VALID && row.caId == "ca" && row.serial == HexEncode(s) && IssuedSerial(s)
    ensures var t := Run(EMPTY, InsertThenRevoke(row, 1, Format(EARLY)));
      && IssuedTables(t) && Lists(t, "ca", [e])
      && CrlEntries([e], now) == Err(CryptoError)
      && OcspStatus(t, "ca", s, now) == StatusRevoked(FromSeconds(now)) && e.serial == HexEncode(s)
  {
    s := SerialFrom(seq(16, i => 1));
    SerialIsCanonical(seq(16, i => 1));
    row := CertRow(HexEncode(s), "ca", "", "", "", "", "", None, None, STATUS_VALID, "", None, None);
    assert IssuedKey(row.serial);
    InsertedThenRevoked(row, 1, Format(EARLY));
    var t := Run(EMPTY, InsertThenRevoke(row, 1, Format(EARLY)));
    var revoked := row.(status := STATUS_REVOKED, revokedAt := Some(Format(EARLY)), reason := Some(1));
    e := OneRevoked(t, revoked);
    EarlyIsBad();
    EarlyViews(t, revoked, s, e, now);
  }

  lemma EarlyViews(t: Tables, row: CertRow, s: Serial, e: RevokedEntry, now: nat)
    requires now <= MAX_SECONDS && IssuedTables(t) && row.serial == HexEncode(s)
    requires row.serial in t.certs && t.certs[row.serial] == row && row.status == STATUS_REVOKED
    requires e == RevokedEntry(row.serial, row.revokedAt, row.reason)
    requires RevocationSecond(row.revokedAt).Some? && !InRange(RevocationSecond(row.revokedAt).value)
    ensures CrlEntries([e], now) == Err(CryptoError)
    ensures OcspStatus(t, row.caId, s, now) == StatusRevoked(FromSeconds(now))
  {
    assert e.serial in RevokedSerials(t, row.caId);
    EntryOfListed(t, row.caId, e, now);
    assert BadTime(e);
    assert [e][..0] == [];
  }
}
