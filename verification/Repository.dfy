/**
 The two tables and the queries over them (`src/db/repo.rs`). A table is a map
 from its primary key (`src/db/mod.rs`), so an insert under a used key is an
 error. Any call may fail, before or after its effect.
 */
module Repository {
  import opened Wrappers

  const STATUS_VALID := "valid"
  const STATUS_REVOKED := "revoked"

  /** A row of `issued_certificate`. */
  datatype CertRow = CertRow(
    serial: string, caId: string, subject: string, notBefore: string, notAfter: string, derB64: string,
    thumbprint: string, transactionId: Option<string>, profile: Option<string>, status: string,
    createdAt: string, revokedAt: Option<string>, reason: Option<int>)

  /** A row of `scep_transaction`. */
  datatype TransactionRow = TransactionRow(profile: string, status: string, messageType: string, createdAt: string)

  datatype Tables = Tables(certs: map<string, CertRow>, transactions: map<string, TransactionRow>)

  const EMPTY := Tables(map[], map[])

  /** One write statement. */
  datatype Write =
    | InsertCert(row: CertRow)
    | RevokeCert(caId: string, serial: string, reason: int, at: string)
    | InsertTransaction(id: string, txn: TransactionRow)
    | UpdateTransaction(id: string, status: string, messageType: string)

  /** How a call ends: acknowledged, effective but reported as an error, or without effect. */
  datatype Fate = Acknowledged | Lost | Down

  datatype Call = Call(write: Write, fate: Fate)

  predicate Revocable(t: Tables, caId: string, serial: string) {
    serial in t.certs && t.certs[serial].caId == caId && t.certs[serial].status == STATUS_VALID
  }

  /** The statement's effect: the new tables and the rows affected, or an error. */
  function Execute(t: Tables, w: Write): Result<(Tables, nat)> {
    match w
    case InsertCert(row) =>
      if row.serial in t.certs then Err(Database)
      else Ok((t.(certs := t.certs[row.serial := row]), 1))
    case RevokeCert(caId, serial, reason, at) =>
      if Revocable(t, caId, serial) then
        var row := t.certs[serial].(status := STATUS_REVOKED, revokedAt := Some(at), reason := Some(reason));
        Ok((t.(certs := t.certs[serial := row]), 1))
      else Ok((t, 0))
    case InsertTransaction(id, txn) =>
      if id in t.transactions then Err(Database)
      else Ok((t.(transactions := t.transactions[id := txn]), 1))
    case UpdateTransaction(id, status, messageType) =>
      if id in t.transactions then
        var row := t.transactions[id].(status := status, messageType := messageType);
        Ok((t.(transactions := t.transactions[id := row]), 1))
      else Ok((t, 0))
  }

  /** The tables after a call. */
  function After(t: Tables, c: Call): Tables {
    var e := Execute(t, c.write);
    if c.fate.Down? || e.Err? then t else e.value.0
  }

  /** What the caller sees: the rows affected, or an error. */
  function Answer(t: Tables, c: Call): Result<nat> {
    var e := Execute(t, c.write);
    if c.fate.Acknowledged? && e.Ok? then Ok(e.value.1) else Err(Database)
  }

  function Run(t: Tables, calls: seq<Call>): Tables
    decreases calls
  {
    if calls == [] then t else Run(After(t, calls[0]), calls[1..])
  }

  // ----- reading -----

  datatype RevocationStatus =
    | Good
    | Revoked(revokedAt: Option<string>, reason: Option<int>)
    | Unknown

  datatype RevokedEntry = RevokedEntry(serial: string, revokedAt: Option<string>, reason: Option<int>)

  function StatusOf(t: Tables, caId: string, serial: string): RevocationStatus {
    if serial !in t.certs || t.certs[serial].caId != caId then Unknown
    else if t.certs[serial].status == STATUS_REVOKED then
      Revoked(t.certs[serial].revokedAt, t.certs[serial].reason)
    else Good
  }

  function RevokedSerials(t: Tables, caId: string): set<string> {
    set k | k in t.certs && t.certs[k].caId == caId && t.certs[k].status == STATUS_REVOKED
  }

  function EntryOf(t: Tables, serial: string): RevokedEntry
    requires serial in t.certs
  {
    RevokedEntry(serial, t.certs[serial].revokedAt, t.certs[serial].reason)
  }

  ghost predicate Mentions(entries: seq<RevokedEntry>, serial: string) {
    exists i :: 0 <= i < |entries| && entries[i].serial == serial
  }

  /** Rows come in no particular order, each once. */
  ghost predicate Lists(t: Tables, caId: string, entries: seq<RevokedEntry>) {
    && (forall i :: 0 <= i < |entries| ==>
          entries[i].serial in RevokedSerials(t, caId) && entries[i] == EntryOf(t, entries[i].serial))
    && (forall k :: k in RevokedSerials(t, caId) ==> Mentions(entries, k))
    && (forall i, j :: 0 <= i < j < |entries| ==> entries[i].serial != entries[j].serial)
  }

  // ----- the repository functions -----

  class Pool {
    var tables: Tables

    constructor ()
      ensures tables == EMPTY
    {
      tables := EMPTY;
    }

    method Perform(w: Write, fate: Fate) returns (r: Result<nat>)
      modifies this
      ensures tables == After(old(tables), Call(w, fate))
      ensures r == Answer(old(tables), Call(w, fate))
    {
      var e := Execute(tables, w);
      if e.Ok? && !fate.Down? { tables := e.value.0; }
      r := if fate.Acknowledged? && e.Ok? then Ok(e.value.1) else Err(Database);
    }

    /** `insert_issued` */
    method InsertIssued(row: CertRow, fate: Fate) returns (r: Result<()>)
      modifies this
      ensures tables == After(old(tables), Call(InsertCert(row), fate))
      ensures r.Ok? <==> fate.Acknowledged? && row.serial !in old(tables).certs
      ensures r.Ok? ==> tables.certs == old(tables).certs[row.serial := row]
    {
      var n := Perform(InsertCert(row), fate);
      r := if n.Ok? then Ok(()) else Err(Database);
    }

    /** `revoke` */
    method Revoke(caId: string, serial: string, reason: int, at: string, fate: Fate) returns (r: Result<bool>)
      modifies this
      ensures tables == After(old(tables), Call(RevokeCert(caId, serial, reason, at), fate))
      ensures r == if fate.Acknowledged? then Ok(Revocable(old(tables), caId, serial)) else Err(Database)
      ensures r == Ok(true) ==> StatusOf(tables, caId, serial) == Revoked(Some(at), Some(reason))
      ensures r == Ok(true) ==> old(tables).certs[serial].status == "valid" && tables.certs[serial].status == "revoked"
    {
      var n := Perform(RevokeCert(caId, serial, reason, at), fate);
      r := if n.Ok? then Ok(n.value > 0) else Err(Database);
    }

    /** The other requests' writes while this one is suspended at an await. */
    method Yield(others: seq<Call>)
      modifies this
      ensures tables == Run(old(tables), others)
    {
      var i := 0;
      assert others[0..] == others;
      while i < |others|
        invariant 0 <= i <= |others|
        invariant Run(tables, others[i..]) == Run(old(tables), others)
      {
        var _ := Perform(others[i].write, others[i].fate);
        assert others[i..][1..] == others[i + 1..];
        i := i + 1;
      }
    }

    /** `record_transaction`: a select, then an update or an insert; `others` write in between. */
    method RecordTransaction(id: string, profile: string, status: string, messageType: string, createdAt: string,
                             selectUp: bool, others: seq<Call>, fate: Fate) returns (r: Result<()>)
      modifies this
      ensures !selectUp ==> tables == old(tables) && r == Err(Database)
      ensures selectUp ==>
        var call := Call(RecordWrite(id, profile, status, messageType, createdAt, id in old(tables).transactions),
                         fate);
        && tables == After(Run(old(tables), others), call)
        && (r.Ok? <==>
              fate.Acknowledged? && (id in old(tables).transactions || id !in Run(old(tables), others).transactions))
        && (r.Ok? ==>
              var before := Run(old(tables), others).transactions;
              && id in tables.transactions
              && tables.transactions[id] ==
                (if id in before then before[id].(status := status, messageType := messageType)
                                             else TransactionRow(profile, status, messageType, createdAt)))
    {
      if !selectUp { return Err(Database); }
      var existing := id in tables.transactions;
      Yield(others);
      if existing { TransactionIdentityForever(old(tables), others, id); }
      var n := Perform(RecordWrite(id, profile, status, messageType, createdAt, existing), fate);
      r := if n.Ok? then Ok(()) else Err(Database);
    }

    /** `status_by_serial` */
    method StatusBySerial(caId: string, serial: string, up: bool) returns (r: Result<RevocationStatus>)
      ensures r.Err? <==> !up
      ensures r.Err? ==> r.error == Database
      ensures up ==>
        && (r.value.Unknown? <==> forall k :: k in tables.certs ==> k != serial || tables.certs[k].caId != caId)
        && (r.value.Revoked? <==> serial in RevokedSerials(tables, caId))
        && (r.value.Revoked? ==>
              r.value.revokedAt == tables.certs[serial].revokedAt && r.value.reason == tables.certs[serial].reason)
        && r.value == StatusOf(tables, caId, serial)
    {
      r := if up then Ok(StatusOf(tables, caId, serial)) else Err(Database);
    }

    /** `list_revoked` */
    method ListRevoked(caId: string, up: bool) returns (r: Result<seq<RevokedEntry>>)
      ensures r.Ok? <==> up
      ensures r.Ok? ==> Lists(tables, caId, r.value)
    {
      if !up { return Err(Database); }
      var remaining := RevokedSerials(tables, caId);
      var entries: seq<RevokedEntry> := [];
      while remaining != {}
        invariant remaining <= RevokedSerials(tables, caId)
        invariant forall i :: 0 <= i < |entries| ==>
          entries[i].serial in RevokedSerials(tables, caId) - remaining
          && entries[i] == EntryOf(tables, entries[i].serial)
        invariant forall k :: k in RevokedSerials(tables, caId) - remaining ==> Mentions(entries, k)
        invariant forall i, j :: 0 <= i < j < |entries| ==> entries[i].serial != entries[j].serial
        decreases remaining
      {
        var k :| k in remaining;
        ghost var before := entries;
        entries := entries + [EntryOf(tables, k)];
        assert entries[|before|].serial == k && Mentions(entries, k);
        forall j | Mentions(before, j) ensures Mentions(entries, j) {
          var i :| 0 <= i < |before| && before[i].serial == j;
          assert entries[i] == before[i];
        }
        remaining := remaining - {k};
      }
      r := Ok(entries);
    }
  }

  /** The write `record_transaction` chooses from what its select saw. */
  function RecordWrite(id: string, profile: string, status: string, messageType: string, createdAt: string,
                       existing: bool): Write {
    if existing then UpdateTransaction(id, status, messageType)
    else InsertTransaction(id, TransactionRow(profile, status, messageType, createdAt))
  }

  // ----- runs -----

  /** Rows sit under their own serial. */
  ghost predicate Keyed(t: Tables) { forall k :: k in t.certs ==> t.certs[k].serial == k }

  lemma {:induction false} KeyedForever(t: Tables, calls: seq<Call>)
    requires Keyed(t)
    ensures Keyed(Run(t, calls))
    decreases calls
  {
    if calls != [] {
      KeyedForever(After(t, calls[0]), calls[1..]);
    }
  }

  /** What a row keeps: everything but its revocation, and a revocation once made. */
  ghost predicate Extends(before: CertRow, later: CertRow) {
    && later.(status := before.status, revokedAt := before.revokedAt, reason := before.reason) == before
    && (before.status == STATUS_REVOKED ==> later == before)
  }

  /** Certificate rows are never dropped or rewritten, and a revoked row keeps its first time and reason. */
  lemma {:induction false} RevokedForever(t: Tables, calls: seq<Call>, serial: string)
    requires serial in t.certs
    ensures serial in Run(t, calls).certs && Extends(t.certs[serial], Run(t, calls).certs[serial])
    decreases calls
  {
    if calls != [] {
      RevokedForever(After(t, calls[0]), calls[1..], serial);
    }
  }

  /** A transaction row is never dropped, and its profile and creation time never change. */
  lemma {:induction false} TransactionIdentityForever(t: Tables, calls: seq<Call>, id: string)
    requires id in t.transactions
    ensures id in Run(t, calls).transactions
      && Run(t, calls).transactions[id].profile == t.transactions[id].profile
      && Run(t, calls).transactions[id].createdAt == t.transactions[id].createdAt
    decreases calls
  {
    if calls != [] {
      TransactionIdentityForever(After(t, calls[0]), calls[1..], id);
    }
  }

  /** Does this call take effect as a revocation of a certificate of the CA? */
  predicate Revokes(t: Tables, c: Call, caId: string) {
    c.write.RevokeCert? && c.write.caId == caId && !c.fate.Down? && Revocable(t, caId, c.write.serial)
  }

  /** The calls for the CA answered true, and the effective ones whose answer was lost. */
  function Revocations(t: Tables, calls: seq<Call>, caId: string, fate: Fate): nat
    decreases calls
  {
    if calls == [] then 0
    else
      (if Revokes(t, calls[0], caId) && calls[0].fate == fate then 1 else 0)
      + Revocations(After(t, calls[0]), calls[1..], caId, fate)
  }

  /** Inserts as `persist` makes them: valid and not yet revoked. */
  ghost predicate PersistOnly(calls: seq<Call>) {
    forall i :: 0 <= i < |calls| && calls[i].write.InsertCert? ==>
      calls[i].write.row.status == STATUS_VALID
  }

  lemma RevokedRow(t: Tables, c: Call, caId: string)
    requires Keyed(t) && Revokes(t, c, caId)
    ensures RevokedSerials(After(t, c), caId) == RevokedSerials(t, caId) + {c.write.serial}
    ensures c.write.serial !in RevokedSerials(t, caId)
  {
  }

  /** Rows keep CA and status under any call that is no revocation for this CA. */
  lemma UnrevokedRows(t: Tables, c: Call, caId: string)
    requires Keyed(t) && !Revokes(t, c, caId)
    requires c.write.InsertCert? ==> c.write.row.status == STATUS_VALID
    ensures RevokedSerials(After(t, c), caId) == RevokedSerials(t, caId)
  {
    match c.write
    case InsertCert(row) =>
    case RevokeCert(_, _, _, _) =>
    case InsertTransaction(_, _) =>
    case UpdateTransaction(_, _, _) =>
  }

  lemma RevokedStep(t: Tables, c: Call, caId: string)
    requires Keyed(t)
    requires c.write.InsertCert? ==> c.write.row.status == STATUS_VALID
    ensures |RevokedSerials(After(t, c), caId)| == |RevokedSerials(t, caId)| + if Revokes(t, c, caId) then 1 else 0
  {
    if Revokes(t, c, caId) { RevokedRow(t, c, caId); } else { UnrevokedRows(t, c, caId); }
  }

  /**
   From any tables: the CA's revoked list grows by exactly the calls answered
   true, plus the effective ones whose answer was lost.
   */
  lemma {:induction false} RevocationsAreCounted(t: Tables, calls: seq<Call>, caId: string)
    requires Keyed(t) && PersistOnly(calls)
    ensures |RevokedSerials(Run(t, calls), caId)| ==
      |RevokedSerials(t, caId)| + Revocations(t, calls, caId, Acknowledged) + Revocations(t, calls, caId, Lost)
    decreases calls
  {
    if calls != [] {
      RevokedStep(t, calls[0], caId);
      KeyedForever(t, [calls[0]]);
      assert Run(t, [calls[0]]) == After(t, calls[0]) by { assert [calls[0]][1..] == []; }
      RevocationsAreCounted(After(t, calls[0]), calls[1..], caId);
    }
  }

  /** The listing has one entry for each counted revocation. */
  lemma ListingLength(t: Tables, caId: string, entries: seq<RevokedEntry>)
    requires Lists(t, caId, entries)
    ensures |entries| == |RevokedSerials(t, caId)|
  {
    var serials := seq(|entries|, i requires 0 <= i < |entries| => entries[i].serial);
    forall k | k in RevokedSerials(t, caId) ensures k in serials {
      var i :| 0 <= i < |entries| && entries[i].serial == k;
      assert serials[i] == k;
    }
    DistinctLength(serials, RevokedSerials(t, caId));
  }

  lemma {:induction false} DistinctLength(s: seq<string>, all: set<string>)
    requires forall i, j :: 0 <= i < j < |s| ==> s[i] != s[j]
    requires forall k :: k in s <==> k in all
    ensures |s| == |all|
  {
    if s == [] {
      assert all == {};
    } else {
      var rest := all - {s[0]};
      assert s[0] in all;
      forall k ensures k in s[1..] <==> k in rest {
        assert s == [s[0]] + s[1..];
      }
      DistinctLength(s[1..], rest);
    }
  }

  /** Calls that revoke this serial for any CA, acknowledged or not. */
  function RevocationsOf(t: Tables, calls: seq<Call>, serial: string): nat
    decreases calls
  {
    if calls == [] then 0
    else
      (if calls[0].write.RevokeCert? && calls[0].write.serial == serial && Revokes(t, calls[0], calls[0].write.caId)
       then 1 else 0)
      + RevocationsOf(After(t, calls[0]), calls[1..], serial)
  }

  /** Over every run a serial is revoked at most once; once revoked, never again. */
  lemma {:induction false} RevokedAtMostOnce(t: Tables, calls: seq<Call>, serial: string)
    ensures RevocationsOf(t, calls, serial) <= 1
    ensures serial in t.certs && t.certs[serial].status != STATUS_VALID ==> RevocationsOf(t, calls, serial) == 0
    decreases calls
  {
    if calls != [] {
      RevokedAtMostOnce(After(t, calls[0]), calls[1..], serial);
    }
  }

  /** A serial is known to at most one CA, and keeps it. */
  lemma OneAuthorityPerSerial(t: Tables, calls: seq<Call>, a: string, b: string, serial: string)
    requires !StatusOf(t, a, serial).Unknown?
    ensures !StatusOf(Run(t, calls), a, serial).Unknown?
    ensures !StatusOf(Run(t, calls), b, serial).Unknown? ==> a == b
  {
    RevokedForever(t, calls, serial);
  }

  lemma {:induction false} RunAppend(t: Tables, xs: seq<Call>, ys: seq<Call>)
    ensures Run(t, xs + ys) == Run(Run(t, xs), ys)
    decreases xs
  {
    if xs == [] {
      assert xs + ys == ys;
    } else {
      assert (xs + ys)[1..] == xs[1..] + ys;
      RunAppend(After(t, xs[0]), xs[1..], ys);
    }
  }

  /** Recording leaves the certificates alone. */
  lemma RecordKeepsCerts(t: Tables, id: string, profile: string, status: string, messageType: string, createdAt: string,
                         existing: bool, fate: Fate)
    ensures After(t, Call(RecordWrite(id, profile, status, messageType, createdAt, existing), fate)).certs == t.certs
  {
  }
}
