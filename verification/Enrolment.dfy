/**
 Enrolment as a machine of interleaved steps. Each `.await` of `pki_operation`
 (`src/http/scep.rs`) is a step boundary, any number of requests are under way,
 revocations happen in between, every database call may fail or lose its answer,
 and a request may be dropped at any await.
 */
module Enrolment {
  import opened Wrappers
  import opened Asn1
  import opened AppState
  import opened Repository
  import opened Revocation
  import opened Scep
  import Challenge
  import Envelope
  import SerialNumbers
  import Verify

  /** The await a request is suspended at. */
  datatype Stage =
    | Validating
    | Inserting
    | Selecting(status: string)
    | Writing(status: string, createdAt: nat, existing: bool)
    | Finished

  /** What was issued, and from which random octets and clock reading. */
  datatype Issued = Issued(random: bytes, now: nat, cert: Certificate)

  /** One admitted request under way, with what it was given. */
  datatype Session = Session(profile: string, body: bytes, job: Job, verdict: bool, issued: Option<Issued>,
                             stage: Stage)

  /** The request run a certificate row comes from, and when it was written. */
  datatype Origin = Origin(id: nat, createdAt: nat)

  /** `calls`, `origins` and `recorders` are history: the writes so far, and who inserted which row of either table. */
  datatype Machine = Machine(
    tables: Tables, sessions: map<nat, Session>, calls: seq<Call>,
    origins: map<string, Origin>, recorders: map<string, nat>)

  const IDLE := Machine(EMPTY, map[], [], map[], map[])

  datatype Action =
    | Start(id: nat, profile: string, body: bytes)
    | Validated(id: nat, verdict: bool, random: bytes, now: nat)
    | Insert(id: nat, now: nat, fate: Fate)
    | Select(id: nat, now: nat, up: bool)
    | WriteTransaction(id: nat, fate: Fate)
    | Drop(id: nat)
    | RevokeRow(caId: string, serial: string, reason: int, at: string, fate: Fate)

  // ----- steps -----

  predicate At(m: Machine, id: nat, stage: Stage) { id in m.sessions && m.sessions[id].stage == stage }

  function Put(m: Machine, id: nat, session: Session): Machine { m.(sessions := m.sessions[id := session]) }

  function Moved(m: Machine, id: nat, stage: Stage): Machine
    requires id in m.sessions
  {
    Put(m, id, m.sessions[id].(stage := stage))
  }

  function Performed(m: Machine, call: Call): Machine {
    m.(tables := After(m.tables, call), calls := m.calls + [call])
  }

  /** After the validator's answer everything up to the insert is synchronous. */
  function AfterVerdict(st: State, s: Services, x: Session, verdict: bool, random: bytes, now: nat): Session
    requires |random| == 16
  {
    if !Challenge.Approves(x.job.rt.validator, x.job.Input(), verdict) then
      x.(verdict := verdict, stage := Selecting(FAILED))
    else
      match Issue(s, IssuanceFor(st, x.job, random, now))
      case None => x.(verdict := verdict, stage := Finished)
      case Some(cert) =>
        if ToDer(CertificateToAny(cert)).Err? then x.(verdict := verdict, stage := Finished)
        else x.(verdict := verdict, issued := Some(Issued(random, now, cert)), stage := Inserting)
  }

  /** The row a session inserts. */
  function RowOf(st: State, s: Services, x: Session, createdAt: nat): CertRow
    requires x.issued.Some? && |x.issued.value.random| == 16
  {
    var i := x.issued.value;
    RowFor(s, x.job, IssuanceFor(st, x.job, i.random, i.now), i.cert, createdAt)
  }

  function InsertStep(st: State, s: Services, m: Machine, id: nat, now: nat, fate: Fate): Machine
    requires At(m, id, Inserting)
  {
    var x := m.sessions[id];
    if x.issued.None? || |x.issued.value.random| != 16 then m
    else
      var row := RowOf(st, s, x, now);
      var call := Call(InsertCert(row), fate);
      var effective := !fate.Down? && row.serial !in m.tables.certs;
      var done := Performed(m, call).(
        origins := if effective then m.origins[row.serial := Origin(id, now)] else m.origins);
      Moved(done, id, if Answer(m.tables, call).Ok? then Selecting(ISSUED) else Finished)
  }

  function WriteStep(m: Machine, id: nat, fate: Fate): Machine
    requires id in m.sessions && m.sessions[id].stage.Writing?
  {
    var x := m.sessions[id];
    var t := x.job.request.transactionId;
    var write := RecordWrite(t, x.job.rt.name, x.stage.status, RECORDED_TYPE, TimestampText(x.stage.createdAt),
                             x.stage.existing);
    var inserted := !x.stage.existing && !fate.Down? && t !in m.tables.transactions;
    var done := Performed(m, Call(write, fate)).(recorders := if inserted then m.recorders[t := id] else m.recorders);
    Moved(done, id, Finished)
  }

  /** One step; an action that is not enabled changes nothing. */
  function Step(st: State, s: Services, m: Machine, a: Action): Machine {
    match a
    case Start(id, profile, body) =>
      var admission := Admit(st, s, profile, body);
      if id in m.sessions || !admission.Admitted? then m
      else Put(m, id, Session(profile, body, admission.job, false, None, Validating))
    case Validated(id, verdict, random, now) =>
      if !At(m, id, Validating) || |random| != 16 then m
      else Put(m, id, AfterVerdict(st, s, m.sessions[id], verdict, random, now))
    case Insert(id, now, fate) =>
      if !At(m, id, Inserting) then m else InsertStep(st, s, m, id, now, fate)
    case Select(id, now, up) =>
      if id !in m.sessions || !m.sessions[id].stage.Selecting? then m
      else
        var x := m.sessions[id];
        var existing := x.job.request.transactionId in m.tables.transactions;
        Moved(m, id, if up then Writing(x.stage.status, now, existing) else Finished)
    case WriteTransaction(id, fate) =>
      if id !in m.sessions || !m.sessions[id].stage.Writing? then m else WriteStep(m, id, fate)
    case Drop(id) =>
      if id in m.sessions then Moved(m, id, Finished) else m
    case RevokeRow(caId, serial, reason, at, fate) =>
      Performed(m, Call(RevokeCert(caId, serial, reason, at), fate))
  }

  function Exec(st: State, s: Services, m: Machine, actions: seq<Action>): Machine
    decreases actions
  {
    if actions == [] then m else Exec(st, s, Step(st, s, m, actions[0]), actions[1..])
  }

  // ----- the tables are a run of calls -----

  /** At most one write was performed. */
  ghost predicate Wrote(m: Machine, n: Machine, more: seq<Call>) {
    || (more == [] && n.calls == m.calls && n.tables == m.tables)
    || (|more| == 1 && n.calls == m.calls + more && n.tables == After(m.tables, more[0]))
  }

  predicate InsertReady(x: Session) { x.issued.Some? && |x.issued.value.random| == 16 }

  lemma InsertWrites(st: State, s: Services, m: Machine, id: nat, now: nat, fate: Fate) returns (more: seq<Call>)
    requires At(m, id, Inserting)
    ensures Wrote(m, InsertStep(st, s, m, id, now, fate), more)
    ensures more == [] ||
      (InsertReady(m.sessions[id]) && more == [Call(InsertCert(RowOf(st, s, m.sessions[id], now)), fate)])
  {
    var x := m.sessions[id];
    more := if x.issued.None? || |x.issued.value.random| != 16 then []
            else [Call(InsertCert(RowOf(st, s, x, now)), fate)];
  }

  lemma TransactionWrites(m: Machine, id: nat, fate: Fate) returns (more: seq<Call>)
    requires id in m.sessions && m.sessions[id].stage.Writing?
    ensures Wrote(m, WriteStep(m, id, fate), more) && |more| == 1 && !more[0].write.InsertCert?
  {
    var x := m.sessions[id];
    more := [Call(RecordWrite(x.job.request.transactionId, x.job.rt.name, x.stage.status, RECORDED_TYPE,
                              TimestampText(x.stage.createdAt), x.stage.existing), fate)];
  }

  lemma StepWrites(st: State, s: Services, m: Machine, a: Action) returns (more: seq<Call>)
    ensures Wrote(m, Step(st, s, m, a), more)
  {
    more := [];
    match a
    case Start(id, profile, body) =>
    case Validated(id, verdict, random, now) =>
    case Insert(id, now, fate) =>
      if At(m, id, Inserting) { more := InsertWrites(st, s, m, id, now, fate); }
    case Select(id, now, up) =>
    case WriteTransaction(id, fate) =>
      if id in m.sessions && m.sessions[id].stage.Writing? {
        more := TransactionWrites(m, id, fate);
      }
    case Drop(id) =>
    case RevokeRow(caId, serial, reason, at, fate) =>
      more := [Call(RevokeCert(caId, serial, reason, at), fate)];
  }

  /** The machine's history extends, and its tables are the old ones after the new calls. */
  lemma StepHistory(st: State, s: Services, m: Machine, a: Action) returns (more: seq<Call>)
    ensures Step(st, s, m, a).calls == m.calls + more
    ensures Step(st, s, m, a).tables == Run(m.tables, more)
  {
    more := StepWrites(st, s, m, a);
    RunOfOne(m.tables, more);
  }

  lemma RunOfOne(t: Tables, more: seq<Call>)
    requires |more| <= 1
    ensures Run(t, more) == if more == [] then t else After(t, more[0])
  {
    if more != [] { assert more[1..] == []; }
  }

  lemma {:induction false} ExecHistory(st: State, s: Services, m: Machine, actions: seq<Action>)
    returns (more: seq<Call>)
    ensures Exec(st, s, m, actions).calls == m.calls + more
    ensures Exec(st, s, m, actions).tables == Run(m.tables, more)
    decreases actions
  {
    if actions == [] {
      more := [];
    } else {
      var first := StepHistory(st, s, m, actions[0]);
      var rest := ExecHistory(st, s, Step(st, s, m, actions[0]), actions[1..]);
      RunAppend(m.tables, first, rest);
      more := first + rest;
      Associates(m.calls, first, rest);
    }
  }

  /**
   Whatever else happens: a transaction row is never dropped, keeps its profile
   and creation time, and a certificate row is never dropped or rewritten.
   */
  lemma RowsKeepTheirIdentity(st: State, s: Services, m: Machine, actions: seq<Action>, id: string, serial: string)
    ensures id in m.tables.transactions ==>
      && id in Exec(st, s, m, actions).tables.transactions
      && Exec(st, s, m, actions).tables.transactions[id].profile == m.tables.transactions[id].profile
      && Exec(st, s, m, actions).tables.transactions[id].createdAt == m.tables.transactions[id].createdAt
    ensures serial in m.tables.certs ==>
      && serial in Exec(st, s, m, actions).tables.certs
      && Extends(m.tables.certs[serial], Exec(st, s, m, actions).tables.certs[serial])
  {
    var more := ExecHistory(st, s, m, actions);
    if id in m.tables.transactions { TransactionIdentityForever(m.tables, more, id); }
    if serial in m.tables.certs { RevokedForever(m.tables, more, serial); }
  }

  // ----- the invariant -----

  /** The issuance of a session is the one its approved request asked for. */
  ghost predicate ProperlyIssued(st: State, s: Services, x: Session) {
    x.issued.Some? ==>
      && |x.issued.value.random| == 16
      && Challenge.Approves(x.job.rt.validator, x.job.Input(), x.verdict)
      && Issue(s, IssuanceFor(st, x.job, x.issued.value.random, x.issued.value.now)) == Some(x.issued.value.cert)
  }

  ghost predicate SessionValid(st: State, s: Services, x: Session) {
    && Admit(st, s, x.profile, x.body) == Admitted(x.job)
    && ProperlyIssued(st, s, x)
    && (x.stage.Validating? ==> x.issued.None?)
    && (x.stage.Inserting? ==> x.issued.Some?)
    && (x.stage.Selecting? || x.stage.Writing? ==> x.stage.status == ISSUED || x.stage.status == FAILED)
  }

  function Key(i: Issued): string { SerialNumbers.HexEncode(i.cert.serial) }

  /** The row under `k` is what the session inserted, up to its revocation. */
  ghost predicate Inserted(st: State, s: Services, t: Tables, k: string, x: Session, createdAt: nat) {
    && k in t.certs && x.issued.Some? && |x.issued.value.random| == 16
    && k == Key(x.issued.value)
    && !x.stage.Validating? && !x.stage.Inserting?
    && Extends(RowOf(st, s, x, createdAt), t.certs[k])
  }

  /** A certificate row and the session it comes from. */
  ghost predicate ComesFrom(st: State, s: Services, t: Tables, sessions: map<nat, Session>, k: string, o: Origin) {
    o.id in sessions && Inserted(st, s, t, k, sessions[o.id], o.createdAt)
  }

  /** Sessions about to record success have their row in place. */
  ghost predicate Backed(m: Machine, x: Session) {
    (x.stage.Selecting? || x.stage.Writing?) && x.stage.status == ISSUED ==>
      HasCertificate(m.tables, x.job.request.transactionId)
  }

  ghost predicate HasCertificate(t: Tables, transactionId: string) {
    exists k :: k in t.certs && t.certs[k].transactionId == Some(transactionId)
  }

  ghost predicate TransactionValid(t: Tables, id: string)
    requires id in t.transactions
  {
    var row := t.transactions[id];
    && (row.status == ISSUED || row.status == FAILED)
    && row.messageType == RECORDED_TYPE
    && (row.status == ISSUED ==> HasCertificate(t, id))
  }

  ghost predicate SessionsValid(st: State, s: Services, m: Machine) {
    forall id :: id in m.sessions ==> SessionValid(st, s, m.sessions[id])
  }

  ghost predicate SessionsBacked(m: Machine) { forall id :: id in m.sessions ==> Backed(m, m.sessions[id]) }

  /** Every certificate row has an origin, and every origin its row. */
  ghost predicate Accounted(st: State, s: Services, t: Tables, sessions: map<nat, Session>,
                            origins: map<string, Origin>) {
    && origins.Keys == t.certs.Keys
    && ForEach(origins, (k, o) => ComesFrom(st, s, t, sessions, k, o))
  }

  ghost predicate ForEach<T>(m: map<string, T>, p: (string, T) -> bool) { forall k :: k in m ==> p(k, m[k]) }

  ghost predicate TransactionsValid(t: Tables) { forall id :: id in t.transactions ==> TransactionValid(t, id) }

  ghost predicate Invariant(st: State, s: Services, m: Machine) {
    && SessionsValid(st, s, m) && SessionsBacked(m)
    && Accounted(st, s, m.tables, m.sessions, m.origins) && TransactionsValid(m.tables)
  }

  // ----- every step keeps it -----

  lemma ExtendsTransitive(a: CertRow, b: CertRow, c: CertRow)
    requires Extends(a, b) && Extends(b, c)
    ensures Extends(a, c)
  {
  }

  lemma RowAfter(t: Tables, c: Call, k: string)
    requires k in t.certs
    ensures k in After(t, c).certs && Extends(t.certs[k], After(t, c).certs[k])
  {
  }

  lemma StillHasCertificate(t: Tables, c: Call, id: string)
    requires HasCertificate(t, id)
    ensures HasCertificate(After(t, c), id)
  {
    var k :| k in t.certs && t.certs[k].transactionId == Some(id);
    RowAfter(t, c, k);
  }

  /** A session past its insert only moves on. */
  ghost predicate Continues(m: Machine, id: nat, x: Session) {
    id in m.sessions && !m.sessions[id].stage.Validating? && !m.sessions[id].stage.Inserting? ==>
      x == m.sessions[id].(stage := x.stage) && !x.stage.Validating? && !x.stage.Inserting?
  }

  lemma StillInserted(st: State, s: Services, t: Tables, k: string, x: Session, y: Session, createdAt: nat)
    requires Inserted(st, s, t, k, x, createdAt)
    requires y == x.(stage := y.stage) && !y.stage.Validating? && !y.stage.Inserting?
    ensures Inserted(st, s, t, k, y, createdAt)
  {
    SameRow(st, s, x, y, createdAt);
  }

  lemma PutComesFrom(st: State, s: Services, m: Machine, id: nat, x: Session, k: string, o: Origin)
    requires ComesFrom(st, s, m.tables, m.sessions, k, o) && Continues(m, id, x)
    ensures ComesFrom(st, s, m.tables, m.sessions[id := x], k, o)
  {
    if o.id == id { StillInserted(st, s, m.tables, k, m.sessions[id], x, o.createdAt); }
  }

  lemma PutAccounts(st: State, s: Services, m: Machine, id: nat, x: Session)
    requires Accounted(st, s, m.tables, m.sessions, m.origins) && Continues(m, id, x)
    ensures Accounted(st, s, m.tables, m.sessions[id := x], m.origins)
  {
    var n := Put(m, id, x);
    forall k | k in n.origins ensures ComesFrom(st, s, n.tables, n.sessions, k, n.origins[k]) {
      PutComesFrom(st, s, m, id, x, k, m.origins[k]);
    }
  }

  lemma SameRow(st: State, s: Services, x: Session, y: Session, createdAt: nat)
    requires x.issued.Some? && |x.issued.value.random| == 16
    requires y == x.(stage := y.stage)
    ensures RowOf(st, s, y, createdAt) == RowOf(st, s, x, createdAt)
  {
  }

  lemma PutKeeps(st: State, s: Services, m: Machine, id: nat, x: Session)
    requires Invariant(st, s, m)
    requires SessionValid(st, s, x) && Backed(m, x) && Continues(m, id, x)
    ensures Invariant(st, s, Put(m, id, x))
  {
    PutAccounts(st, s, m, id, x);
    PutSessions(st, s, m, id, x);
  }

  lemma PutSessions(st: State, s: Services, m: Machine, id: nat, x: Session)
    requires SessionsValid(st, s, m) && SessionsBacked(m)
    requires SessionValid(st, s, x) && Backed(m, x)
    ensures SessionsValid(st, s, Put(m, id, x)) && SessionsBacked(Put(m, id, x))
  {
    var n := Put(m, id, x);
    forall i | i in n.sessions ensures Backed(n, n.sessions[i]) {
      assert Backed(m, n.sessions[i]);
    }
  }

  /** A write of a transaction row that may be written, or a revocation. */
  ghost predicate Allowed(t: Tables, w: Write) {
    match w
    case InsertCert(_) => false
    case RevokeCert(_, _, _, _) => true
    case InsertTransaction(id, row) =>
      (row.status == FAILED || (row.status == ISSUED && HasCertificate(t, id))) && row.messageType == RECORDED_TYPE
    case UpdateTransaction(id, status, messageType) =>
      (status == FAILED || (status == ISSUED && HasCertificate(t, id))) && messageType == RECORDED_TYPE
  }

  lemma StillBacked(m: Machine, c: Call)
    requires SessionsBacked(m)
    ensures SessionsBacked(Performed(m, c))
  {
    var n := Performed(m, c);
    forall i | i in n.sessions ensures Backed(n, n.sessions[i]) {
      assert Backed(m, n.sessions[i]);
      var id := n.sessions[i].job.request.transactionId;
      if HasCertificate(m.tables, id) { StillHasCertificate(m.tables, c, id); }
    }
  }

  /** A row's provenance survives any call that leaves its session alone. */
  lemma StillComesFrom(st: State, s: Services, m: Machine, c: Call, k: string, o: Origin)
    requires ComesFrom(st, s, m.tables, m.sessions, k, o)
    ensures ComesFrom(st, s, After(m.tables, c), m.sessions, k, o)
  {
    var row := RowOf(st, s, m.sessions[o.id], o.createdAt);
    RowAfter(m.tables, c, k);
    ExtendsTransitive(row, m.tables.certs[k], After(m.tables, c).certs[k]);
  }

  lemma TransactionsAfter(t: Tables, c: Call)
    requires TransactionsValid(t) && (c.write.InsertCert? || Allowed(t, c.write))
    ensures TransactionsValid(After(t, c))
  {
    var u := After(t, c);
    forall id | id in u.transactions ensures TransactionValid(u, id) {
      if id in t.transactions { assert TransactionValid(t, id); }
      if HasCertificate(t, id) { StillHasCertificate(t, c, id); }
    }
  }

  lemma CallKeeps(st: State, s: Services, m: Machine, c: Call)
    requires Invariant(st, s, m) && Allowed(m.tables, c.write)
    ensures Invariant(st, s, Performed(m, c))
  {
    var n := Performed(m, c);
    assert n.tables.certs.Keys == m.tables.certs.Keys;
    forall k | k in n.origins ensures ComesFrom(st, s, n.tables, n.sessions, k, n.origins[k]) {
      StillComesFrom(st, s, m, c, k, m.origins[k]);
    }
    StillBacked(m, c);
    TransactionsAfter(m.tables, c);
  }

  /** The insert's effect on the tables: nothing, or one new row. */
  lemma InsertEffect(t: Tables, row: CertRow, fate: Fate)
    ensures After(t, Call(InsertCert(row), fate)) ==
      if !fate.Down? && row.serial !in t.certs then t.(certs := t.certs[row.serial := row]) else t
    ensures Answer(t, Call(InsertCert(row), fate)).Ok? <==> fate.Acknowledged? && row.serial !in t.certs
  {
  }

  lemma RowOfSession(st: State, s: Services, x: Session, createdAt: nat)
    requires x.issued.Some? && |x.issued.value.random| == 16
    ensures RowOf(st, s, x, createdAt).serial == Key(x.issued.value)
    ensures RowOf(st, s, x, createdAt).transactionId == Some(x.job.request.transactionId)
    ensures RowOf(st, s, x, createdAt).status == STATUS_VALID
  {
  }

  /** The step, in terms of its row. */
  lemma InsertShape(st: State, s: Services, m: Machine, id: nat, now: nat, fate: Fate)
    returns (row: CertRow, stage: Stage)
    requires At(m, id, Inserting)
    requires m.sessions[id].issued.Some? && |m.sessions[id].issued.value.random| == 16
    ensures row == RowOf(st, s, m.sessions[id], now)
    ensures stage == Finished || (stage == Selecting(ISSUED) && fate.Acknowledged? && row.serial !in m.tables.certs)
    ensures stage == if Answer(m.tables, Call(InsertCert(row), fate)).Ok? then Selecting(ISSUED) else Finished
    ensures var call := Call(InsertCert(row), fate);
      InsertStep(st, s, m, id, now, fate) ==
        Put(Performed(m, call), id, m.sessions[id].(stage := stage)).(
          origins := if !fate.Down? && row.serial !in m.tables.certs then m.origins[row.serial := Origin(id, now)]
            else m.origins)
  {
    row := RowOf(st, s, m.sessions[id], now);
    InsertEffect(m.tables, row, fate);
    stage := if Answer(m.tables, Call(InsertCert(row), fate)).Ok? then Selecting(ISSUED) else Finished;
  }

  lemma AddedToAll<T>(m: map<string, T>, p: (string, T) -> bool, k: string, v: T)
    requires ForEach(m, p) && p(k, v)
    ensures ForEach(m[k := v], p)
  {
  }

  lemma InsertAccounts(st: State, s: Services, m: Machine, id: nat, now: nat, row: CertRow, fate: Fate, x: Session)
    requires Accounted(st, s, m.tables, m.sessions, m.origins) && At(m, id, Inserting)
    requires m.sessions[id].issued.Some? && |m.sessions[id].issued.value.random| == 16
    requires row == RowOf(st, s, m.sessions[id], now)
    requires x == m.sessions[id].(stage := x.stage) && !x.stage.Validating? && !x.stage.Inserting?
    ensures Accounted(st, s, After(m.tables, Call(InsertCert(row), fate)), m.sessions[id := x],
              if !fate.Down? && row.serial !in m.tables.certs then m.origins[row.serial := Origin(id, now)]
                else m.origins)
  {
    var c := Call(InsertCert(row), fate);
    OldRows(st, s, m, id, c, x);
    InsertEffect(m.tables, row, fate);
    if !fate.Down? && row.serial !in m.tables.certs {
      NewRowComesFrom(st, s, m, id, now, row, After(m.tables, c), x);
      NewRowAccounts(st, s, After(m.tables, c), m.sessions[id := x], m.origins, row.serial, Origin(id, now));
    }
  }

  lemma NewRowComesFrom(st: State, s: Services, m: Machine, id: nat, now: nat, row: CertRow, t: Tables, x: Session)
    requires At(m, id, Inserting)
    requires m.sessions[id].issued.Some? && |m.sessions[id].issued.value.random| == 16
    requires row == RowOf(st, s, m.sessions[id], now) && t.certs == m.tables.certs[row.serial := row]
    requires x == m.sessions[id].(stage := x.stage) && !x.stage.Validating? && !x.stage.Inserting?
    ensures ComesFrom(st, s, t, m.sessions[id := x], row.serial, Origin(id, now))
    ensures t.certs.Keys == m.tables.certs.Keys + {row.serial}
  {
    JustInserted(st, s, t, m.sessions[id], x, now);
  }

  lemma NewRowAccounts(st: State, s: Services, t: Tables, sessions: map<nat, Session>, origins: map<string, Origin>,
                       k: string, o: Origin)
    requires ForEach(origins, (j, q) => ComesFrom(st, s, t, sessions, j, q))
    requires t.certs.Keys == origins.Keys + {k} && ComesFrom(st, s, t, sessions, k, o)
    ensures Accounted(st, s, t, sessions, origins[k := o])
  {
    AddedToAll(origins, (j, q) => ComesFrom(st, s, t, sessions, j, q), k, o);
  }

  lemma OldRows(st: State, s: Services, m: Machine, id: nat, c: Call, x: Session)
    requires Accounted(st, s, m.tables, m.sessions, m.origins) && At(m, id, Inserting)
    ensures ForEach(m.origins, (k, o) => ComesFrom(st, s, After(m.tables, c), m.sessions[id := x], k, o))
  {
    forall k | k in m.origins
      ensures ComesFrom(st, s, After(m.tables, c), m.sessions[id := x], k, m.origins[k])
    {
      StillComesFrom(st, s, m, c, k, m.origins[k]);
      PutComesFrom(st, s, Performed(m, c), id, x, k, m.origins[k]);
    }
  }

  lemma JustInserted(st: State, s: Services, t: Tables, x: Session, y: Session, createdAt: nat)
    requires x.issued.Some? && |x.issued.value.random| == 16
    requires y == x.(stage := y.stage) && !y.stage.Validating? && !y.stage.Inserting?
    requires var row := RowOf(st, s, x, createdAt); row.serial in t.certs && t.certs[row.serial] == row
    ensures Inserted(st, s, t, RowOf(st, s, x, createdAt).serial, y, createdAt)
  {
    SameRow(st, s, x, y, createdAt);
    RowOfSession(st, s, x, createdAt);
  }

  lemma InsertKeeps(st: State, s: Services, m: Machine, id: nat, now: nat, fate: Fate)
    requires Invariant(st, s, m) && At(m, id, Inserting)
    ensures Invariant(st, s, InsertStep(st, s, m, id, now, fate))
  {
    assert SessionValid(st, s, m.sessions[id]);
    var row, stage := InsertShape(st, s, m, id, now, fate);
    var x := m.sessions[id].(stage := stage);
    var n := InsertStep(st, s, m, id, now, fate);
    var c := Call(InsertCert(row), fate);
    InsertAccounts(st, s, m, id, now, row, fate, x);
    TransactionsAfter(m.tables, c);
    StillBacked(m, c);
    InsertedBacked(st, s, m, id, now, row, fate, x);
    PutSessions(st, s, Performed(m, c), id, x);
    forall i | i in n.sessions ensures Backed(n, n.sessions[i]) {
      assert Backed(Put(Performed(m, c), id, x), n.sessions[i]);
    }
  }

  lemma InsertedBacked(st: State, s: Services, m: Machine, id: nat, now: nat, row: CertRow, fate: Fate, x: Session)
    requires At(m, id, Inserting)
    requires m.sessions[id].issued.Some? && |m.sessions[id].issued.value.random| == 16
    requires row == RowOf(st, s, m.sessions[id], now)
    requires x == m.sessions[id].(stage := x.stage)
    requires x.stage == Finished ||
      (x.stage == Selecting(ISSUED) && fate.Acknowledged? && row.serial !in m.tables.certs)
    ensures Backed(Performed(m, Call(InsertCert(row), fate)), x)
  {
    InsertEffect(m.tables, row, fate);
    RowOfSession(st, s, m.sessions[id], now);
    if x.stage != Finished {
      assert After(m.tables, Call(InsertCert(row), fate)).certs[row.serial] == row;
    }
  }

  /** Where the verdict leads, and what the session then holds. */
  lemma VerdictLeads(st: State, s: Services, x: Session, verdict: bool, random: bytes, now: nat) returns (y: Session)
    requires |random| == 16
    ensures y == AfterVerdict(st, s, x, verdict, random, now)
    ensures y == x.(verdict := verdict, issued := y.issued, stage := y.stage)
    ensures ((y.stage == Selecting(FAILED) || y.stage == Finished) && y.issued == x.issued)
      || (y.stage == Inserting && y.issued.Some? && y.issued.value.random == random && y.issued.value.now == now
          && Challenge.Approves(x.job.rt.validator, x.job.Input(), verdict)
          && Issue(s, IssuanceFor(st, x.job, random, now)) == Some(y.issued.value.cert))
  {
    y := AfterVerdict(st, s, x, verdict, random, now);
  }

  lemma VerdictValid(st: State, s: Services, x: Session, verdict: bool, random: bytes, now: nat)
    requires SessionValid(st, s, x) && x.stage.Validating? && |random| == 16
    ensures var y := AfterVerdict(st, s, x, verdict, random, now);
      && SessionValid(st, s, y) && !y.stage.Validating? && !y.stage.Writing?
      && (y.stage.Selecting? ==> y.stage.status == FAILED)
  {
    var y := VerdictLeads(st, s, x, verdict, random, now);
  }

  lemma VerdictKeeps(st: State, s: Services, m: Machine, id: nat, verdict: bool, random: bytes, now: nat)
    requires Invariant(st, s, m) && At(m, id, Validating) && |random| == 16
    ensures Invariant(st, s, Put(m, id, AfterVerdict(st, s, m.sessions[id], verdict, random, now)))
  {
    assert SessionValid(st, s, m.sessions[id]);
    VerdictValid(st, s, m.sessions[id], verdict, random, now);
    PutKeeps(st, s, m, id, AfterVerdict(st, s, m.sessions[id], verdict, random, now));
  }

  /** Moving on past the insert. */
  lemma MoveKeeps(st: State, s: Services, m: Machine, id: nat, stage: Stage)
    requires Invariant(st, s, m) && id in m.sessions
    requires stage == Finished
      || (stage.Writing? && m.sessions[id].stage.Selecting? && stage.status == m.sessions[id].stage.status)
    ensures Invariant(st, s, Moved(m, id, stage))
  {
    var x := m.sessions[id];
    assert SessionValid(st, s, x) && Backed(m, x);
    PutKeeps(st, s, m, id, x.(stage := stage));
  }

  lemma WriteKeeps(st: State, s: Services, m: Machine, id: nat, fate: Fate)
    requires Invariant(st, s, m) && id in m.sessions && m.sessions[id].stage.Writing?
    ensures Invariant(st, s, WriteStep(m, id, fate))
  {
    var x := m.sessions[id];
    assert SessionValid(st, s, x) && Backed(m, x);
    var call := Call(RecordWrite(x.job.request.transactionId, x.job.rt.name, x.stage.status, RECORDED_TYPE,
                                 TimestampText(x.stage.createdAt), x.stage.existing), fate);
    CallKeeps(st, s, m, call);
    var done := Performed(m, call).(recorders := WriteStep(m, id, fate).recorders);
    assert Invariant(st, s, done) by { RecordersIgnored(st, s, Performed(m, call), done); }
    MoveKeeps(st, s, done, id, Finished);
  }

  /** The invariant does not look at who recorded what. */
  lemma RecordersIgnored(st: State, s: Services, m: Machine, n: Machine)
    requires Invariant(st, s, m) && n == m.(recorders := n.recorders)
    ensures Invariant(st, s, n)
  {
    forall id | id in n.sessions ensures Backed(n, n.sessions[id]) {
      assert Backed(m, m.sessions[id]);
    }
  }

  lemma StartKeeps(st: State, s: Services, m: Machine, id: nat, profile: string, body: bytes)
    requires Invariant(st, s, m)
    ensures Invariant(st, s, Step(st, s, m, Start(id, profile, body)))
  {
    var admission := Admit(st, s, profile, body);
    if id !in m.sessions && admission.Admitted? {
      PutKeeps(st, s, m, id, Session(profile, body, admission.job, false, None, Validating));
    }
  }

  lemma ValidatedKeeps(st: State, s: Services, m: Machine, id: nat, verdict: bool, random: bytes, now: nat)
    requires Invariant(st, s, m)
    ensures Invariant(st, s, Step(st, s, m, Validated(id, verdict, random, now)))
  {
    if At(m, id, Validating) && |random| == 16 { VerdictKeeps(st, s, m, id, verdict, random, now); }
  }

  lemma SelectKeeps(st: State, s: Services, m: Machine, id: nat, now: nat, up: bool)
    requires Invariant(st, s, m)
    ensures Invariant(st, s, Step(st, s, m, Select(id, now, up)))
  {
    if id in m.sessions && m.sessions[id].stage.Selecting? {
      var x := m.sessions[id];
      var existing := x.job.request.transactionId in m.tables.transactions;
      MoveKeeps(st, s, m, id, if up then Writing(x.stage.status, now, existing) else Finished);
    }
  }

  lemma WriteStepKeeps(st: State, s: Services, m: Machine, id: nat, fate: Fate)
    requires Invariant(st, s, m)
    ensures Invariant(st, s, Step(st, s, m, WriteTransaction(id, fate)))
  {
    StepOfWrite(st, s, m, id, fate);
    if id in m.sessions && m.sessions[id].stage.Writing? { WriteKeeps(st, s, m, id, fate); }
  }

  lemma StepOfWrite(st: State, s: Services, m: Machine, id: nat, fate: Fate)
    ensures Step(st, s, m, WriteTransaction(id, fate)) ==
      if id !in m.sessions || !m.sessions[id].stage.Writing? then m else WriteStep(m, id, fate)
  {
    var a := WriteTransaction(id, fate);
    calc {
      Step(st, s, m, a);
      if a.id !in m.sessions || !m.sessions[a.id].stage.Writing? then m else WriteStep(m, a.id, a.fate);
    }
  }

  lemma DropKeeps(st: State, s: Services, m: Machine, id: nat)
    requires Invariant(st, s, m)
    ensures Invariant(st, s, Step(st, s, m, Drop(id)))
  {
    if id in m.sessions { MoveKeeps(st, s, m, id, Finished); }
  }

  lemma InsertOrRevokeKeeps(st: State, s: Services, m: Machine, a: Action)
    requires Invariant(st, s, m) && (a.Insert? || a.RevokeRow?)
    ensures Invariant(st, s, Step(st, s, m, a))
  {
    if a.RevokeRow? {
      CallKeeps(st, s, m, Call(RevokeCert(a.caId, a.serial, a.reason, a.at), a.fate));
    } else if At(m, a.id, Inserting) {
      InsertKeeps(st, s, m, a.id, a.now, a.fate);
    }
  }

  lemma StepKeeps(st: State, s: Services, m: Machine, a: Action)
    requires Invariant(st, s, m)
    ensures Invariant(st, s, Step(st, s, m, a))
  {
    match a
    case Start(id, profile, body) => StartKeeps(st, s, m, id, profile, body);
    case Validated(id, verdict, random, now) => ValidatedKeeps(st, s, m, id, verdict, random, now);
    case Select(id, now, up) => SelectKeeps(st, s, m, id, now, up);
    case WriteTransaction(id, fate) => WriteStepKeeps(st, s, m, id, fate);
    case Drop(id) => DropKeeps(st, s, m, id);
    case _ => InsertOrRevokeKeeps(st, s, m, a);
  }

  lemma {:induction false} ExecKeeps(st: State, s: Services, m: Machine, actions: seq<Action>)
    requires Invariant(st, s, m)
    ensures Invariant(st, s, Exec(st, s, m, actions))
    decreases actions
  {
    if actions != [] {
      StepKeeps(st, s, m, actions[0]);
      ExecKeeps(st, s, Step(st, s, m, actions[0]), actions[1..]);
    }
  }

  lemma IdleKeeps(st: State, s: Services)
    ensures Invariant(st, s, IDLE)
  {
  }

  // ----- what holds over every run -----

  /** An admitted request verified, is an enrolment, and its CSR was inside its envelope. */
  ghost predicate RequestVerified(st: State, s: Services, profile: string, body: bytes, job: Job) {
    && profile in st.profiles && job.rt == st.profiles[profile]
    && job.rt.caId in st.cas && job.ca == st.cas[job.rt.caId]
    && Verify.ParseAndVerify(s.p, body) == Ok(job.request)
    && (job.request.messageType.PkcsReq? || job.request.messageType.RenewalReq?)
    && job.request.enveloped.Some?
    && var plain := Envelope.Open(s.p, job.request.enveloped.value, job.ca.cert, job.ca.key);
       plain.Ok? && ParseCsr(s, plain.value) == Some(job.csr) && job.csr.der == plain.value
  }

  lemma AdmittedIsVerified(st: State, s: Services, profile: string, body: bytes, job: Job)
    requires Admit(st, s, profile, body) == Admitted(job)
    ensures RequestVerified(st, s, profile, body, job)
  {
  }

  /** The validator approved this CSR and password; for a static profile the password is the secret. */
  ghost predicate Approved(x: Session) {
    && Challenge.Approves(x.job.rt.validator, x.job.Input(), x.verdict)
    && x.job.Input() == Challenge.ValidationInput(x.job.request.transactionId, x.job.csr.der, x.job.csr.password)
    && (x.job.rt.validator.StaticSecret? ==> x.job.csr.password == Some(x.job.rt.validator.secret))
  }

  /** The row names the CA whose responder and CRL the certificate points to, the request and the profile. */
  ghost predicate RowNames(st: State, x: Session, row: CertRow) {
    && x.issued.Some? && |x.issued.value.random| == 16
    && row.transactionId == Some(x.job.request.transactionId) && row.profile == Some(x.profile)
    && var opts := IssuanceFor(st, x.job, x.issued.value.random, x.issued.value.now).opts;
       opts.ocspUrl == OcspUrl(st, row.caId) && opts.crlUrl == CrlUrl(st, row.caId) && row.caId == x.job.ca.id
  }

  lemma InsertedRowNames(st: State, s: Services, t: Tables, k: string, x: Session, createdAt: nat)
    requires Consistent(st) && Inserted(st, s, t, k, x, createdAt)
    requires RequestVerified(st, s, x.profile, x.body, x.job)
    ensures RowNames(st, x, t.certs[k])
  {
    var row := RowOf(st, s, x, createdAt);
    assert row.caId == x.job.ca.id == x.job.rt.caId;
    assert Extends(row, t.certs[k]);
    assert t.certs[k].caId == row.caId && t.certs[k].transactionId == row.transactionId &&
      t.certs[k].profile == row.profile;
  }

  /**
   Provenance. Over every interleaving, each certificate row comes from exactly
   one request run: its message verified and was an enrolment, the profile's
   validator approved it, the certificate was issued from it, and the row is
   what that run wrote, up to its revocation.
   */
  lemma Provenance(st: State, s: Services, actions: seq<Action>, k: string) returns (o: Origin, x: Session)
    requires Consistent(st)
    requires k in Exec(st, s, IDLE, actions).tables.certs
    ensures var m := Exec(st, s, IDLE, actions);
      && k in m.origins && m.origins[k] == o && o.id in m.sessions && m.sessions[o.id] == x
      && (forall j :: j in m.tables.certs && j != k ==> j in m.origins && m.origins[j].id != o.id)
      && RequestVerified(st, s, x.profile, x.body, x.job)
      && Approved(x)
      && Inserted(st, s, m.tables, k, x, o.createdAt)
      && Issue(s, IssuanceFor(st, x.job, x.issued.value.random, x.issued.value.now)) == Some(x.issued.value.cert)
      && RowNames(st, x, m.tables.certs[k])
  {
    var m := Exec(st, s, IDLE, actions);
    IdleKeeps(st, s);
    ExecKeeps(st, s, IDLE, actions);
    o := m.origins[k];
    assert ComesFrom(st, s, m.tables, m.sessions, k, o);
    x := m.sessions[o.id];
    assert SessionValid(st, s, x);
    AdmittedIsVerified(st, s, x.profile, x.body, x.job);
    InsertedRowNames(st, s, m.tables, k, x, o.createdAt);
    forall j | j in m.tables.certs && j != k ensures j in m.origins && m.origins[j].id != o.id {
      assert ComesFrom(st, s, m.tables, m.sessions, j, m.origins[j]);
    }
  }

  /**
   Back to the settings: with the state built from validated ones, each
   certificate row comes from a run under a configured profile. Under a static
   one the CSR's password is the value of the variable that profile names, under
   an Intune one Intune approved.
   */
  lemma ConfiguredProvenance(settings: Settings, w: Surroundings, st: State, s: Services, actions: seq<Action>,
                             k: string)
    returns (o: Origin, x: Session, i: nat)
    requires Validate(settings).Ok? && Built(settings, w, st)
    requires k in Exec(st, s, IDLE, actions).tables.certs
    ensures var m := Exec(st, s, IDLE, actions);
      && k in m.origins && m.origins[k] == o && o.id in m.sessions && m.sessions[o.id] == x
      && Inserted(st, s, m.tables, k, x, o.createdAt) && RequestVerified(st, s, x.profile, x.body, x.job)
      && i < |settings.profile| && IsLast(settings.profile, i)
      && m.tables.certs[k].profile == Some(settings.profile[i].name)
      && Permitted(settings.profile[i], w, x)
  {
    BuiltIsConsistent(settings, w, st);
    o, x := Provenance(st, s, actions, k);
    i := ProfileIsConfigured(settings, w, st, x.profile);
  }

  /** What the profile asks of a request, the request gave. */
  ghost predicate Permitted(p: ProfileConfig, w: Surroundings, x: Session) {
    match p.challenge
    case StaticMode =>
      && p.staticSecretEnv.Some? && p.staticSecretEnv.value in w.env
      && x.job.csr.password == Some(w.env[p.staticSecretEnv.value])
    case IntuneMode => x.verdict
    case NoneMode => true
  }

  /**
   Over every interleaving, a transaction recorded as issued has a certificate
   row with its ID; every record says issued or failed, and type PKCSReq.
   */
  lemma IssuedHasCertificate(st: State, s: Services, actions: seq<Action>, id: string)
    requires id in Exec(st, s, IDLE, actions).tables.transactions
    ensures var t := Exec(st, s, IDLE, actions).tables;
      && t.transactions[id].messageType == "PKCSReq"
      && (t.transactions[id].status == "failed"
          || (t.transactions[id].status == "issued"
              && exists k :: k in t.certs && t.certs[k].transactionId == Some(id)))
  {
    IdleKeeps(st, s);
    ExecKeeps(st, s, IDLE, actions);
  }

  /** Inserts are of valid rows under serials this server generated. */
  ghost predicate ProperCall(c: Call) {
    c.write.InsertCert? ==> c.write.row.status == STATUS_VALID && IssuedKey(c.write.row.serial)
  }

  lemma IssuedRowIsProper(st: State, s: Services, x: Session, createdAt: nat)
    requires ProperlyIssued(st, s, x) && x.issued.Some?
    ensures RowOf(st, s, x, createdAt).status == STATUS_VALID && IssuedKey(RowOf(st, s, x, createdAt).serial)
  {
    var i := x.issued.value;
    SerialNumbers.SerialIsCanonical(i.random);
    RowOfSession(st, s, x, createdAt);
    IssuedFrom(s, IssuanceFor(st, x.job, i.random, i.now));
    assert SerialNumbers.IssuedSerial(i.cert.serial) && SerialNumbers.HexEncode(i.cert.serial) == Key(i);
  }

  ghost predicate AllProper(calls: seq<Call>) { forall c :: c in calls ==> ProperCall(c) }

  lemma ProperTogether(xs: seq<Call>, ys: seq<Call>)
    requires AllProper(xs) && AllProper(ys)
    ensures AllProper(xs + ys)
  {
  }

  lemma InsertIsProper(st: State, s: Services, m: Machine, id: nat, now: nat, fate: Fate) returns (more: seq<Call>)
    requires SessionsValid(st, s, m) && At(m, id, Inserting)
    ensures InsertStep(st, s, m, id, now, fate).calls == m.calls + more && AllProper(more)
  {
    more := InsertWrites(st, s, m, id, now, fate);
    assert SessionValid(st, s, m.sessions[id]);
    IssuedRowIsProper(st, s, m.sessions[id], now);
    ProperInsert(RowOf(st, s, m.sessions[id], now), fate);
  }

  lemma ProperInsert(row: CertRow, fate: Fate)
    requires row.status == STATUS_VALID && IssuedKey(row.serial)
    ensures AllProper([Call(InsertCert(row), fate)])
  {
  }

  lemma StepIsProper(st: State, s: Services, m: Machine, a: Action)
    requires SessionsValid(st, s, m) && AllProper(m.calls)
    ensures AllProper(Step(st, s, m, a).calls)
  {
    if a.Insert? && At(m, a.id, Inserting) {
      var more := InsertIsProper(st, s, m, a.id, a.now, a.fate);
      ProperTogether(m.calls, more);
    }
  }

  lemma {:induction false} ExecIsProper(st: State, s: Services, m: Machine, actions: seq<Action>)
    requires Invariant(st, s, m)
    requires AllProper(m.calls)
    ensures AllProper(Exec(st, s, m, actions).calls)
    decreases actions
  {
    if actions != [] {
      StepKeeps(st, s, m, actions[0]);
      StepIsProper(st, s, m, actions[0]);
      ExecIsProper(st, s, Step(st, s, m, actions[0]), actions[1..]);
    }
  }

  /** Every state of the machine is a run of proper calls from empty tables. */
  lemma TablesAreARun(st: State, s: Services, actions: seq<Action>)
    ensures var m := Exec(st, s, IDLE, actions);
      m.tables == Run(EMPTY, m.calls) && PersistOnly(m.calls) && IssuedTables(m.tables)
  {
    var m := Exec(st, s, IDLE, actions);
    var more := ExecHistory(st, s, IDLE, actions);
    assert [] + more == more;
    IdleKeeps(st, s);
    ExecIsProper(st, s, IDLE, actions);
    assert forall i :: 0 <= i < |m.calls| ==> ProperCall(m.calls[i]);
    IssuedForever(EMPTY, m.calls);
  }

  /**
   In every reachable state a CA's CRL, when it can be built, has one entry per
   revocation of the CA's certificates, answered or not, and lists exactly the
   serials its responder reports revoked, at the same second.
   */
  lemma ViewsAlwaysAgree(st: State, s: Services, actions: seq<Action>, caId: string, entries: seq<RevokedEntry>,
                         crlNow: int, ocspNow: int, list: seq<RevokedCert>)
    requires Lists(Exec(st, s, IDLE, actions).tables, caId, entries)
    requires CrlEntries(entries, crlNow) == Ok(list)
    ensures var m := Exec(st, s, IDLE, actions);
      && (forall n: Serial :: OcspStatus(m.tables, caId, n, ocspNow).StatusRevoked? <==> OnList(list, n))
      && |list| == |entries|
      && (forall i :: 0 <= i < |list| ==> SameSecond(m.tables, caId, entries[i], list[i], crlNow, ocspNow))
      && |list| == Revocations(EMPTY, m.calls, caId, Acknowledged) + Revocations(EMPTY, m.calls, caId, Lost)
  {
    var m := Exec(st, s, IDLE, actions);
    TablesAreARun(st, s, actions);
    ViewsAgree(m.tables, caId, entries, crlNow, ocspNow, list);
    ListingLength(m.tables, caId, entries);
    RevocationsAreCounted(EMPTY, m.calls, caId);
    assert RevokedSerials(EMPTY, caId) == {};
  }

  /** A dropped request does nothing more, whatever it was suspended at. */
  lemma DroppedStops(st: State, s: Services, m: Machine, id: nat, w: World, c: Calls)
    requires id in m.sessions && |w.serialRandom| == 16
    ensures var n := Step(st, s, m, Drop(id));
      && n.tables == m.tables && At(n, id, Finished)
      && Step(st, s, n, Validated(id, w.verdict, w.serialRandom, w.now)) == n
      && Step(st, s, n, Insert(id, w.insertedAt, c.insert)) == n
      && Step(st, s, n, Select(id, w.recordedAt, c.selectUp)) == n
      && Step(st, s, n, WriteTransaction(id, c.write)) == n
  {
    NothingLeft(st, s, Step(st, s, m, Drop(id)), id, w, c);
  }

  /** A revocation step is one call of `revoke`, whenever it comes. */
  lemma RevocationIsACall(st: State, s: Services, m: Machine, caId: string, serial: string, reason: int, at: string,
                          fate: Fate)
    ensures Step(st, s, m, RevokeRow(caId, serial, reason, at, fate)).tables ==
      After(m.tables, Call(RevokeCert(caId, serial, reason, at), fate))
    ensures Step(st, s, m, RevokeRow(caId, serial, reason, at, fate)).sessions == m.sessions
  {
  }

  // ----- one run alone is `pki_operation` -----

  /** The steps of one request that nothing interleaves with. */
  function Alone(id: nat, profile: string, body: bytes, w: World, c: Calls): seq<Action> {
    [Start(id, profile, body), Validated(id, w.verdict, w.serialRandom, w.now), Insert(id, w.insertedAt, c.insert),
     Select(id, w.recordedAt, c.selectUp), WriteTransaction(id, c.write)]
  }

  lemma ExecFive(st: State, s: Services, m: Machine, a: Action, b: Action, c: Action, d: Action, e: Action)
    ensures Exec(st, s, m, [a, b, c, d, e]) ==
      Step(st, s, Step(st, s, Step(st, s, Step(st, s, Step(st, s, m, a), b), c), d), e)
  {
    var m1 := Step(st, s, m, a);
    var m2 := Step(st, s, m1, b);
    var m3 := Step(st, s, m2, c);
    var m4 := Step(st, s, m3, d);
    assert [a, b, c, d, e][1..] == [b, c, d, e] && [b, c, d, e][1..] == [c, d, e];
    assert [c, d, e][1..] == [d, e] && [d, e][1..] == [e] && [e][1..] == [];
    assert Exec(st, s, m4, [e]) == Exec(st, s, Step(st, s, m4, e), []);
    assert Exec(st, s, m3, [d, e]) == Exec(st, s, m4, [e]);
    assert Exec(st, s, m2, [c, d, e]) == Exec(st, s, m3, [d, e]);
    assert Exec(st, s, m1, [b, c, d, e]) == Exec(st, s, m2, [c, d, e]);
  }

  /** A finished or unknown session does nothing more. */
  lemma NothingLeft(st: State, s: Services, m: Machine, id: nat, w: World, c: Calls)
    requires id in m.sessions ==> m.sessions[id].stage.Finished?
    ensures Step(st, s, m, Insert(id, w.insertedAt, c.insert)) == m
    ensures Step(st, s, m, Select(id, w.recordedAt, c.selectUp)) == m &&
      Step(st, s, m, WriteTransaction(id, c.write)) == m
  {
  }

  lemma RecordsAlone(st: State, s: Services, m: Machine, id: nat, status: string, now: nat, c: Calls)
    requires At(m, id, Selecting(status))
    ensures Step(st, s, Step(st, s, m, Select(id, now, c.selectUp)), WriteTransaction(id, c.write)).tables ==
      Recorded(m.tables, m.sessions[id].job, status, now, c)
  {
  }

  lemma RowOfIs(st: State, s: Services, x: Session, createdAt: nat, job: Job, w: World, cert: Certificate)
    requires x.job == job && |w.serialRandom| == 16 && x.issued == Some(Issued(w.serialRandom, w.now, cert))
    ensures RowOf(st, s, x, createdAt) == RowFor(s, job, IssuanceFor(st, job, w.serialRandom, w.now), cert, createdAt)
  {
  }

  lemma InsertsAlone(st: State, s: Services, m: Machine, id: nat, now: nat, c: Calls, row: CertRow)
    requires At(m, id, Inserting) && InsertReady(m.sessions[id])
    requires row == RowOf(st, s, m.sessions[id], now)
    ensures var call := Call(InsertCert(row), c.insert);
      var n := Step(st, s, m, Insert(id, now, c.insert));
      && n.tables == After(m.tables, call) && id in n.sessions && n.sessions[id].job == m.sessions[id].job
      && n.sessions[id].stage == if Answer(m.tables, call).Ok? then Selecting(ISSUED) else Finished
  {
    var same, stage := InsertShape(st, s, m, id, now, c.insert);
    assert Step(st, s, m, Insert(id, now, c.insert)) == InsertStep(st, s, m, id, now, c.insert);
  }

  /** Without interleaving, the machine does to the tables exactly what `pki_operation` does. */
  lemma AloneIsPkiOperation(st: State, s: Services, m: Machine, id: nat, profile: string, body: bytes, w: World,
                            c: Calls)
    requires w.Valid() && id !in m.sessions
    ensures Exec(st, s, m, Alone(id, profile, body, w, c)).tables == TablesAfter(st, s, profile, body, w, m.tables, c)
  {
    var actions := Alone(id, profile, body, w, c);
    ExecFive(st, s, m, actions[0], actions[1], actions[2], actions[3], actions[4]);
    var m1 := Step(st, s, m, actions[0]);
    match Admit(st, s, profile, body)
    case Refused(_) => NothingLeft(st, s, m, id, w, c);
    case Unopened(_, _) => NothingLeft(st, s, m, id, w, c);
    case Admitted(job) => AdmittedAlone(st, s, m, id, profile, body, w, c, job, m1);
  }

  /** Runs compose. */
  lemma {:induction false} ExecAppend(st: State, s: Services, m: Machine, xs: seq<Action>, ys: seq<Action>)
    ensures Exec(st, s, m, xs + ys) == Exec(st, s, Exec(st, s, m, xs), ys)
    decreases xs
  {
    if xs == [] {
      assert xs + ys == ys;
    } else {
      assert (xs + ys)[0] == xs[0] && (xs + ys)[1..] == xs[1..] + ys;
      ExecAppend(st, s, Step(st, s, m, xs[0]), xs[1..], ys);
    }
  }

  lemma StepStarts(st: State, s: Services, m: Machine, a: Action, id: nat)
    requires a.Start? ==> a.id == id
    ensures Step(st, s, m, a).sessions.Keys <= m.sessions.Keys + {id}
  {
  }

  lemma {:induction false} ExecStarts(st: State, s: Services, m: Machine, actions: seq<Action>, id: nat)
    requires forall a :: a in actions && a.Start? ==> a.id == id
    ensures Exec(st, s, m, actions).sessions.Keys <= m.sessions.Keys + {id}
    decreases actions
  {
    if actions != [] {
      StepStarts(st, s, m, actions[0], id);
      ExecStarts(st, s, Step(st, s, m, actions[0]), actions[1..], id);
    }
  }

  /** Two requests one after the other do to the tables what `pki_operation` does twice. */
  lemma AloneInSequence(st: State, s: Services, m: Machine, a: nat, first: string, b: nat, second: string, body: bytes,
                        w: World, c: Calls)
    requires w.Valid() && a != b && a !in m.sessions && b !in m.sessions
    ensures Exec(st, s, m, Alone(a, first, body, w, c) + Alone(b, second, body, w, c)).tables
      == TablesAfter(st, s, second, body, w, TablesAfter(st, s, first, body, w, m.tables, c), c)
  {
    AloneIsPkiOperation(st, s, m, a, first, body, w, c);
    ExecStarts(st, s, m, Alone(a, first, body, w, c), a);
    ExecAppend(st, s, m, Alone(a, first, body, w, c), Alone(b, second, body, w, c));
    AloneIsPkiOperation(st, s, Exec(st, s, m, Alone(a, first, body, w, c)), b, second, body, w, c);
  }

  lemma AdmittedAlone(st: State, s: Services, m: Machine, id: nat, profile: string, body: bytes, w: World, c: Calls,
                      job: Job, m1: Machine)
    requires w.Valid() && id !in m.sessions
    requires Admit(st, s, profile, body) == Admitted(job) && m1 == Step(st, s, m, Start(id, profile, body))
    ensures var m2 := Step(st, s, m1, Validated(id, w.verdict, w.serialRandom, w.now));
      Step(st, s, Step(st, s, Step(st, s, m2, Insert(id, w.insertedAt, c.insert)),
                       Select(id, w.recordedAt, c.selectUp)),
           WriteTransaction(id, c.write)).tables
      == AdmittedTables(st, s, job, w, m.tables, c)
  {
    var x := Session(profile, body, job, false, None, Validating);
    assert m1 == Put(m, id, x);
    VerdictStep(st, s, m1, id, w);
    RestAlone(st, s, Put(m1, id, AfterVerdict(st, s, x, w.verdict, w.serialRandom, w.now)), id, w, c, x);
  }

  lemma VerdictStep(st: State, s: Services, m: Machine, id: nat, w: World)
    requires At(m, id, Validating) && |w.serialRandom| == 16
    ensures Step(st, s, m, Validated(id, w.verdict, w.serialRandom, w.now)) ==
      Put(m, id, AfterVerdict(st, s, m.sessions[id], w.verdict, w.serialRandom, w.now))
  {
  }

  lemma RestAlone(st: State, s: Services, m: Machine, id: nat, w: World, c: Calls, x: Session)
    requires w.Valid() && id in m.sessions && m.sessions[id] == AfterVerdict(st, s, x, w.verdict, w.serialRandom, w.now)
    ensures Step(st, s, Step(st, s, Step(st, s, m, Insert(id, w.insertedAt, c.insert)),
                             Select(id, w.recordedAt, c.selectUp)),
                 WriteTransaction(id, c.write)).tables
      == AdmittedTables(st, s, x.job, w, m.tables, c)
  {
    var y := m.sessions[id];
    VerdictAlone(st, s, x, w);
    FinishesAs(st, s, x, w, m.tables, c);
    match y.stage
    case Selecting(_) => RejectedAlone(st, s, m, id, w, c);
    case Inserting => PersistsAlone(st, s, m, id, w, c, x.job, y.issued.value.cert);
    case Finished => NothingLeft(st, s, m, id, w, c);
  }

  /** What the verdict leads to, in the three ways it can. */
  lemma VerdictAlone(st: State, s: Services, x: Session, w: World)
    requires |w.serialRandom| == 16
    ensures var y := AfterVerdict(st, s, x, w.verdict, w.serialRandom, w.now);
      && y.job == x.job
      && (y.stage == Selecting(FAILED) || y.stage == Finished
          || (y.stage == Inserting && y.issued.Some?
              && y.issued == Some(Issued(w.serialRandom, w.now, y.issued.value.cert))))
  {
  }

  /** The tables `pki_operation` leaves, by what the verdict led to. */
  lemma FinishesAs(st: State, s: Services, x: Session, w: World, t: Tables, c: Calls)
    requires w.Valid()
    ensures var y := AfterVerdict(st, s, x, w.verdict, w.serialRandom, w.now);
      AdmittedTables(st, s, x.job, w, t, c) ==
      match y.stage
      case Selecting(_) => Recorded(t, x.job, FAILED, w.recordedAt, c)
      case Inserting =>
        var insert := Call(InsertCert(RowFor(s, x.job, IssuanceFor(st, x.job, w.serialRandom, w.now),
                                             y.issued.value.cert, w.insertedAt)), c.insert);
        if Answer(t, insert).Err? then After(t, insert) else Recorded(After(t, insert), x.job, ISSUED, w.recordedAt, c)
      case _ => t
  {
    if !Challenge.Approves(x.job.rt.validator, x.job.Input(), w.verdict) {
      RejectedTables(st, s, x, w, t, c);
    } else {
      match Issue(s, IssuanceFor(st, x.job, w.serialRandom, w.now))
      case None => UnissuedTables(st, s, x, w, t, c);
      case Some(cert) => IssuedTablesAre(st, s, x, w, t, c, cert);
    }
  }

  lemma RejectedTables(st: State, s: Services, x: Session, w: World, t: Tables, c: Calls)
    requires w.Valid() && !Challenge.Approves(x.job.rt.validator, x.job.Input(), w.verdict)
    ensures AfterVerdict(st, s, x, w.verdict, w.serialRandom, w.now).stage == Selecting(FAILED)
    ensures AdmittedTables(st, s, x.job, w, t, c) == Recorded(t, x.job, FAILED, w.recordedAt, c)
  {
  }

  lemma UnissuedTables(st: State, s: Services, x: Session, w: World, t: Tables, c: Calls)
    requires w.Valid() && Challenge.Approves(x.job.rt.validator, x.job.Input(), w.verdict)
    requires Issue(s, IssuanceFor(st, x.job, w.serialRandom, w.now)) == None
    ensures AfterVerdict(st, s, x, w.verdict, w.serialRandom, w.now).stage == Finished
    ensures AdmittedTables(st, s, x.job, w, t, c) == t
  {
  }

  lemma IssuedTablesAre(st: State, s: Services, x: Session, w: World, t: Tables, c: Calls, cert: Certificate)
    requires w.Valid() && Challenge.Approves(x.job.rt.validator, x.job.Input(), w.verdict)
    requires Issue(s, IssuanceFor(st, x.job, w.serialRandom, w.now)) == Some(cert)
    ensures var y := AfterVerdict(st, s, x, w.verdict, w.serialRandom, w.now);
      if ToDer(CertificateToAny(cert)).Err? then y.stage == Finished
      else y.stage == Inserting && y.issued == Some(Issued(w.serialRandom, w.now, cert))
    ensures AdmittedTables(st, s, x.job, w, t, c) ==
      var insert := Call(InsertCert(RowFor(s, x.job, IssuanceFor(st, x.job, w.serialRandom, w.now),
                                           cert, w.insertedAt)), c.insert);
      if ToDer(CertificateToAny(cert)).Err? then t
      else if Answer(t, insert).Err? then After(t, insert)
      else Recorded(After(t, insert), x.job, ISSUED, w.recordedAt, c)
  {
  }

  lemma RejectedAlone(st: State, s: Services, m: Machine, id: nat, w: World, c: Calls)
    requires At(m, id, Selecting(FAILED))
    ensures Step(st, s, Step(st, s, Step(st, s, m, Insert(id, w.insertedAt, c.insert)),
                             Select(id, w.recordedAt, c.selectUp)),
                 WriteTransaction(id, c.write)).tables
      == Recorded(m.tables, m.sessions[id].job, FAILED, w.recordedAt, c)
  {
    assert Step(st, s, m, Insert(id, w.insertedAt, c.insert)) == m;
    RecordsAlone(st, s, m, id, FAILED, w.recordedAt, c);
  }

  lemma PersistsAlone(st: State, s: Services, m: Machine, id: nat, w: World, c: Calls, job: Job, cert: Certificate)
    requires At(m, id, Inserting) && |w.serialRandom| == 16
    requires m.sessions[id].job == job && m.sessions[id].issued == Some(Issued(w.serialRandom, w.now, cert))
    ensures var call := Call(InsertCert(RowFor(s, job, IssuanceFor(st, job, w.serialRandom, w.now),
                                               cert, w.insertedAt)), c.insert);
      var n := Step(st, s, m, Insert(id, w.insertedAt, c.insert));
      Step(st, s, Step(st, s, n, Select(id, w.recordedAt, c.selectUp)), WriteTransaction(id, c.write)).tables
      == if Answer(m.tables, call).Err? then After(m.tables, call)
        else Recorded(After(m.tables, call), job, ISSUED, w.recordedAt, c)
  {
    RowOfIs(st, s, m.sessions[id], w.insertedAt, job, w, cert);
    InsertsAlone(st, s, m, id, w.insertedAt, c, RowOf(st, s, m.sessions[id], w.insertedAt));
    var n := Step(st, s, m, Insert(id, w.insertedAt, c.insert));
    if n.sessions[id].stage.Finished? {
      NothingLeft(st, s, n, id, w, c);
    } else {
      RecordsAlone(st, s, n, id, ISSUED, w.recordedAt, c);
    }
  }

  // ----- whose profile a transaction row keeps -----

  /** Every transaction row was inserted by a session with its ID, and keeps that session's profile. */
  ghost predicate RowsRecorded(t: Tables, sessions: map<nat, Session>, recorders: map<string, nat>) {
    && recorders.Keys == t.transactions.Keys
    && forall id :: id in recorders ==>
         && recorders[id] in sessions
         && sessions[recorders[id]].job.request.transactionId == id
         && t.transactions[id].profile == sessions[recorders[id]].job.rt.name
  }

  ghost predicate RowsKept(m: Machine) { RowsRecorded(m.tables, m.sessions, m.recorders) }

  /** Sessions keep their jobs, and the transaction rows their profiles. */
  ghost predicate JobsKept(m: Machine, n: Machine) {
    && (forall id :: id in m.sessions ==> id in n.sessions && n.sessions[id].job == m.sessions[id].job)
    && n.tables.transactions == m.tables.transactions && n.recorders == m.recorders
  }

  lemma JobsKeptRecords(m: Machine, n: Machine)
    requires RowsKept(m) && JobsKept(m, n)
    ensures RowsKept(n)
  {
  }

  lemma VerdictKeepsJob(st: State, s: Services, x: Session, verdict: bool, random: bytes, now: nat)
    requires |random| == 16
    ensures AfterVerdict(st, s, x, verdict, random, now).job == x.job
  {
  }

  lemma InsertKeepsJobs(m: Machine, id: nat, row: CertRow, fate: Fate, stage: Stage, origins: map<string, Origin>)
    requires id in m.sessions
    ensures var done := Performed(m, Call(InsertCert(row), fate));
      JobsKept(m, Put(done, id, m.sessions[id].(stage := stage)).(origins := origins))
  {
    InsertEffect(m.tables, row, fate);
  }

  lemma InsertKeepsTransactions(st: State, s: Services, m: Machine, id: nat, now: nat, fate: Fate)
    requires At(m, id, Inserting)
    ensures JobsKept(m, InsertStep(st, s, m, id, now, fate))
  {
    if InsertReady(m.sessions[id]) {
      var row, stage := InsertShape(st, s, m, id, now, fate);
      var origins := if !fate.Down? && row.serial !in m.tables.certs then m.origins[row.serial := Origin(id, now)]
        else m.origins;
      InsertKeepsJobs(m, id, row, fate, stage, origins);
    }
  }

  /** The effect of recording: a new row, or an old one with a new status. */
  lemma RecordEffect(t: Tables, id: string, profile: string, status: string, messageType: string, createdAt: string,
                     existing: bool, fate: Fate)
    ensures var u := After(t, Call(RecordWrite(id, profile, status, messageType, createdAt, existing), fate));
      var inserted := !existing && !fate.Down? && id !in t.transactions;
      && u.transactions.Keys == (if inserted then t.transactions.Keys + {id} else t.transactions.Keys)
      && (forall k :: k in t.transactions ==> u.transactions[k].profile == t.transactions[k].profile)
      && (inserted ==> u.transactions[id] == TransactionRow(profile, status, messageType, createdAt))
      && (existing && !fate.Down? && id in t.transactions ==> u.transactions[id].status == status)
  {
  }

  /** The rows stay recorded when one session inserts its own, and moves on. */
  lemma RecordedMore(t: Tables, u: Tables, sessions: map<nat, Session>, recorders: map<string, nat>, sid: nat,
                     inserted: bool)
    requires RowsRecorded(t, sessions, recorders) && sid in sessions
    requires var id := sessions[sid].job.request.transactionId;
      && u.transactions.Keys == (if inserted then t.transactions.Keys + {id} else t.transactions.Keys)
      && (forall k :: k in t.transactions ==> u.transactions[k].profile == t.transactions[k].profile)
      && (inserted ==> id !in t.transactions && u.transactions[id].profile == sessions[sid].job.rt.name)
    ensures RowsRecorded(u, sessions[sid := sessions[sid].(stage := Finished)],
                         if inserted then recorders[sessions[sid].job.request.transactionId := sid] else recorders)
  {
  }

  lemma WriteRecords(m: Machine, id: nat, fate: Fate)
    requires RowsKept(m) && id in m.sessions && m.sessions[id].stage.Writing?
    ensures RowsKept(WriteStep(m, id, fate))
  {
    var x := m.sessions[id];
    var t := x.job.request.transactionId;
    RecordEffect(m.tables, t, x.job.rt.name, x.stage.status, RECORDED_TYPE, TimestampText(x.stage.createdAt),
                 x.stage.existing, fate);
    var n := WriteStep(m, id, fate);
    RecordedMore(m.tables, n.tables, m.sessions, m.recorders, id,
                 !x.stage.existing && !fate.Down? && t !in m.tables.transactions);
  }

  lemma StartKeepsJobs(st: State, s: Services, m: Machine, a: Action)
    requires a.Start? || a.RevokeRow?
    ensures JobsKept(m, Step(st, s, m, a))
  {
  }

  lemma MoveKeepsJobs(st: State, s: Services, m: Machine, a: Action)
    requires a.Select? || a.Drop?
    ensures JobsKept(m, Step(st, s, m, a))
  {
  }

  lemma VerdictKeepsJobs(st: State, s: Services, m: Machine, id: nat, verdict: bool, random: bytes, now: nat)
    requires At(m, id, Validating) && |random| == 16
    ensures JobsKept(m, Put(m, id, AfterVerdict(st, s, m.sessions[id], verdict, random, now)))
  {
    VerdictKeepsJob(st, s, m.sessions[id], verdict, random, now);
  }

  lemma ValidatedRecords(st: State, s: Services, m: Machine, id: nat, verdict: bool, random: bytes, now: nat)
    requires RowsKept(m)
    ensures RowsKept(Step(st, s, m, Validated(id, verdict, random, now)))
  {
    if At(m, id, Validating) && |random| == 16 {
      VerdictKeepsJobs(st, s, m, id, verdict, random, now);
      JobsKeptRecords(m, Put(m, id, AfterVerdict(st, s, m.sessions[id], verdict, random, now)));
    }
  }

  lemma InsertRecords(st: State, s: Services, m: Machine, id: nat, now: nat, fate: Fate)
    requires RowsKept(m)
    ensures RowsKept(Step(st, s, m, Insert(id, now, fate)))
  {
    if At(m, id, Inserting) {
      InsertKeepsTransactions(st, s, m, id, now, fate);
      JobsKeptRecords(m, InsertStep(st, s, m, id, now, fate));
    }
  }

  lemma WriteStepRecords(st: State, s: Services, m: Machine, id: nat, fate: Fate)
    requires RowsKept(m)
    ensures RowsKept(Step(st, s, m, WriteTransaction(id, fate)))
  {
    if id in m.sessions && m.sessions[id].stage.Writing? { WriteRecords(m, id, fate); }
  }

  lemma StepRecords(st: State, s: Services, m: Machine, a: Action)
    requires RowsKept(m)
    ensures RowsKept(Step(st, s, m, a))
  {
    match a
    case Validated(id, verdict, random, now) => ValidatedRecords(st, s, m, id, verdict, random, now);
    case Insert(id, now, fate) => InsertRecords(st, s, m, id, now, fate);
    case WriteTransaction(id, fate) => WriteStepRecords(st, s, m, id, fate);
    case _ =>
      if a.Start? || a.RevokeRow? { StartKeepsJobs(st, s, m, a); } else { MoveKeepsJobs(st, s, m, a); }
      JobsKeptRecords(m, Step(st, s, m, a));
  }

  lemma {:induction false} ExecRecords(st: State, s: Services, m: Machine, actions: seq<Action>)
    requires RowsKept(m)
    ensures RowsKept(Exec(st, s, m, actions))
    decreases actions
  {
    if actions != [] {
      StepRecords(st, s, m, actions[0]);
      ExecRecords(st, s, Step(st, s, m, actions[0]), actions[1..]);
    }
  }

  /** A session's job runs under the profile it was started for. */
  lemma SessionProfile(st: State, s: Services, m: Machine, id: nat)
    requires Consistent(st) && Invariant(st, s, m) && id in m.sessions
    ensures m.sessions[id].job.rt.name == m.sessions[id].profile
  {
    assert SessionValid(st, s, m.sessions[id]);
    AdmittedIsVerified(st, s, m.sessions[id].profile, m.sessions[id].body, m.sessions[id].job);
  }

  /**
   Over every interleaving: a transaction row and a certificate row with its ID
   name the same profile exactly when the run that first recorded the ID and the
   run the certificate comes from were started under the same profile.
   */
  lemma ProfilesAgreeExactly(st: State, s: Services, actions: seq<Action>, id: string, k: string)
    returns (writer: nat, o: Origin)
    requires Consistent(st)
    requires var t := Exec(st, s, IDLE, actions).tables;
      id in t.transactions && k in t.certs && t.certs[k].transactionId == Some(id)
    ensures var m := Exec(st, s, IDLE, actions);
      && writer in m.sessions && o.id in m.sessions && k in m.origins && m.origins[k] == o
      && m.sessions[writer].job.request.transactionId == id && m.sessions[o.id].job.request.transactionId == id
      && m.tables.transactions[id].profile == m.sessions[writer].profile
      && (m.tables.certs[k].profile == Some(m.tables.transactions[id].profile) <==>
            m.sessions[writer].profile == m.sessions[o.id].profile)
  {
    var m := Exec(st, s, IDLE, actions);
    var x;
    o, x := Provenance(st, s, actions, k);
    IdleKeeps(st, s);
    ExecKeeps(st, s, IDLE, actions);
    ExecRecords(st, s, IDLE, actions);
    writer := m.recorders[id];
    SessionProfile(st, s, m, writer);
  }
}
