/**
 What a device that was sent a certificate can rely on: the replies of
 interleaved runs, and what the responder says of their certificates ever after.
 */
module Lifetime {
  import opened Wrappers
  import opened Primitives
  import opened Repository
  import opened Revocation
  import opened AppState
  import opened Scep
  import opened Enrolment
  import Exchange
  import Verify

  /** The choices the world made for this session; envelope randomness and fresh nonce are free. */
  ghost predicate RunOf(x: Session, w: World) {
    && x.issued.Some? && w.Valid()
    && w.verdict == x.verdict && w.serialRandom == x.issued.value.random && w.now == x.issued.value.now
  }

  lemma SessionIssues(st: State, s: Services, x: Session, w: World)
    requires SessionValid(st, s, x) && RunOf(x, w)
    ensures Exchange.Issued(st, s, x.profile, x.body, w, x.issued.value.cert)
    ensures Verify.ParseAndVerify(s.p, x.body) == Ok(x.job.request)
  {
    AdmittedIsVerified(st, s, x.profile, x.body, x.job);
  }

  /** The reply says success to the session's request and carries the certificate it issued. */
  ghost predicate Grants(s: Services, x: Session, w: World, reply: bytes, v: Verify.Verified)
    requires x.issued.Some?
  {
    && (Verify.VerifyMessage(s.p, reply).Ok? ==> Verify.VerifyMessage(s.p, reply) == Ok(v))
    && (Exchange.OwnKey(s.p, x.job.ca) ==> Verify.VerifyMessage(s.p, reply).Ok?)
    && Exchange.Says(v.attrs, x.job.request, None, w.nonce)
    && v.content.Some? && Exchange.Carries(s.p, v.content.value, false, x.job.request, x.issued.value.cert)
  }

  lemma SessionGrants(st: State, s: Services, x: Session, w: World, reply: bytes) returns (v: Verify.Verified)
    requires Lawful(s.p) && SessionValid(st, s, x) && RunOf(x, w)
    requires Reply(st, s, x.profile, x.body, w) == Ok(reply)
    ensures Grants(s, x, w, reply, v)
  {
    SessionIssues(st, s, x, w);
    AdmittedIsVerified(st, s, x.profile, x.body, x.job);
    var ca, fail;
    ca, v, fail := Exchange.FullExchange(st, s, x.profile, x.body, w, x.job.request, reply);
  }

  // ----- a run inserts once -----

  /** Past its insert, and the origin of no row. */
  ghost predicate Barren(m: Machine, id: nat) {
    && id in m.sessions && !m.sessions[id].stage.Validating? && !m.sessions[id].stage.Inserting?
    && forall k :: k in m.origins ==> m.origins[k].id != id
  }

  lemma OtherKeepsBarren(m: Machine, n: Machine, id: nat, other: nat, y: Session, now: nat, k: string)
    requires Barren(m, id) && other != id && n.sessions == m.sessions[other := y]
    requires n.origins == m.origins || n.origins == m.origins[k := Origin(other, now)]
    ensures Barren(n, id)
  {
  }

  lemma InsertKeepsBarren(st: State, s: Services, m: Machine, id: nat, other: nat, now: nat, fate: Fate)
    requires Barren(m, id) && At(m, other, Inserting)
    ensures Barren(InsertStep(st, s, m, other, now, fate), id)
  {
    assert other != id;
    if InsertReady(m.sessions[other]) {
      var row, stage := InsertShape(st, s, m, other, now, fate);
      var n := InsertStep(st, s, m, other, now, fate);
      OtherKeepsBarren(m, n, id, other, n.sessions[other], now, row.serial);
    }
  }

  lemma StepKeepsBarren(st: State, s: Services, m: Machine, a: Action, id: nat)
    requires Barren(m, id)
    ensures Barren(Step(st, s, m, a), id)
  {
    if a.Insert? && At(m, a.id, Inserting) { InsertKeepsBarren(st, s, m, id, a.id, a.now, a.fate); }
  }

  lemma {:induction false} StaysBarren(st: State, s: Services, m: Machine, actions: seq<Action>, id: nat)
    requires Barren(m, id)
    ensures Barren(Exec(st, s, m, actions), id)
    decreases actions
  {
    if actions != [] {
      StepKeepsBarren(st, s, m, actions[0], id);
      StaysBarren(st, s, Step(st, s, m, actions[0]), actions[1..], id);
    }
  }

  /** No other run generated this serial. */
  ghost predicate OnlyRun(m: Machine, id: nat, k: string) {
    forall j :: j in m.sessions && j != id && m.sessions[j].issued.Some? ==> Key(m.sessions[j].issued.value) != k
  }

  lemma RowsHaveRuns(st: State, s: Services, m: Machine)
    requires Invariant(st, s, m)
    ensures forall k :: k in m.tables.certs ==> k in m.origins && OriginOf(m, k)
  {
    forall k | k in m.tables.certs ensures k in m.origins && OriginOf(m, k) {
      assert ComesFrom(st, s, m.tables, m.sessions, k, m.origins[k]);
    }
  }

  ghost predicate OriginOf(m: Machine, k: string)
    requires k in m.origins
  {
    && m.origins[k].id in m.sessions && m.sessions[m.origins[k].id].issued.Some?
    && Key(m.sessions[m.origins[k].id].issued.value) == k
  }

  /** A key only a barren run issued is no row's. */
  lemma BarrenHasNoRow(st: State, s: Services, m: Machine, id: nat, k: string)
    requires Invariant(st, s, m) && Barren(m, id) && OnlyRun(m, id, k)
    ensures k !in m.tables.certs
  {
    RowsHaveRuns(st, s, m);
  }

  /** A run about to insert is the origin of no row; an insert that is refused or lost on the way leaves it so. */
  lemma RefusedIsBarren(st: State, s: Services, m: Machine, id: nat, now: nat, fate: Fate)
    requires Invariant(st, s, m) && At(m, id, Inserting)
    requires fate.Down? || Key(m.sessions[id].issued.value) in m.tables.certs
    ensures Barren(InsertStep(st, s, m, id, now, fate), id)
  {
    assert SessionValid(st, s, m.sessions[id]);
    forall k | k in m.origins ensures m.origins[k].id != id {
      assert ComesFrom(st, s, m.tables, m.sessions, k, m.origins[k]);
    }
    RowOfSession(st, s, m.sessions[id], now);
    var row, stage := InsertShape(st, s, m, id, now, fate);
  }

  // ----- known ever after -----

  /** The tables hold what the session wrote, up to its revocation, and the responder knows its certificate. */
  ghost predicate Known(st: State, s: Services, t: Tables, x: Session, writtenAt: nat, clock: int)
    requires InsertReady(x)
  {
    && Key(x.issued.value) in t.certs && Extends(RowOf(st, s, x, writtenAt), t.certs[Key(x.issued.value)])
    && !OcspStatus(t, x.job.ca.id, x.issued.value.cert.serial, clock).StatusUnknown?
  }

  lemma RowIsKnown(st: State, s: Services, t: Tables, x: Session, writtenAt: nat, clock: int)
    requires InsertReady(x)
    requires Key(x.issued.value) in t.certs && Extends(RowOf(st, s, x, writtenAt), t.certs[Key(x.issued.value)])
    ensures Known(st, s, t, x, writtenAt, clock)
  {
    assert RowOf(st, s, x, writtenAt).caId == x.job.ca.id;
    assert t.certs[Key(x.issued.value)].caId == RowOf(st, s, x, writtenAt).caId;
  }

  /** An insert that took effect is in the tables after any further actions. */
  lemma InsertedStaysKnown(st: State, s: Services, m: Machine, id: nat, now: nat, fate: Fate, after: Machine,
                           later: seq<Action>, x: Session, n: Machine, clock: int)
    requires At(m, id, Inserting) && x == m.sessions[id] && InsertReady(x)
    requires !fate.Down? && Key(x.issued.value) !in m.tables.certs
    requires after == InsertStep(st, s, m, id, now, fate) && n == Exec(st, s, after, later)
    ensures Known(st, s, n.tables, x, now, clock)
  {
    var k := Key(x.issued.value);
    RowOfSession(st, s, x, now);
    var row, stage := InsertShape(st, s, m, id, now, fate);
    InsertEffect(m.tables, row, fate);
    assert k in after.tables.certs && after.tables.certs[k] == row;
    RowsKeepTheirIdentity(st, s, after, later, "", k);
    RowIsKnown(st, s, n.tables, x, now, clock);
  }

  /** An insert that did not leaves the run without a row, and its serial had none. */
  lemma RefusedStaysUnknown(st: State, s: Services, m: Machine, id: nat, now: nat, fate: Fate, after: Machine,
                            later: seq<Action>, x: Session, n: Machine)
    requires Invariant(st, s, m) && At(m, id, Inserting) && x == m.sessions[id] && InsertReady(x)
    requires fate.Down? || Key(x.issued.value) in m.tables.certs
    requires after == InsertStep(st, s, m, id, now, fate) && n == Exec(st, s, after, later)
    requires OnlyRun(n, id, Key(x.issued.value))
    ensures Key(x.issued.value) !in n.tables.certs && fate.Down?
  {
    var k := Key(x.issued.value);
    RefusedIsBarren(st, s, m, id, now, fate);
    StaysBarren(st, s, after, later, id);
    InsertKeeps(st, s, m, id, now, fate);
    ExecKeeps(st, s, after, later);
    BarrenHasNoRow(st, s, n, id, k);
    KeptByInsert(st, s, m, id, now, fate, k);
    RowsKeepTheirIdentity(st, s, after, later, "", k);
  }

  lemma KeptByInsert(st: State, s: Services, m: Machine, id: nat, now: nat, fate: Fate, k: string)
    requires At(m, id, Inserting) && InsertReady(m.sessions[id])
    ensures k in m.tables.certs ==> k in InsertStep(st, s, m, id, now, fate).tables.certs
  {
    var row, stage := InsertShape(st, s, m, id, now, fate);
    InsertEffect(m.tables, row, fate);
  }

  lemma ReachableInvariant(st: State, s: Services, actions: seq<Action>)
    ensures Invariant(st, s, Exec(st, s, IDLE, actions))
  {
    IdleKeeps(st, s);
    ExecKeeps(st, s, IDLE, actions);
  }

  lemma KnownOrNot(st: State, s: Services, t: Tables, x: Session, writtenAt: nat, clock: int)
    requires InsertReady(x)
    ensures Known(st, s, t, x, writtenAt, clock) ==> Key(x.issued.value) in t.certs
    ensures Key(x.issued.value) !in t.certs ==>
      OcspStatus(t, x.job.ca.id, x.issued.value.cert.serial, clock).StatusUnknown?
  {
  }

  lemma InsertIsStep(st: State, s: Services, m: Machine, id: nat, now: nat, fate: Fate, after: Machine)
    requires At(m, id, Inserting) && InsertReady(m.sessions[id]) && after == InsertStep(st, s, m, id, now, fate)
    ensures Step(st, s, m, Insert(id, now, fate)) == after
  {
    var a := Insert(id, now, fate);
    calc {
      Step(st, s, m, a);
      if !At(m, a.id, Inserting) then m else InsertStep(st, s, m, a.id, a.now, a.fate);
      after;
    }
  }

  lemma SessionReached(st: State, s: Services, actions: seq<Action>, id: nat, x: Session)
    requires id in Exec(st, s, IDLE, actions).sessions && x == Exec(st, s, IDLE, actions).sessions[id]
    ensures SessionValid(st, s, x)
  {
    ReachableInvariant(st, s, actions);
  }

  /**
   Over every interleaving: the reply of a run that issued is a success carrying
   the certificate. If its insert was acknowledged, the certificate is in the
   tables after anything that follows, and the responder never answers unknown
   for it.
   */
  lemma SuccessIsKnown(st: State, s: Services, before: seq<Action>, m: Machine, id: nat, now: nat, fate: Fate,
                       later: seq<Action>, x: Session, n: Machine, w: World, reply: bytes, clock: int)
    returns (v: Verify.Verified)
    requires m == Exec(st, s, IDLE, before) && At(m, id, Inserting) && x == m.sessions[id]
    requires n == Exec(st, s, Step(st, s, m, Insert(id, now, fate)), later)
    requires Lawful(s.p) && RunOf(x, w) && Reply(st, s, x.profile, x.body, w) == Ok(reply)
    ensures Grants(s, x, w, reply, v)
    ensures Answer(m.tables, Call(InsertCert(RowOf(st, s, x, now)), fate)).Ok? ==> Known(st, s, n.tables, x, now, clock)
  {
    SessionReached(st, s, before, id, x);
    v := SessionGrants(st, s, x, w, reply);
    var after := InsertStep(st, s, m, id, now, fate);
    InsertIsStep(st, s, m, id, now, fate, after);
    InsertEffect(m.tables, RowOf(st, s, x, now), fate);
    RowOfSession(st, s, x, now);
    if fate.Acknowledged? && Key(x.issued.value) !in m.tables.certs {
      InsertedStaysKnown(st, s, m, id, now, fate, after, later, x, n, clock);
    }
  }

  /**
   And exactly then, up to a lost answer: while no other run has generated its
   serial, the responder knows the certificate, whatever follows, exactly when
   the insert reached the database. Otherwise the device is sent a certificate
   the responder calls unknown.
   */
  lemma KnownExactly(st: State, s: Services, before: seq<Action>, m: Machine, id: nat, now: nat, fate: Fate,
                     later: seq<Action>, x: Session, n: Machine, clock: int)
    requires m == Exec(st, s, IDLE, before) && At(m, id, Inserting) && x == m.sessions[id]
    requires n == Exec(st, s, Step(st, s, m, Insert(id, now, fate)), later)
    ensures InsertReady(x)
    ensures OnlyRun(n, id, Key(x.issued.value)) ==>
      && (Known(st, s, n.tables, x, now, clock) <==> !fate.Down?)
      && (fate.Down? ==> OcspStatus(n.tables, x.job.ca.id, x.issued.value.cert.serial, clock).StatusUnknown?)
  {
    SessionReached(st, s, before, id, x);
    KnownOrNot(st, s, n.tables, x, now, clock);
    if OnlyRun(n, id, Key(x.issued.value)) {
      ReachableInvariant(st, s, before);
      var after := InsertStep(st, s, m, id, now, fate);
      InsertIsStep(st, s, m, id, now, fate, after);
      if !fate.Down? && Key(x.issued.value) !in m.tables.certs {
        InsertedStaysKnown(st, s, m, id, now, fate, after, later, x, n, clock);
      } else {
        RefusedStaysUnknown(st, s, m, id, now, fate, after, later, x, n);
      }
    }
  }
}
