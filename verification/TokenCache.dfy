/**
 The Intune client's two caches (`src/intune/mod.rs`): access tokens by scope and
 the discovered endpoint. Locks are held for one read or one insert only, so the
 calls of several tasks interleave between them. Time is seconds of a clock that
 never runs backwards.
 */
module TokenCache {
  import opened Wrappers
  import opened Text

  /** `value` may be served while the clock is before `expiresAt`. */
  datatype CachedToken = CachedToken(value: string, expiresAt: nat)

  /** What the token endpoint answered: the lifetime may be missing or negative. */
  datatype Grant = Grant(token: string, expiresIn: Option<int>)

  const DEFAULT_LIFETIME: int := 3600

  function Lifetime(g: Grant): int { if g.expiresIn.Some? then g.expiresIn.value else DEFAULT_LIFETIME }

  /** A minute less than the lifetime, which counts as a minute at least. */
  function Expiry(g: Grant, receivedAt: nat): nat {
    var ttl := if Lifetime(g) < 60 then 60 else Lifetime(g);
    receivedAt + (if ttl < 60 then 0 else ttl - 60)
  }

  function Served(tokens: map<string, CachedToken>, scope: string, now: nat): Option<string> {
    if scope in tokens && tokens[scope].expiresAt > now then Some(tokens[scope].value) else None
  }

  function Stored(tokens: map<string, CachedToken>, scope: string, g: Grant,
                  receivedAt: nat): map<string, CachedToken> {
    tokens[scope := CachedToken(g.token, Expiry(g, receivedAt))]
  }

  /** An entry of the endpoint list. */
  datatype Endpoint = Endpoint(providerName: Option<string>, uri: Option<string>)

  const VALIDATION_SERVICE_NAME := "ScepRequestValidationFEService"

  /** The first entry of the service, if that one has an address. */
  function Discovered(endpoints: seq<Endpoint>): Option<string> {
    if endpoints == [] then None
    else if endpoints[0].providerName == Some(VALIDATION_SERVICE_NAME) then
      (match endpoints[0].uri case None => None case Some(uri) => Some(TrimSlashes(uri)))
    else Discovered(endpoints[1..])
  }

  class IntuneClient {
    var tokens: map<string, CachedToken>
    var validationUri: Option<string>

    constructor ()
      ensures tokens == map[] && validationUri == None
    {
      tokens, validationUri := map[], None;
    }

    /** The region under the read lock. */
    method Lookup(scope: string, now: nat) returns (r: Option<string>)
      ensures r == Served(tokens, scope, now)
    {
      if scope in tokens {
        var t := tokens[scope];
        if t.expiresAt > now { return Some(t.value); }
      }
      r := None;
    }

    /** The region under the write lock. */
    method Store(scope: string, g: Grant, receivedAt: nat)
      modifies this`tokens
      ensures tokens == Stored(old(tokens), scope, g, receivedAt)
    {
      var seconds := if g.expiresIn.Some? then g.expiresIn.value else 3600;
      var ttl := if seconds > 60 then seconds else 60;
      tokens := tokens[scope := CachedToken(g.token, receivedAt + (if ttl >= 60 then ttl - 60 else 0))];
    }

    /** `token`, when nothing interleaves: `fetched` is the endpoint's answer, if it is asked. */
    method Token(scope: string, now: nat, fetched: Result<Grant>, receivedAt: nat) returns (r: Result<string>)
      modifies this`tokens
      ensures Served(old(tokens), scope, now).Some? ==>
        r == Ok(Served(old(tokens), scope, now).value) && tokens == old(tokens)
      ensures Served(old(tokens), scope, now).None? ==>
        match fetched
        case Err(e) => r == Err(e) && tokens == old(tokens)
        case Ok(g) => r == Ok(g.token) && tokens == Stored(old(tokens), scope, g, receivedAt)
    {
      var cached := Lookup(scope, now);
      if cached.Some? { return Ok(cached.value); }
      if fetched.Err? { return Err(fetched.error); }
      Store(scope, fetched.value, receivedAt);
      r := Ok(fetched.value.token);
    }

    /**
     `validation_endpoint` after the token: discover once, then serve what was
     found. `meanwhile` is what another caller may have stored between this
     one's look and its own store, which then wins.
     */
    method ValidationEndpoint(meanwhile: Option<string>, answer: Result<seq<Endpoint>>) returns (r: Result<string>)
      modifies this`validationUri
      ensures old(validationUri).Some? ==> r == Ok(old(validationUri).value) && validationUri == old(validationUri)
      ensures old(validationUri).None? && answer.Err? ==> r == Err(answer.error) && validationUri == meanwhile
      ensures old(validationUri).None? && answer.Ok? ==>
        && (r.Ok? <==> exists uri :: ServiceAddress(answer.value, uri))
        && (r.Ok? ==> validationUri == Some(r.value))
        && (r.Ok? ==> exists uri :: ServiceAddress(answer.value, uri) && r.value == TrimSlashes(uri))
        && (r.Err? ==> r.error == Upstream && validationUri == meanwhile)
    {
      if validationUri.Some? { return Ok(validationUri.value); }
      validationUri := meanwhile;
      if answer.Err? { return Err(answer.error); }
      var uri := Discovered(answer.value);
      DiscoveredIsFirst(answer.value);
      if uri.None? { return Err(Upstream); }
      validationUri := uri;
      r := Ok(uri.value);
    }
  }

  /** The first endpoint of the validation service. */
  ghost predicate FirstService(endpoints: seq<Endpoint>, i: int) {
    && 0 <= i < |endpoints| && endpoints[i].providerName == Some("ScepRequestValidationFEService")
    && forall j :: 0 <= j < i ==> endpoints[j].providerName != Some("ScepRequestValidationFEService")
  }

  /** The address the first endpoint of the service has. */
  ghost predicate ServiceAddress(endpoints: seq<Endpoint>, uri: string) {
    exists i :: FirstService(endpoints, i) && endpoints[i].uri == Some(uri)
  }

  lemma {:induction false} DiscoveredIsFirst(endpoints: seq<Endpoint>)
    ensures Discovered(endpoints).Some? <==> exists uri :: ServiceAddress(endpoints, uri)
    ensures Discovered(endpoints).Some? ==>
      exists uri :: ServiceAddress(endpoints, uri) && Discovered(endpoints).value == TrimSlashes(uri)
  {
    if endpoints == [] {
    } else if endpoints[0].providerName == Some(VALIDATION_SERVICE_NAME) {
      assert FirstService(endpoints, 0);
      if endpoints[0].uri.Some? { assert ServiceAddress(endpoints, endpoints[0].uri.value); }
    } else {
      var tail := endpoints[1..];
      DiscoveredIsFirst(tail);
      forall i ensures FirstService(endpoints, i) <==> FirstService(tail, i - 1) {
        assert forall j :: 1 <= j < |endpoints| ==> endpoints[j] == tail[j - 1];
      }
      forall uri ensures ServiceAddress(endpoints, uri) <==> ServiceAddress(tail, uri) {
        if i :| FirstService(tail, i) && tail[i].uri == Some(uri) { assert FirstService(endpoints, i + 1); }
        if i :| FirstService(endpoints, i) && endpoints[i].uri == Some(uri) { assert FirstService(tail, i - 1); }
      }
    }
  }

  // ----- interleaved calls -----

  /** Where one call of `token` stands. */
  datatype CallState =
    | Fetching(scope: string)
    | Fetched(scope: string, grant: Grant, receivedAt: nat)
    | Returned(scope: string, token: string, at: nat, cached: bool)
    | Failed

  /** A grant as it arrived; `grants` is the history of all of them. */
  datatype Receipt = Receipt(scope: string, grant: Grant, receivedAt: nat)

  datatype Client = Client(tokens: map<string, CachedToken>, calls: map<nat, CallState>, clock: nat,
                           grants: set<Receipt>)

  const FRESH := Client(map[], map[], 0, {})

  datatype Action =
    | Tick(seconds: nat)
    | Read(id: nat, scope: string)
    | Arrive(id: nat, answer: Result<Grant>)
    | Write(id: nat)

  /** One step of one task; the expiry is computed when the answer is there, the insert may come later. */
  function Step(c: Client, a: Action): Client {
    match a
    case Tick(seconds) => c.(clock := c.clock + seconds)
    case Read(id, scope) =>
      if id in c.calls then c
      else
        var served := Served(c.tokens, scope, c.clock);
        var next := if served.Some? then Returned(scope, served.value, c.clock, true) else Fetching(scope);
        c.(calls := c.calls[id := next])
    case Arrive(id, answer) =>
      if id !in c.calls || !c.calls[id].Fetching? then c
      else
        var scope := c.calls[id].scope;
        if answer.Err? then c.(calls := c.calls[id := Failed])
        else c.(calls := c.calls[id := Fetched(scope, answer.value, c.clock)],
                grants := c.grants + {Receipt(scope, answer.value, c.clock)})
    case Write(id) =>
      if id !in c.calls || !c.calls[id].Fetched? then c
      else
        var f := c.calls[id];
        c.(tokens := Stored(c.tokens, f.scope, f.grant, f.receivedAt),
           calls := c.calls[id := Returned(f.scope, f.grant.token, c.clock, false)])
  }

  function Exec(c: Client, actions: seq<Action>): Client
    decreases actions
  {
    if actions == [] then c else Exec(Step(c, actions[0]), actions[1..])
  }

  /** A token came from this grant for its scope. */
  ghost predicate From(r: Receipt, scope: string, token: string) { r.scope == scope && r.grant.token == token }

  /** A cached token came with a grant for its scope and expires as that grant says. */
  ghost predicate EntryValid(grants: set<Receipt>, scope: string, t: CachedToken) {
    exists r :: r in grants && From(r, scope, t.value) && t.expiresAt == Expiry(r.grant, r.receivedAt)
  }

  /** Still more than a minute before the end of its lifetime, counted from receipt. */
  ghost predicate Fresh(r: Receipt, at: nat) { r.receivedAt <= at && at + 60 < r.receivedAt + Lifetime(r.grant) }

  ghost predicate CallValid(grants: set<Receipt>, call: CallState) {
    match call
    case Fetching(_) => true
    case Failed => true
    case Fetched(scope, grant, receivedAt) => Receipt(scope, grant, receivedAt) in grants
    case Returned(scope, token, at, cached) =>
      exists r :: r in grants && From(r, scope, token) && (cached ==> Fresh(r, at))
  }

  ghost predicate Invariant(c: Client) {
    && (forall k :: k in c.tokens ==> EntryValid(c.grants, k, c.tokens[k]))
    && (forall id :: id in c.calls ==> CallValid(c.grants, c.calls[id]))
    && (forall r :: r in c.grants ==> r.receivedAt <= c.clock)
  }

  /** Served from a valid entry means fresh. */
  lemma ServedIsFresh(c: Client, scope: string)
    requires Invariant(c) && Served(c.tokens, scope, c.clock).Some?
    ensures CallValid(c.grants, Returned(scope, Served(c.tokens, scope, c.clock).value, c.clock, true))
  {
    assert EntryValid(c.grants, scope, c.tokens[scope]);
  }

  lemma MoreGrants(grants: set<Receipt>, more: set<Receipt>, call: CallState)
    requires grants <= more && CallValid(grants, call)
    ensures CallValid(more, call)
  {
  }

  lemma StepKeeps(c: Client, a: Action)
    requires Invariant(c)
    ensures Invariant(Step(c, a))
  {
    var d := Step(c, a);
    match a
    case Tick(_) =>
    case Read(id, scope) =>
      if id !in c.calls && Served(c.tokens, scope, c.clock).Some? { ServedIsFresh(c, scope); }
    case Arrive(id, answer) =>
      forall i | i in d.calls ensures CallValid(d.grants, d.calls[i]) {
        if i in c.calls && c.calls[i] == d.calls[i] { MoreGrants(c.grants, d.grants, c.calls[i]); }
      }
      forall k | k in d.tokens ensures EntryValid(d.grants, k, d.tokens[k]) {
        assert EntryValid(c.grants, k, c.tokens[k]);
      }
    case Write(id) =>
      if id in c.calls && c.calls[id].Fetched? {
        var f := c.calls[id];
        assert CallValid(c.grants, f);
        var r := Receipt(f.scope, f.grant, f.receivedAt);
        assert r in c.grants && From(r, f.scope, f.grant.token);
      }
  }

  lemma {:induction false} ExecKeeps(c: Client, actions: seq<Action>)
    requires Invariant(c)
    ensures Invariant(Exec(c, actions))
    decreases actions
  {
    if actions != [] {
      StepKeeps(c, actions[0]);
      ExecKeeps(Step(c, actions[0]), actions[1..]);
    }
  }

  /**
   Over every interleaving, a token returned for a scope was granted for that
   scope; one served from the cache is more than 60 seconds before the end of
   its lifetime counted from receipt, 3600 seconds where the grant states none.
   */
  lemma TokensAreFresh(actions: seq<Action>, id: nat, scope: string, token: string, at: nat, cached: bool)
    returns (r: Receipt)
    requires id in Exec(FRESH, actions).calls
    requires Exec(FRESH, actions).calls[id] == Returned(scope, token, at, cached)
    ensures r in Exec(FRESH, actions).grants && r.scope == scope && r.grant.token == token
    ensures cached ==>
      r.receivedAt <= at && at + 60 < r.receivedAt + (if r.grant.expiresIn.Some? then r.grant.expiresIn.value else 3600)
  {
    var c := Exec(FRESH, actions);
    ExecKeeps(FRESH, actions);
    assert CallValid(c.grants, c.calls[id]);
    r :| r in c.grants && From(r, scope, token) && (cached ==> Fresh(r, at));
  }

  /**
   A token granted for a minute or less is never served from the cache: if all
   grants of a token are that short, only the calls that fetched it return it.
   */
  lemma ShortTokensAreNotReused(actions: seq<Action>, id: nat, scope: string, token: string, at: nat, cached: bool)
    requires id in Exec(FRESH, actions).calls
    requires Exec(FRESH, actions).calls[id] == Returned(scope, token, at, cached)
    requires forall r :: r in Exec(FRESH, actions).grants && From(r, scope, token) ==>
      r.grant.expiresIn.Some? && r.grant.expiresIn.value <= 60
    ensures !cached
  {
    var r := TokensAreFresh(actions, id, scope, token, at, cached);
    assert From(r, scope, token);
  }

  /** A fetch that fails ends its call and leaves every cached token as it is. */
  lemma FailedFetchStoresNothing(c: Client, id: nat, error: AppError)
    requires id in c.calls && c.calls[id].Fetching?
    ensures Step(c, Arrive(id, Err(error))) == c.(calls := c.calls[id := Failed])
    ensures Step(Step(c, Arrive(id, Err(error))), Write(id)) == Step(c, Arrive(id, Err(error)))
  {
  }

  /** Conversely, a lone cached grant is served exactly as long as it is fresh. */
  lemma ServedExactlyWhileFresh(tokens: map<string, CachedToken>, scope: string, g: Grant, receivedAt: nat, now: nat)
    requires receivedAt <= now
    ensures Served(Stored(tokens, scope, g, receivedAt), scope, now) ==
      if now + 60 < receivedAt + (if g.expiresIn.Some? then g.expiresIn.value else 3600) then Some(g.token) else None
    ensures forall other :: other != scope ==>
      Served(Stored(tokens, scope, g, receivedAt), other, now) == Served(tokens, other, now)
  {
  }
}
