/** Configuration (`src/config.rs`) and the shared state built from it (`src/app.rs`, `src/http/mod.rs`). */
module AppState {
  import opened Wrappers
  import opened Asn1
  import opened Challenge
  import opened Keystore
  import opened Text

  datatype CaConfig = CaConfig(
    id: string, keyFile: Option<string>, certPem: Option<string>, certPemEnv: Option<string>,
    keyPem: Option<string>, keyPemEnv: Option<string>, keyPasswordEnv: Option<string>)

  datatype ChallengeMode = StaticMode | IntuneMode | NoneMode

  datatype ProfileConfig = ProfileConfig(
    name: string, ca: string, challenge: ChallengeMode, staticSecretEnv: Option<string>,
    validityDays: nat, keyUsage: seq<string>, extendedKeyUsage: seq<string>)

  /** `intuneSecretEnv` is present when the `[intune]` section is. */
  datatype Settings = Settings(baseUrl: string, ca: seq<CaConfig>, profile: seq<ProfileConfig>,
                               intuneSecretEnv: Option<string>)

  /**
   What the process finds around it: environment variables, files, key readers, and the self-signed CA it would
   generate.
   */
  datatype Surroundings = Surroundings(
    env: map<string, string>, files: map<string, bytes>, readers: KeyReaders,
    generate: string -> Result<(Certificate, bytes)>)

  datatype CertificateAuthority = CertificateAuthority(id: string, cert: Certificate, key: bytes)

  datatype ProfileRuntime = ProfileRuntime(
    name: string, caId: string, validator: Validator, validityDays: nat,
    keyUsage: seq<string>, extendedKeyUsage: seq<string>)

  datatype State = State(cas: map<string, CertificateAuthority>, profiles: map<string, ProfileRuntime>, baseUrl: string)

  // ----- validation -----

  predicate HasSource(c: CaConfig) {
    ((c.certPem.Some? || c.certPemEnv.Some?) && (c.keyPem.Some? || c.keyPemEnv.Some?)) || c.keyFile.Some?
  }

  predicate ProfileAcceptable(s: Settings, p: ProfileConfig) {
    && (exists c :: c in s.ca && c.id == p.ca)
    && (p.challenge.StaticMode? ==> p.staticSecretEnv.Some?)
    && (p.challenge.IntuneMode? ==> s.intuneSecretEnv.Some?)
  }

  /** `Settings::validate`; every refusal is a configuration error. */
  function Validate(s: Settings): Result<()> {
    if s.ca == [] then Err(Config)
    else if exists c :: c in s.ca && !HasSource(c) then Err(Config)
    else if exists p :: p in s.profile && !ProfileAcceptable(s, p) then Err(Config)
    else Ok(())
  }

  /**
   Settings are accepted exactly when there is a CA, every CA declares a key file
   or both halves of its material, and every profile names a CA among them, a
   static one also its variable, an Intune one beside an `[intune]` section.
   */
  lemma ValidateExactly(s: Settings)
    ensures Validate(s).Ok? <==>
      && s.ca != []
      && (forall c :: c in s.ca ==>
            || c.keyFile.Some?
            || (Declared(c.certPem, c.certPemEnv) && Declared(c.keyPem, c.keyPemEnv)))
      && (forall p :: p in s.profile ==>
            && (exists c :: c in s.ca && c.id == p.ca)
            && (p.challenge == StaticMode ==> p.staticSecretEnv.Some?)
            && (p.challenge == IntuneMode ==> s.intuneSecretEnv.Some?))
    ensures Validate(s).Err? ==> Validate(s).error == Config
  {
  }

  /** `resolve_value` */
  function ResolveValue(inline: Option<string>, envName: Option<string>, env: map<string, string>)
    : Result<Option<string>> {
    if inline.Some? then Ok(inline)
    else if envName.Some? then (if envName.value in env then Ok(Some(env[envName.value])) else Err(Config))
    else Ok(None)
  }

  /** `inline_material` */
  function InlineMaterial(c: CaConfig, env: map<string, string>): Result<Option<(string, string)>> {
    var cert :- ResolveValue(c.certPem, c.certPemEnv, env);
    var key :- ResolveValue(c.keyPem, c.keyPemEnv, env);
    match (cert, key)
    case (Some(x), Some(y)) => Ok(Some((x, y)))
    case (None, None) => Ok(None)
    case _ => Err(Config)
  }

  /** A variable that would be read but is not set. */
  predicate MissingVariable(inline: Option<string>, envName: Option<string>, env: map<string, string>) {
    inline.None? && envName.Some? && envName.value !in env
  }

  /**
   Validation does not promise that inline material resolves: for a validated CA
   it fails exactly when a named variable is missing, or when only one of
   certificate and key is declared, which validation lets pass beside a key file.
   */
  lemma InlineMaterialFailsExactly(c: CaConfig, env: map<string, string>)
    requires HasSource(c)
    ensures InlineMaterial(c, env).Err? <==>
      || MissingVariable(c.certPem, c.certPemEnv, env) || MissingVariable(c.keyPem, c.keyPemEnv, env)
      || (c.keyFile.Some? && ((c.certPem.Some? || c.certPemEnv.Some?) <==> !(c.keyPem.Some? || c.keyPemEnv.Some?)))
  {
  }

  // ----- building the state -----

  /** The password a key is decrypted with: the named variable's, where there is one and it is set. */
  function PasswordFor(c: CaConfig, w: Surroundings): Option<string> {
    if c.keyPasswordEnv.Some? && c.keyPasswordEnv.value in w.env then Some(w.env[c.keyPasswordEnv.value]) else None
  }

  /** The part of `load_or_bootstrap_ca` for inline material. */
  function LoadInline(id: string, k: KeyReaders, cert: string, key: string, password: Option<string>)
    : Result<CertificateAuthority> {
    var certBytes :- MaterialToBytes(cert);
    var keyBytes :- MaterialToBytes(key);
    var parsedCert :- ParseCertificate(certBytes);
    var parsedKey :- ParsePrivateKey(k, keyBytes, password);
    Ok(CertificateAuthority(id, parsedCert, parsedKey))
  }

  /** `load_or_bootstrap_ca`: inline material, else the key file, else a generated CA where a key file is named. */
  function LoadCa(c: CaConfig, w: Surroundings): Result<CertificateAuthority> {
    var password := PasswordFor(c, w);
    var inline :- InlineMaterial(c, w.env);
    if inline.Some? then
      LoadInline(c.id, w.readers, inline.value.0, inline.value.1, password)
    else if c.keyFile.None? then Err(Config)
    else if c.keyFile.value in w.files then
      var (cert, key) :- FileLoad(w.readers, w.files[c.keyFile.value], password);
      Ok(CertificateAuthority(c.id, cert, key))
    else
      var (cert, key) :- w.generate(c.id);
      Ok(CertificateAuthority(c.id, cert, key))
  }

  /** The text of one half of the inline material: the inline value, else that of its variable. */
  ghost predicate MaterialText(inline: Option<string>, envName: Option<string>, env: map<string, string>,
                               text: string) {
    || inline == Some(text)
    || (inline.None? && envName.Some? && envName.value in env && env[envName.value] == text)
  }

  /** Is one half declared at all? */
  predicate Declared(inline: Option<string>, envName: Option<string>) { inline.Some? || envName.Some? }

  /** Every failure to load a CA is a configuration error, but for one of generating it. */
  lemma LoadErrors(c: CaConfig, w: Surroundings)
    ensures LoadCa(c, w).Err? ==> LoadCa(c, w).error == Config || w.generate(c.id) == Err(LoadCa(c, w).error)
  {
    var inline := InlineMaterial(c, w.env);
    if inline.Ok? && inline.value.Some? {
      InlineErrors(c.id, w.readers, inline.value.value.0, inline.value.value.1, PasswordFor(c, w));
    } else if c.keyFile.Some? && c.keyFile.value in w.files {
      FileErrors(w.readers, w.files[c.keyFile.value], PasswordFor(c, w));
    }
  }

  lemma InlineErrors(id: string, k: KeyReaders, cert: string, key: string, password: Option<string>)
    ensures LoadInline(id, k, cert, key, password).Err? ==> LoadInline(id, k, cert, key, password).error == Config
  {
    if MaterialToBytes(key).Ok? { KeyErrors(k, MaterialToBytes(key).value, password); }
  }

  lemma FileErrors(k: KeyReaders, file: bytes, password: Option<string>)
    ensures FileLoad(k, file, password).Err? ==> FileLoad(k, file, password).error == Config
  {
    KeyErrors(k, file, password);
  }

  /**
   Where a CA comes from: inline certificate and key where both are declared,
   each in any of its forms; otherwise, with neither declared, the key file if
   it exists; and only if it does not, a generated CA.
   */
  lemma CaComesFrom(c: CaConfig, w: Surroundings, cert: string, key: string)
    ensures
      (&& MaterialText(c.certPem, c.certPemEnv, w.env, cert) && MaterialText(c.keyPem, c.keyPemEnv, w.env, key)) ==>
      forall ca :: LoadCa(c, w) == Ok(ca) <==>
        ca.id == c.id && LoadCertificate(cert) == Ok(ca.cert) &&
          LoadKey(w.readers, key, PasswordFor(c, w)) == Ok(ca.key)
    ensures !Declared(c.certPem, c.certPemEnv) && !Declared(c.keyPem, c.keyPemEnv) ==>
      match c.keyFile
      case None => LoadCa(c, w) == Err(Config)
      case Some(f) =>
        forall ca :: LoadCa(c, w) == Ok(ca) <==>
          && ca.id == c.id
          && (f in w.files ==> FileLoad(w.readers, w.files[f], PasswordFor(c, w)) == Ok((ca.cert, ca.key)))
          && (f !in w.files ==> w.generate(c.id) == Ok((ca.cert, ca.key)))
    ensures Declared(c.certPem, c.certPemEnv) != Declared(c.keyPem, c.keyPemEnv) ==> LoadCa(c, w) == Err(Config)
  {
    if MaterialText(c.certPem, c.certPemEnv, w.env, cert) && MaterialText(c.keyPem, c.keyPemEnv, w.env, key) {
      InlineIsLoaded(c, w, cert, key);
    } else if !Declared(c.certPem, c.certPemEnv) && !Declared(c.keyPem, c.keyPemEnv) && c.keyFile.Some? {
      FileIsLoaded(c, w, c.keyFile.value);
    }
  }

  lemma FileIsLoaded(c: CaConfig, w: Surroundings, f: string)
    requires !Declared(c.certPem, c.certPemEnv) && !Declared(c.keyPem, c.keyPemEnv) && c.keyFile == Some(f)
    ensures forall ca :: LoadCa(c, w) == Ok(ca) <==>
      && ca.id == c.id
      && (f in w.files ==> FileLoad(w.readers, w.files[f], PasswordFor(c, w)) == Ok((ca.cert, ca.key)))
      && (f !in w.files ==> w.generate(c.id) == Ok((ca.cert, ca.key)))
  {
    var r := LoadCa(c, w);
    var pair := if f in w.files then FileLoad(w.readers, w.files[f], PasswordFor(c, w)) else w.generate(c.id);
    assert r == match pair
      case Ok((cert, key)) => Ok(CertificateAuthority(c.id, cert, key))
      case Err(e) => Err(e);
  }

  lemma PasswordExactly(c: CaConfig, w: Surroundings, password: string)
    ensures PasswordFor(c, w) == Some(password) <==>
      c.keyPasswordEnv.Some? && c.keyPasswordEnv.value in w.env && w.env[c.keyPasswordEnv.value] == password
  {
  }

  lemma InlineIsLoaded(c: CaConfig, w: Surroundings, cert: string, key: string)
    requires MaterialText(c.certPem, c.certPemEnv, w.env, cert) && MaterialText(c.keyPem, c.keyPemEnv, w.env, key)
    ensures forall ca :: LoadCa(c, w) == Ok(ca) <==>
      ca.id == c.id && LoadCertificate(cert) == Ok(ca.cert) && LoadKey(w.readers, key, PasswordFor(c, w)) == Ok(ca.key)
  {
    assert InlineMaterial(c, w.env) == Ok(Some((cert, key)));
    var r := LoadCa(c, w);
    if LoadCertificate(cert).Ok? && LoadKey(w.readers, key, PasswordFor(c, w)).Ok? {
      assert r == Ok(CertificateAuthority(c.id, LoadCertificate(cert).value,
                                          LoadKey(w.readers, key, PasswordFor(c, w)).value));
    }
  }

  /** `build_validator` */
  function BuildValidator(p: ProfileConfig, intune: bool, w: Surroundings): Result<Validator> {
    match p.challenge
    case StaticMode =>
      var name :- p.staticSecretEnv.OkOr(Config);
      if name in w.env then Ok(StaticSecret(w.env[name])) else Err(Config)
    case IntuneMode => if intune then Ok(Intune) else Err(Config)
    case NoneMode => Ok(NoValidation)
  }

  /**
   What a profile asks for: a static one its own secret, read from the variable
   it names, an Intune one Intune's verdict, and only one configured `none`
   nothing.
   */
  ghost predicate AsksFor(p: ProfileConfig, v: Validator, w: Surroundings) {
    match p.challenge
    case StaticMode =>
      p.staticSecretEnv.Some? && p.staticSecretEnv.value in w.env && v == StaticSecret(w.env[p.staticSecretEnv.value])
    case IntuneMode => v == Intune
    case NoneMode => v == NoValidation
  }

  /** What it asks for is there: its secret is named and set, or Intune is configured. */
  predicate Buildable(p: ProfileConfig, intune: bool, w: Surroundings) {
    && (p.challenge == StaticMode ==> p.staticSecretEnv.Some? && p.staticSecretEnv.value in w.env)
    && (p.challenge == IntuneMode ==> intune)
  }

  /** A validator is built exactly when there is one to build, and then it is the one asked for. */
  lemma ValidatorExactly(p: ProfileConfig, intune: bool, w: Surroundings)
    ensures BuildValidator(p, intune, w).Ok? <==> Buildable(p, intune, w)
    ensures BuildValidator(p, intune, w).Ok? ==> AsksFor(p, BuildValidator(p, intune, w).value, w)
    ensures BuildValidator(p, intune, w).Err? ==> BuildValidator(p, intune, w).error == Config
  {
  }

  /** For validated settings only an unset variable keeps a profile from being built. */
  lemma OnlyUnsetSecretsFail(s: Settings, p: ProfileConfig, w: Surroundings)
    requires Validate(s).Ok? && p in s.profile
    ensures !Buildable(p, s.intuneSecretEnv.Some?, w) <==>
      p.challenge == StaticMode && p.staticSecretEnv.value !in w.env
    ensures p.challenge == StaticMode ==> p.staticSecretEnv.Some?
    ensures exists c :: c in s.ca && c.id == p.ca
  {
    assert ProfileAcceptable(s, p);
  }

  /** Every CA is stored under its own id, and every profile under its own name with a CA that exists. */
  ghost predicate Consistent(st: State) {
    && (forall k :: k in st.cas ==> st.cas[k].id == k)
    && (forall k :: k in st.profiles ==> st.profiles[k].name == k && st.profiles[k].caId in st.cas)
  }

  /** The last entry of a name wins, as inserting into a map in order does. */
  ghost predicate IsLast(profiles: seq<ProfileConfig>, i: nat)
    requires i < |profiles|
  {
    forall j :: i < j < |profiles| ==> profiles[j].name != profiles[i].name
  }

  ghost predicate Runs(p: ProfileConfig, rt: ProfileRuntime, intune: bool, w: Surroundings) {
    && rt.name == p.name && rt.caId == p.ca && rt.validityDays == p.validityDays
    && rt.keyUsage == p.keyUsage && rt.extendedKeyUsage == p.extendedKeyUsage
    && AsksFor(p, rt.validator, w) && Buildable(p, intune, w)
  }

  ghost predicate IsLastCa(configs: seq<CaConfig>, i: nat)
    requires i < |configs|
  {
    forall j :: i < j < |configs| ==> configs[j].id != configs[i].id
  }

  /** Under each id what the last configuration of that id loads. */
  ghost predicate CasBuilt(configs: seq<CaConfig>, m: map<string, CertificateAuthority>, w: Surroundings) {
    && m.Keys == (set c | c in configs :: c.id)
    && (forall i :: 0 <= i < |configs| && IsLastCa(configs, i) ==>
          configs[i].id in m && LoadCa(configs[i], w) == Ok(m[configs[i].id]))
  }

  /** Some configuration has the id, and the last one of them is what the map holds. */
  lemma CaOfId(configs: seq<CaConfig>, m: map<string, CertificateAuthority>, w: Surroundings,
               id: string)
    returns (i: nat)
    requires CasBuilt(configs, m, w) && id in m
    ensures i < |configs| && IsLastCa(configs, i) && configs[i].id == id && LoadCa(configs[i], w) == Ok(m[id])
    ensures m[id].id == id
  {
    i := LastOfId(configs, id);
    LoadedId(configs[i], w);
  }

  lemma {:induction false} LastIndex(names: seq<string>, name: string) returns (i: nat)
    requires name in names
    ensures i < |names| && names[i] == name && forall j :: i < j < |names| ==> names[j] != name
  {
    var k := |names| - 1;
    if names[k] == name {
      i := k;
    } else {
      assert names == names[..k] + [names[k]];
      i := LastIndex(names[..k], name);
    }
  }

  lemma LastOfId(configs: seq<CaConfig>, id: string) returns (i: nat)
    requires exists c :: c in configs && c.id == id
    ensures i < |configs| && IsLastCa(configs, i) && configs[i].id == id
  {
    var ids := seq(|configs|, j requires 0 <= j < |configs| => configs[j].id);
    var c :| c in configs && c.id == id;
    var k :| 0 <= k < |configs| && configs[k] == c;
    assert ids[k] == id;
    i := LastIndex(ids, id);
    forall j | i < j < |configs| ensures configs[j].id != configs[i].id { assert ids[j] != id; }
  }

  lemma LastOfName(configs: seq<ProfileConfig>, name: string) returns (i: nat)
    requires exists p :: p in configs && p.name == name
    ensures i < |configs| && IsLast(configs, i) && configs[i].name == name
  {
    var names := seq(|configs|, j requires 0 <= j < |configs| => configs[j].name);
    var p :| p in configs && p.name == name;
    var k :| 0 <= k < |configs| && configs[k] == p;
    assert names[k] == name;
    i := LastIndex(names, name);
    forall j | i < j < |configs| ensures configs[j].name != configs[i].name { assert names[j] != name; }
  }

  lemma LoadedId(c: CaConfig, w: Surroundings)
    requires LoadCa(c, w).Ok?
    ensures LoadCa(c, w).value.id == c.id
  {
  }

  lemma CaAdded(before: seq<CaConfig>, c: CaConfig, all: seq<CaConfig>, m: map<string, CertificateAuthority>,
                ca: CertificateAuthority, w: Surroundings)
    requires all == before + [c]
    requires CasBuilt(before, m, w) && LoadCa(c, w) == Ok(ca)
    ensures CasBuilt(all, m[c.id := ca], w)
  {
    var updated := m[c.id := ca];
    forall i | 0 <= i < |all| && IsLastCa(all, i)
      ensures all[i].id in updated && LoadCa(all[i], w) == Ok(updated[all[i].id])
    {
      if i < |before| {
        assert all[|before|].id != all[i].id;
        assert IsLastCa(before, i) by {
          assert forall j :: i < j < |before| ==> before[j] == all[j];
        }
      }
    }
  }

  lemma NextCa(configs: seq<CaConfig>, i: nat, m: map<string, CertificateAuthority>, ca: CertificateAuthority,
               w: Surroundings)
    requires i < |configs| && CasBuilt(configs[..i], m, w) && LoadCa(configs[i], w) == Ok(ca)
    ensures CasBuilt(configs[..i + 1], m[configs[i].id := ca], w)
  {
    TakeNext(configs, i);
    CaAdded(configs[..i], configs[i], configs[..i + 1], m, ca, w);
  }

  /** The first configuration that fails to load decides the error. */
  ghost predicate FirstCaError(configs: seq<CaConfig>, error: AppError, w: Surroundings) {
    exists i :: 0 <= i < |configs| && LoadCa(configs[i], w) == Err(error)
      && forall j :: 0 <= j < i ==> LoadCa(configs[j], w).Ok?
  }

  lemma NoCas(configs: seq<CaConfig>, w: Surroundings)
    ensures CasBuilt(configs[..0], map[], w)
  {
  }

  lemma FailsToLoad(configs: seq<CaConfig>, i: nat, error: AppError, w: Surroundings)
    requires i < |configs| && LoadCa(configs[i], w) == Err(error)
    requires forall j :: 0 <= j < i ==> LoadCa(configs[j], w).Ok?
    ensures FirstCaError(configs, error, w) && exists c :: c in configs && LoadCa(c, w).Err?
  {
    assert configs[i] in configs;
  }

  /** The first loop of `build_state`: each CA is loaded and stored under its id. */
  method LoadCas(configs: seq<CaConfig>, w: Surroundings) returns (r: Result<map<string, CertificateAuthority>>)
    ensures r.Ok? <==> forall c :: c in configs ==> LoadCa(c, w).Ok?
    ensures r.Ok? ==> CasBuilt(configs, r.value, w)
    ensures r.Err? ==> FirstCaError(configs, r.error, w)
  {
    var cas: map<string, CertificateAuthority> := map[];
    NoCas(configs, w);
    for i := 0 to |configs|
      invariant forall j :: 0 <= j < i ==> LoadCa(configs[j], w).Ok?
      invariant CasBuilt(configs[..i], cas, w)
    {
      var ca := LoadCa(configs[i], w);
      if ca.Err? {
        FailsToLoad(configs, i, ca.error, w);
        return Err(ca.error);
      }
      NextCa(configs, i, cas, ca.value, w);
      cas := cas[configs[i].id := ca.value];
    }
    assert configs[..|configs|] == configs;
    r := Ok(cas);
  }

  /** The last profile of a name wins, and every stored one runs some configured profile of that name. */
  ghost predicate ProfilesBuilt(profiles: seq<ProfileConfig>, m: map<string, ProfileRuntime>, intune: bool,
                                w: Surroundings) {
    && m.Keys == (set p | p in profiles :: p.name)
    && (forall k :: k in m ==> exists p :: p in profiles && p.name == k && Runs(p, m[k], intune, w))
    && (forall i :: 0 <= i < |profiles| && IsLast(profiles, i) ==>
          profiles[i].name in m && Runs(profiles[i], m[profiles[i].name], intune, w))
  }

  lemma ProfileAdded(before: seq<ProfileConfig>, p: ProfileConfig, all: seq<ProfileConfig>,
                     m: map<string, ProfileRuntime>, rt: ProfileRuntime, intune: bool, w: Surroundings)
    requires all == before + [p]
    requires ProfilesBuilt(before, m, intune, w) && Runs(p, rt, intune, w)
    ensures ProfilesBuilt(all, m[p.name := rt], intune, w)
  {
    var updated := m[p.name := rt];
    forall i | 0 <= i < |all| && IsLast(all, i)
      ensures all[i].name in updated && Runs(all[i], updated[all[i].name], intune, w)
    {
      if i < |before| {
        assert all[|before|].name != all[i].name;
        assert IsLast(before, i) by {
          assert forall j :: i < j < |before| ==> before[j] == all[j];
        }
      }
    }
    forall k | k in updated ensures exists q :: q in all && q.name == k && Runs(q, updated[k], intune, w) {
      if k == p.name {
        assert p in all;
      } else {
        var q :| q in before && q.name == k && Runs(q, m[k], intune, w);
        assert q in all;
      }
    }
  }

  function RuntimeOf(p: ProfileConfig, validator: Validator): ProfileRuntime {
    ProfileRuntime(p.name, p.ca, validator, p.validityDays, p.keyUsage, p.extendedKeyUsage)
  }

  lemma NextProfile(configs: seq<ProfileConfig>, i: nat, m: map<string, ProfileRuntime>, validator: Validator,
                    intune: bool, w: Surroundings)
    requires i < |configs| && ProfilesBuilt(configs[..i], m, intune, w)
    requires AsksFor(configs[i], validator, w) && Buildable(configs[i], intune, w)
    ensures ProfilesBuilt(configs[..i + 1], m[configs[i].name := RuntimeOf(configs[i], validator)], intune, w)
  {
    TakeNext(configs, i);
    ProfileAdded(configs[..i], configs[i], configs[..i + 1], m, RuntimeOf(configs[i], validator), intune, w);
  }

  lemma NoProfiles(configs: seq<ProfileConfig>, intune: bool, w: Surroundings)
    ensures ProfilesBuilt(configs[..0], map[], intune, w)
  {
  }

  /** The second loop of `build_state`; every failure is a configuration error. */
  method BuildProfiles(configs: seq<ProfileConfig>, intune: bool, w: Surroundings)
    returns (r: Result<map<string, ProfileRuntime>>)
    ensures r.Ok? <==> forall p :: p in configs ==> Buildable(p, intune, w)
    ensures r.Ok? ==> ProfilesBuilt(configs, r.value, intune, w)
    ensures r.Err? ==> r.error == Config
  {
    var profiles: map<string, ProfileRuntime> := map[];
    NoProfiles(configs, intune, w);
    for i := 0 to |configs|
      invariant forall j :: 0 <= j < i ==> Buildable(configs[j], intune, w)
      invariant ProfilesBuilt(configs[..i], profiles, intune, w)
    {
      var validator := BuildValidator(configs[i], intune, w);
      ValidatorExactly(configs[i], intune, w);
      if validator.Err? {
        assert configs[i] in configs;
        return Err(validator.error);
      }
      NextProfile(configs, i, profiles, validator.value, intune, w);
      profiles := profiles[configs[i].name := RuntimeOf(configs[i], validator.value)];
    }
    assert configs[..|configs|] == configs;
    r := Ok(profiles);
  }

  /** Does the Intune client's secret resolve, where one is configured? */
  predicate SecretSet(s: Settings, w: Surroundings) { s.intuneSecretEnv.Some? ==> s.intuneSecretEnv.value in w.env }

  /** For validated settings every stored profile resolves. */
  lemma BuiltIsConsistent(s: Settings, w: Surroundings, st: State)
    requires Validate(s).Ok? && Built(s, w, st)
    ensures Consistent(st)
  {
    forall k | k in st.cas ensures st.cas[k].id == k {
      var i := CaOfId(s.ca, st.cas, w, k);
    }
    forall k | k in st.profiles ensures st.profiles[k].name == k && st.profiles[k].caId in st.cas {
      var p :| p in s.profile && p.name == k && Runs(p, st.profiles[k], s.intuneSecretEnv.Some?, w);
      assert ProfileAcceptable(s, p);
    }
  }

  /**
   Settings that pass validation and load in no surroundings: a certificate
   declared inline, a key file beside it, and no key.
   */
  lemma HalfDeclared() returns (s: Settings, c: CaConfig)
    ensures Validate(s) == Ok(()) && s.ca == [c]
    ensures forall w: Surroundings :: InlineMaterial(c, w.env) == Err(Config) && LoadCa(c, w) == Err(Config)
  {
    c := CaConfig("ca", Some("ca.pem"), Some(""), None, None, None, None);
    s := Settings("", [c], [], None);
  }

  /** The state is the one these settings ask for in these surroundings. */
  ghost predicate Built(s: Settings, w: Surroundings, st: State) {
    && st.baseUrl == s.baseUrl && CasBuilt(s.ca, st.cas, w)
    && ProfilesBuilt(s.profile, st.profiles, s.intuneSecretEnv.Some?, w)
  }

  /**
   `build_state`: success exactly when every CA loads and every secret resolves,
   and then each id holds its own CA and each name its own profile, with the
   validator it asks for. The first CA that fails decides the error; past the
   CAs every failure is a configuration error. For validated settings every
   configured profile resolves to its CA.
   */
  method BuildState(s: Settings, w: Surroundings) returns (r: Result<State>)
    ensures r.Ok? <==>
      && (forall c :: c in s.ca ==> LoadCa(c, w).Ok?)
      && SecretSet(s, w)
      && (forall p :: p in s.profile ==> Buildable(p, s.intuneSecretEnv.Some?, w))
    ensures r.Ok? ==> Built(s, w, r.value)
    ensures r.Err? ==>
      if exists c :: c in s.ca && LoadCa(c, w).Err? then FirstCaError(s.ca, r.error, w) else r.error == Config
    ensures Validate(s).Ok? && r.Ok? ==> Consistent(r.value)
  {
    var cas := LoadCas(s.ca, w);
    if cas.Err? { return Err(cas.error); }
    if s.intuneSecretEnv.Some? && s.intuneSecretEnv.value !in w.env { return Err(Config); }
    var profiles := BuildProfiles(s.profile, s.intuneSecretEnv.Some?, w);
    if profiles.Err? { return Err(profiles.error); }
    r := Ok(State(cas.value, profiles.value, s.baseUrl));
    if Validate(s).Ok? { BuiltIsConsistent(s, w, r.value); }
  }

  /** What a stored profile holds: the settings of the last profile of its name, and the validator that one asks for. */
  lemma ProfileIsConfigured(s: Settings, w: Surroundings, st: State, name: string) returns (i: nat)
    requires Built(s, w, st) && name in st.profiles
    ensures i < |s.profile| && IsLast(s.profile, i) && s.profile[i].name == name
    ensures AsksFor(s.profile[i], st.profiles[name].validator, w)
    ensures st.profiles[name].caId == s.profile[i].ca && st.profiles[name].validityDays == s.profile[i].validityDays
    ensures st.profiles[name].keyUsage == s.profile[i].keyUsage
    ensures st.profiles[name].extendedKeyUsage == s.profile[i].extendedKeyUsage
  {
    i := LastOfName(s.profile, name);
    assert Runs(s.profile[i], st.profiles[name], s.intuneSecretEnv.Some?, w);
  }

  // ----- lookup and URLs -----

  /** `ca_for_profile` */
  function CaForProfile(st: State, profile: string): Option<CertificateAuthority> {
    if profile !in st.profiles || st.profiles[profile].caId !in st.cas then None
    else Some(st.cas[st.profiles[profile].caId])
  }

  /** With a consistent state every configured profile resolves, and to the CA its id names. */
  lemma ProfilesResolve(st: State, profile: string)
    requires Consistent(st)
    ensures CaForProfile(st, profile).Some? <==> profile in st.profiles
    ensures CaForProfile(st, profile).Some? ==> CaForProfile(st, profile).value.id == st.profiles[profile].caId
  {
  }

  /** `ocsp_url` */
  function OcspUrl(st: State, caId: string): string { TrimSlashes(st.baseUrl) + "/ocsp/" + caId }

  /** `crl_url` */
  function CrlUrl(st: State, caId: string): string { TrimSlashes(st.baseUrl) + "/crl/" + caId }

  /** A URL names one CA. */
  lemma UrlsNameOneCa(st: State, a: string, b: string)
    ensures OcspUrl(st, a) == OcspUrl(st, b) <==> a == b
    ensures CrlUrl(st, a) == CrlUrl(st, b) <==> a == b
  {
    var o, c := TrimSlashes(st.baseUrl) + "/ocsp/", TrimSlashes(st.baseUrl) + "/crl/";
    assert (o + a)[|o|..] == a && (o + b)[|o|..] == b;
    assert (c + a)[|c|..] == a && (c + b)[|c|..] == b;
  }
}
