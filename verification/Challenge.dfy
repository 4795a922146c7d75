/** Challenge validation (`src/challenge/mod.rs`). */
module Challenge {
  import opened Wrappers
  import opened Text
  import opened Bits

  /** What a validator sees. */
  datatype ValidationInput = ValidationInput(transactionId: string, csrDer: bytes, password: Option<string>)

  /** The three strategies. Intune's verdict comes from outside. */
  datatype Validator =
    | StaticSecret(secret: string)
    | NoValidation
    | Intune

  /** `constant_time_eq`: ors the exclusive ors of all positions. */
  method ConstantTimeEq(a: bytes, b: bytes) returns (r: bool)
    ensures r <==> a == b
  {
    if |a| != |b| { return false; }
    var diff: byte := 0;
    for i := 0 to |a|
      invariant diff == 0 <==> a[..i] == b[..i]
    {
      OrXorZero(diff, a[i], b[i]);
      TakeNext(a, i);
      TakeNext(b, i);
      diff := Or(diff, Xor(a[i], b[i]));
    }
    assert a[..|a|] == a && b[..|b|] == b;
    r := diff == 0;
  }

  /** Approval as a property of the request; `verdict` is Intune's answer. */
  predicate Approves(v: Validator, input: ValidationInput, verdict: bool) {
    match v
    case StaticSecret(secret) => input.password == Some(secret)
    case NoValidation => true
    case Intune => verdict
  }

  /** `validate` of the three validators. */
  method Validate(v: Validator, input: ValidationInput, verdict: bool) returns (r: Result<()>)
    ensures r.Ok? <==> Approves(v, input, verdict)
    ensures r.Err? ==> r.error == if v.Intune? then Upstream else BadRequest
  {
    match v {
      case StaticSecret(secret) =>
        if input.password.None? { return Err(BadRequest); }
        var same := ConstantTimeEq(EncodeUtf8(input.password.value), EncodeUtf8(secret));
        Utf8RoundTrip(input.password.value);
        Utf8RoundTrip(secret);
        r := if same then Ok(()) else Err(BadRequest);
      case NoValidation =>
        r := Ok(());
      case Intune =>
        r := if verdict then Ok(()) else Err(Upstream);
    }
  }
}
