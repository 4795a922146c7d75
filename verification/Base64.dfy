/** Standard base64 with mandatory padding (section 4 of RFC 4648). */
module Base64 {
  import opened Wrappers

  function Symbol(n: nat): char
    requires n < 64
  {
    if n < 26 then 'A' + n as char
    else if n < 52 then 'a' + (n - 26) as char
    else if n < 62 then '0' + (n - 52) as char
    else if n == 62 then '+'
    else '/'
  }

  function Value(c: char): (r: Option<nat>)
    ensures r.Some? ==> r.value < 64
  {
    if 'A' <= c <= 'Z' then Some(c as int - 'A' as int)
    else if 'a' <= c <= 'z' then Some(c as int - 'a' as int + 26)
    else if '0' <= c <= '9' then Some(c as int - '0' as int + 52)
    else if c == '+' then Some(62)
    else if c == '/' then Some(63)
    else None
  }

  function EncodeQuad(a: byte, b: byte, c: byte): string {
    [Symbol(a / 4), Symbol(a % 4 * 16 + b / 16), Symbol(b % 16 * 4 + c / 64), Symbol(c % 64)]
  }

  function Encode(b: bytes): string {
    if |b| == 0 then ""
    else if |b| == 1 then EncodeQuad(b[0], 0, 0)[..2] + "=="
    else if |b| == 2 then EncodeQuad(b[0], b[1], 0)[..3] + "="
    else EncodeQuad(b[0], b[1], b[2]) + Encode(b[3..])
  }

  /** The last four symbols, which may end in padding; unused bits must be zero. */
  function DecodeLast(s: string): Option<bytes>
    requires |s| == 4
  {
    var p :- Value(s[0]);
    var q :- Value(s[1]);
    if s[2] == '=' && s[3] == '=' then
      (if q % 16 == 0 then Some([p * 4 + q / 16]) else None)
    else
      var r :- Value(s[2]);
      if s[3] == '=' then
        (if r % 4 == 0 then Some([p * 4 + q / 16, q % 16 * 16 + r / 4]) else None)
      else
        var t :- Value(s[3]);
        Some([p * 4 + q / 16, q % 16 * 16 + r / 4, r % 4 * 64 + t])
  }

  function Decode(s: string): Option<bytes> {
    if s == "" then Some([])
    else if |s| < 4 then None
    else if |s| == 4 then DecodeLast(s)
    else
      var head :- DecodeLast(s[..4]);
      var tail :- Decode(s[4..]);
      if |head| == 3 then Some(head + tail) else None
  }

  lemma ValueOfSymbol(n: nat)
    requires n < 64
    ensures Value(Symbol(n)) == Some(n)
  {
  }

  lemma SymbolOfValue(c: char)
    requires Value(c).Some?
    ensures Symbol(Value(c).value) == c
  {
  }

  /** Three octets are four sextets. */
  lemma Regroup(a: byte, b: byte, c: byte)
    ensures a / 4 * 4 + (a % 4 * 16 + b / 16) / 16 == a
    ensures (a % 4 * 16 + b / 16) % 16 * 16 + (b % 16 * 4 + c / 64) / 4 == b
    ensures (b % 16 * 4 + c / 64) % 4 * 64 + c % 64 == c
    ensures (a % 4 * 16) % 16 == 0 && (b % 16 * 4) % 4 == 0
  {
  }

  /** Four sextets are three octets. */
  lemma Repack(p: nat, q: nat, r: nat, t: nat)
    requires p < 64 && q < 64 && r < 64 && t < 64
    ensures (p * 4 + q / 16) / 4 == p
    ensures (p * 4 + q / 16) % 4 * 16 + (q % 16 * 16 + r / 4) / 16 == q
    ensures (q % 16 * 16 + r / 4) % 16 * 4 + (r % 4 * 64 + t) / 64 == r
    ensures (r % 4 * 64 + t) % 64 == t
  {
  }

  lemma TripleRoundTrip(a: byte, b: byte, c: byte)
    ensures DecodeLast(EncodeQuad(a, b, c)) == Some([a, b, c])
  {
    Regroup(a, b, c);
    ValueOfSymbol(a / 4);
    ValueOfSymbol(a % 4 * 16 + b / 16);
    ValueOfSymbol(b % 16 * 4 + c / 64);
    ValueOfSymbol(c % 64);
    assert Symbol(c % 64) != '=' && Symbol(b % 16 * 4 + c / 64) != '=';
  }

  lemma PairRoundTrip(a: byte, b: byte)
    ensures DecodeLast(EncodeQuad(a, b, 0)[..3] + "=") == Some([a, b])
  {
    Regroup(a, b, 0);
    ValueOfSymbol(a / 4);
    ValueOfSymbol(a % 4 * 16 + b / 16);
    ValueOfSymbol(b % 16 * 4);
    assert Symbol(b % 16 * 4) != '=';
  }

  lemma SingleRoundTrip(a: byte)
    ensures DecodeLast(EncodeQuad(a, 0, 0)[..2] + "==") == Some([a])
  {
    Regroup(a, 0, 0);
    ValueOfSymbol(a / 4);
    ValueOfSymbol(a % 4 * 16);
  }

  lemma DecodeStep(head: string, tail: string, h: bytes, t: bytes)
    requires |head| == 4 && DecodeLast(head) == Some(h) && |h| == 3
    requires Decode(tail) == Some(t)
    ensures Decode(head + tail) == Some(h + t)
  {
    if tail == "" {
      assert head + tail == head && h + t == h;
    } else {
      assert (head + tail)[..4] == head && (head + tail)[4..] == tail;
    }
  }

  lemma FullGroup(a: byte, b: byte, c: byte, rest: bytes)
    requires Decode(Encode(rest)) == Some(rest)
    ensures Decode(Encode([a, b, c] + rest)) == Some([a, b, c] + rest)
  {
    assert ([a, b, c] + rest)[3..] == rest;
    TripleRoundTrip(a, b, c);
    DecodeStep(EncodeQuad(a, b, c), Encode(rest), [a, b, c], rest);
  }

  lemma DecodeFour(s: string, b: bytes)
    requires |s| == 4 && DecodeLast(s) == Some(b)
    ensures Decode(s) == Some(b)
  {
  }

  lemma EncodeShort(a: byte, b: byte)
    ensures Encode([a]) == EncodeQuad(a, 0, 0)[..2] + "=="
    ensures Encode([a, b]) == EncodeQuad(a, b, 0)[..3] + "="
  {
  }

  lemma ShortRoundTrip(a: byte, b: byte)
    ensures Decode(Encode([a])) == Some([a]) && Decode(Encode([a, b])) == Some([a, b])
  {
    SingleRoundTrip(a);
    DecodeFour(EncodeQuad(a, 0, 0)[..2] + "==", [a]);
    PairRoundTrip(a, b);
    DecodeFour(EncodeQuad(a, b, 0)[..3] + "=", [a, b]);
    EncodeShort(a, b);
  }

  lemma Spelled(b: bytes)
    ensures |b| == 1 ==> b == [b[0]]
    ensures |b| == 2 ==> b == [b[0], b[1]]
    ensures |b| >= 3 ==> b == [b[0], b[1], b[2]] + b[3..]
  {
  }

  /** Decoding undoes encoding, for octets of every length. */
  lemma {:induction false} RoundTrip(b: bytes)
    ensures Decode(Encode(b)) == Some(b)
  {
    if |b| >= 3 {
      RoundTrip(b[3..]);
      FullGroup(b[0], b[1], b[2], b[3..]);
      Spelled(b);
    } else if |b| == 2 {
      ShortRoundTrip(b[0], b[1]);
      Spelled(b);
    } else if |b| == 1 {
      ShortRoundTrip(b[0], 0);
      Spelled(b);
    }
  }

  /**
   Encoded text is never longer than it needs to be: three octets at least for every four symbols, less the padding.
   */
  lemma {:induction false} DecodedIsShorter(s: string)
    requires Decode(s).Some?
    ensures |Decode(s).value| <= |s|
    ensures s != "" ==> |Decode(s).value| < |s|
  {
    if |s| > 4 {
      DecodedIsShorter(s[4..]);
    }
  }

  /** The symbols an encoding is made of. */
  predicate InAlphabet(c: char) { Value(c).Some? || c == '=' }

  lemma {:induction false} EncodeAlphabet(b: bytes)
    ensures forall i :: 0 <= i < |Encode(b)| ==> InAlphabet(Encode(b)[i])
  {
    if |b| >= 3 {
      EncodeAlphabet(b[3..]);
      var q, tail := EncodeQuad(b[0], b[1], b[2]), Encode(b[3..]);
      forall i | 0 <= i < |q + tail| ensures InAlphabet((q + tail)[i]) {
      }
    }
  }

  /** What decodes is what encodes to it: distinct texts never decode alike. */
  lemma {:induction false} Canonical(s: string)
    requires Decode(s).Some?
    ensures Encode(Decode(s).value) == s
  {
    if |s| == 4 {
      LastCanonical(s);
    } else if |s| > 4 {
      var head, tail := DecodeLast(s[..4]).value, Decode(s[4..]).value;
      LastCanonical(s[..4]);
      Canonical(s[4..]);
      assert (head + tail)[3..] == tail;
      assert s == s[..4] + s[4..];
      assert Encode(head) == EncodeQuad(head[0], head[1], head[2]) + Encode(head[3..]);
    }
  }

  lemma CanonicalOne(s: string, p: nat, q: nat)
    requires |s| == 4 && s[2] == '=' && s[3] == '=' && Value(s[0]) == Some(p) && Value(s[1]) == Some(q) && q % 16 == 0
    ensures DecodeLast(s) == Some([p * 4 + q / 16]) && Encode([p * 4 + q / 16]) == s
  {
    SymbolOfValue(s[0]);
    SymbolOfValue(s[1]);
    Repack(p, q, 0, 0);
    EncodeShort(p * 4 + q / 16, 0);
  }

  lemma CanonicalTwo(s: string, p: nat, q: nat, r: nat)
    requires |s| == 4 && s[2] != '=' && s[3] == '=' && Value(s[0]) == Some(p) && Value(s[1]) == Some(q) &&
      Value(s[2]) == Some(r) && r % 4 == 0
    ensures DecodeLast(s) == Some([p * 4 + q / 16, q % 16 * 16 + r / 4])
    ensures Encode([p * 4 + q / 16, q % 16 * 16 + r / 4]) == s
  {
    SymbolOfValue(s[0]);
    SymbolOfValue(s[1]);
    SymbolOfValue(s[2]);
    Repack(p, q, r, 0);
    EncodeShort(p * 4 + q / 16, q % 16 * 16 + r / 4);
  }

  lemma CanonicalThree(s: string, p: nat, q: nat, r: nat, t: nat)
    requires |s| == 4 && Value(s[0]) == Some(p) && Value(s[1]) == Some(q) && Value(s[2]) == Some(r) &&
      Value(s[3]) == Some(t)
    ensures DecodeLast(s) == Some([p * 4 + q / 16, q % 16 * 16 + r / 4, r % 4 * 64 + t])
    ensures EncodeQuad(p * 4 + q / 16, q % 16 * 16 + r / 4, r % 4 * 64 + t) == s
  {
    SymbolOfValue(s[0]);
    SymbolOfValue(s[1]);
    SymbolOfValue(s[2]);
    SymbolOfValue(s[3]);
    Repack(p, q, r, t);
  }

  lemma OneQuad(b: bytes)
    requires |b| == 3
    ensures Encode(b) == EncodeQuad(b[0], b[1], b[2])
  {
    assert b[3..] == [] && Encode([]) == "";
  }

  lemma LastCanonical(s: string)
    requires |s| == 4 && DecodeLast(s).Some?
    ensures Encode(DecodeLast(s).value) == s
  {
    var p, q := Value(s[0]).value, Value(s[1]).value;
    if s[2] == '=' && s[3] == '=' {
      CanonicalOne(s, p, q);
    } else if s[3] == '=' {
      CanonicalTwo(s, p, q, Value(s[2]).value);
    } else {
      CanonicalThree(s, p, q, Value(s[2]).value, Value(s[3]).value);
      OneQuad(DecodeLast(s).value);
    }
  }
}
