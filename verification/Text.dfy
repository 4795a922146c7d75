/** Unicode text as the server's `String`s: UTF-8 (RFC 3629) and white space. */
module Text {
  import opened Wrappers

  // ----- UTF-8 -----

  function EncodeChar(c: char): (r: bytes)
    ensures 1 <= |r| <= 4
  {
    var n := c as int;
    if n < 0x80 then [n]
    else if n < 0x800 then [0xC0 + n / 0x40, 0x80 + n % 0x40]
    else if n < 0x1_0000 then [0xE0 + n / 0x40 / 0x40, 0x80 + n / 0x40 % 0x40, 0x80 + n % 0x40]
    else [0xF0 + n / 0x40 / 0x40 / 0x40, 0x80 + n / 0x40 / 0x40 % 0x40, 0x80 + n / 0x40 % 0x40, 0x80 + n % 0x40]
  }

  function EncodeUtf8(s: string): bytes {
    if s == "" then [] else EncodeChar(s[0]) + EncodeUtf8(s[1..])
  }

  predicate Continuation(b: byte) { 0x80 <= b < 0xC0 }

  /** Shifts six more bits in. */
  function Join(high: nat, low: byte): (r: nat)
    requires Continuation(low)
    ensures r / 0x40 == high && r % 0x40 == low - 0x80
  {
    high * 0x40 + (low - 0x80) as int
  }

  predicate Scalar(n: int) { 0 <= n < 0xD800 || 0xE000 <= n < 0x11_0000 }

  /** Reads one scalar value from the front: its number and octet count. Overlong forms and surrogates are refused. */
  function DecodeScalar(b: bytes): (r: Option<(nat, nat)>)
    ensures r.Some? ==> Scalar(r.value.0) && 1 <= r.value.1 <= |b|
  {
    if |b| >= 1 && b[0] < 0x80 then Some((b[0], 1))
    else if |b| >= 2 && 0xC2 <= b[0] < 0xE0 && Continuation(b[1]) then
      Some((Join(b[0] - 0xC0, b[1]), 2))
    else if |b| >= 3 && 0xE0 <= b[0] < 0xF0 && Continuation(b[1]) && Continuation(b[2]) then
      var n := Join(Join(b[0] - 0xE0, b[1]), b[2]);
      if n >= 0x800 && Scalar(n) then Some((n, 3)) else None
    else if |b| >= 4 && 0xF0 <= b[0] < 0xF5 && Continuation(b[1]) && Continuation(b[2]) && Continuation(b[3]) then
      var n := Join(Join(Join(b[0] - 0xF0, b[1]), b[2]), b[3]);
      if n >= 0x1_0000 && Scalar(n) then Some((n, 4)) else None
    else None
  }

  /** `str::from_utf8`. */
  function DecodeUtf8(b: bytes): Option<string> {
    if b == [] then Some("")
    else
      var (n, k) :- DecodeScalar(b);
      var rest :- DecodeUtf8(b[k..]);
      Some([n as char] + rest)
  }

  lemma ScalarRoundTrip(c: char, rest: bytes)
    ensures DecodeScalar(EncodeChar(c) + rest) == Some((c as int, |EncodeChar(c)|))
  {
    var b, n := EncodeChar(c), c as int;
    assert forall i :: 0 <= i < |b| ==> (b + rest)[i] == b[i];
    assert Scalar(n);
  }

  lemma ScalarCanonical(b: bytes)
    requires DecodeScalar(b).Some?
    ensures EncodeChar(DecodeScalar(b).value.0 as char) == b[..DecodeScalar(b).value.1]
  {
  }

  lemma {:induction false} Utf8RoundTrip(s: string)
    ensures DecodeUtf8(EncodeUtf8(s)) == Some(s)
  {
    if s != "" {
      var head, tail := EncodeChar(s[0]), EncodeUtf8(s[1..]);
      ScalarRoundTrip(s[0], tail);
      Utf8RoundTrip(s[1..]);
      assert (head + tail)[|head|..] == tail;
      assert s == [s[0]] + s[1..];
    }
  }

  lemma EncodeCons(c: char, rest: string)
    ensures EncodeUtf8([c] + rest) == EncodeChar(c) + EncodeUtf8(rest)
  {
    assert ([c] + rest)[1..] == rest;
  }

  /** Decoding text takes one character off the front. */
  lemma DecodeFront(b: bytes) returns (c: char, k: nat, rest: string)
    requires b != [] && DecodeUtf8(b).Some?
    ensures 1 <= k <= |b| && EncodeChar(c) == b[..k]
    ensures DecodeUtf8(b[k..]) == Some(rest) && DecodeUtf8(b) == Some([c] + rest)
  {
    var scalar := DecodeScalar(b).value;
    k := scalar.1;
    c, rest := scalar.0 as char, DecodeUtf8(b[k..]).value;
    ScalarCanonical(b);
  }

  lemma {:induction false} Utf8Canonical(b: bytes)
    requires DecodeUtf8(b).Some?
    ensures EncodeUtf8(DecodeUtf8(b).value) == b
  {
    if b != [] {
      var c, k, rest := DecodeFront(b);
      Utf8Canonical(b[k..]);
      EncodeCons(c, rest);
      assert b == b[..k] + b[k..];
    }
  }

  predicate Ascii(s: string) { forall i :: 0 <= i < |s| ==> s[i] as int < 0x80 }

  /** ASCII text is its own code points. */
  lemma {:induction false} AsciiOctets(s: string)
    requires Ascii(s)
    ensures |EncodeUtf8(s)| == |s| && forall i :: 0 <= i < |s| ==> EncodeUtf8(s)[i] == s[i] as int
  {
    if s != "" {
      AsciiOctets(s[1..]);
    }
  }

  // ----- white space -----

  /** `char::is_whitespace` (the Unicode White_Space property). */
  predicate Whitespace(c: char) {
    var n := c as int;
    || 9 <= n <= 13 || n == 0x20 || n == 0x85 || n == 0xA0 || n == 0x1680
    || 0x2000 <= n <= 0x200A || n == 0x2028 || n == 0x2029 || n == 0x202F || n == 0x205F || n == 0x3000
  }

  function TrimStart(s: string): string {
    if s != "" && Whitespace(s[0]) then TrimStart(s[1..]) else s
  }

  function TrimEnd(s: string): string {
    if s != "" && Whitespace(s[|s| - 1]) then TrimEnd(s[..|s| - 1]) else s
  }

  function Trim(s: string): string { TrimEnd(TrimStart(s)) }

  /** `trim_end_matches('/')` */
  function TrimSlashes(s: string): string {
    if s != "" && s[|s| - 1] == '/' then TrimSlashes(s[..|s| - 1]) else s
  }

  /** The 25 code points of the Unicode property. */
  lemma WhitespaceExactly(c: char)
    ensures Whitespace(c) <==> c as int in {
      0x09, 0x0A, 0x0B, 0x0C, 0x0D, 0x20, 0x85, 0xA0, 0x1680, 0x2000, 0x2001, 0x2002, 0x2003, 0x2004, 0x2005, 0x2006,
      0x2007, 0x2008, 0x2009, 0x200A, 0x2028, 0x2029, 0x202F, 0x205F, 0x3000}
  {
  }

  ghost predicate Blank(s: string) { forall i :: 0 <= i < |s| ==> Whitespace(s[i]) }

  lemma {:induction false} TrimStartExactly(s: string) returns (before: string)
    ensures s == before + TrimStart(s) && Blank(before)
    ensures TrimStart(s) != "" ==> !Whitespace(TrimStart(s)[0])
  {
    if s != "" && Whitespace(s[0]) {
      var rest := TrimStartExactly(s[1..]);
      before := [s[0]] + rest;
    } else {
      before := "";
    }
  }

  lemma {:induction false} TrimEndExactly(s: string) returns (after: string)
    ensures s == TrimEnd(s) + after && Blank(after)
    ensures TrimEnd(s) != "" ==> !Whitespace(TrimEnd(s)[|TrimEnd(s)| - 1])
  {
    if s != "" && Whitespace(s[|s| - 1]) {
      var rest := TrimEndExactly(s[..|s| - 1]);
      after := rest + [s[|s| - 1]];
    } else {
      after := "";
    }
  }

  /** Trimming takes the white space off both ends, and nothing else. */
  lemma TrimExactly(s: string) returns (before: string, after: string)
    ensures s == before + Trim(s) + after && Blank(before) && Blank(after)
    ensures Trim(s) != "" ==> !Whitespace(Trim(s)[0]) && !Whitespace(Trim(s)[|Trim(s)| - 1])
  {
    before := TrimStartExactly(s);
    after := TrimEndExactly(TrimStart(s));
    if Trim(s) != "" { assert Trim(s)[0] == TrimStart(s)[0]; }
  }

  /** Text without blank ends is what any blanks around it trim to. */
  lemma BlanksAreTrimmed(before: string, s: string, after: string)
    requires Blank(before) && Blank(after) && s != "" && !Whitespace(s[0]) && !Whitespace(s[|s| - 1])
    ensures Trim(before + s + after) == s
  {
    var b, a := TrimExactly(before + s + after);
    SameMiddle(before, s, after, b, Trim(before + s + after), a);
  }

  lemma SameMiddle(b: string, s: string, a: string, c: string, t: string, d: string)
    requires b + s + a == c + t + d && Blank(b) && Blank(a) && Blank(c) && Blank(d)
    requires s != "" && !Whitespace(s[0]) && !Whitespace(s[|s| - 1])
    requires t != "" ==> !Whitespace(t[0]) && !Whitespace(t[|t| - 1])
    ensures s == t
  {
    var x := b + s + a;
    assert x[|b|] == s[0] && x[|b| + |s| - 1] == s[|s| - 1];
    assert forall i :: 0 <= i < |c| ==> x[i] == c[i];
    assert forall i :: |c| + |t| <= i < |x| ==> x[i] == d[i - |c| - |t|];
    if t != "" {
      assert x[|c|] == t[0] && x[|c| + |t| - 1] == t[|t| - 1];
      assert forall i :: 0 <= i < |b| ==> x[i] == b[i];
      assert forall i :: |b| + |s| <= i < |x| ==> x[i] == a[i - |b| - |s|];
      assert |b| == |c| && |s| == |t|;
      assert x[|b|..|b| + |s|] == s && x[|c|..|c| + |t|] == t;
    }
  }

  /** What is taken off the end is slashes, and none is left. */
  lemma {:induction false} SlashesExactly(s: string) returns (slashes: string)
    ensures s == TrimSlashes(s) + slashes && forall i :: 0 <= i < |slashes| ==> slashes[i] == '/'
    ensures TrimSlashes(s) != "" ==> TrimSlashes(s)[|TrimSlashes(s)| - 1] != '/'
  {
    if s != "" && s[|s| - 1] == '/' {
      var rest := SlashesExactly(s[..|s| - 1]);
      slashes := rest + "/";
    } else {
      slashes := "";
    }
  }
}
