/**
 PEM text (RFC 7468): the scanner of `src/ca/keystore.rs` and the 64-column
 printer behind `write_ca_pem` (`src/app.rs`).
 */
module Pem {
  import opened Wrappers
  import opened Text
  import Base64

  const BEGIN := "-----BEGIN "
  const END := "-----END "
  const DASHES := "-----"

  datatype Block = Block(kind: string, der: bytes)

  // ----- lines -----

  function LineEnd(s: string): (n: nat)
    ensures n <= |s| && (n < |s| ==> s[n] == '\n')
    ensures forall i :: 0 <= i < n ==> s[i] != '\n'
  {
    if s == "" || s[0] == '\n' then 0 else 1 + LineEnd(s[1..])
  }

  function StripCr(s: string): string {
    if s != "" && s[|s| - 1] == '\r' then s[..|s| - 1] else s
  }

  /** `str::lines`: LF or CRLF ends a line; the last need not be ended. */
  function Lines(s: string): seq<string> {
    if s == "" then []
    else
      var n := LineEnd(s);
      if n == |s| then [s] else [StripCr(s[..n])] + Lines(s[n + 1..])
  }

  // ----- the scanner -----

  function BeginLabel(line: string): Option<string> {
    var t := Trim(line);
    if BEGIN <= t && |t| >= |BEGIN| + 5 && t[|t| - 5..] == DASHES then Some(t[|BEGIN|..|t| - 5]) else None
  }

  predicate IsEnd(line: string) { END <= Trim(line) }

  /** How many lines come before the closing one, or all of them. */
  function BodyLength(lines: seq<string>): (n: nat)
    ensures n <= |lines|
  {
    if lines == [] || IsEnd(lines[0]) then 0 else 1 + BodyLength(lines[1..])
  }

  function Joined(lines: seq<string>): string {
    if lines == [] then "" else Joined(lines[..|lines| - 1]) + Trim(lines[|lines| - 1])
  }

  /** A block, unless its body is not base64. */
  function BlockOf(kind: string, body: seq<string>): seq<Block> {
    var der := Base64.Decode(Joined(body));
    if der.Some? then [Block(kind, der.value)] else []
  }

  /** The lines after a block's body and its closing line. */
  function AfterBody(lines: seq<string>): (rest: seq<string>)
    ensures |rest| <= |lines|
  {
    var n := BodyLength(lines);
    if n < |lines| then lines[n + 1..] else []
  }

  function Blocks(lines: seq<string>): seq<Block>
    decreases |lines|
  {
    if lines == [] then []
    else
      var kind := BeginLabel(lines[0]);
      if kind.None? then Blocks(lines[1..])
      else
        var tail := lines[1..];
        BlockOf(kind.value, tail[..BodyLength(tail)]) + Blocks(AfterBody(tail))
  }

  lemma {:induction false} BodyLengthIs(lines: seq<string>, n: nat)
    requires n <= |lines| && (n < |lines| ==> IsEnd(lines[n]))
    requires forall i :: 0 <= i < n ==> !IsEnd(lines[i])
    ensures BodyLength(lines) == n
  {
    if n > 0 {
      BodyLengthIs(lines[1..], n - 1);
    }
  }

  lemma SkipStep(lines: seq<string>, c: nat)
    requires c < |lines| && BeginLabel(lines[c]).None?
    ensures Blocks(lines[c..]) == Blocks(lines[c + 1..])
  {
    assert lines[c..][1..] == lines[c + 1..];
  }

  ghost predicate NoneEnds(lines: seq<string>, from: nat, to: nat)
    requires to <= |lines|
  {
    forall i :: from <= i < to ==> !IsEnd(lines[i])
  }

  lemma NoneEndsNext(lines: seq<string>, from: nat, to: nat)
    requires to < |lines| && NoneEnds(lines, from, to) && !IsEnd(lines[to])
    ensures NoneEnds(lines, from, to + 1)
  {
  }

  /** A block opened at `c` whose body ends before `stop`: where the scan goes on. */
  lemma BlockStep(lines: seq<string>, c: nat, stop: nat, cursor: nat)
    requires c < stop <= |lines| && BeginLabel(lines[c]).Some?
    requires NoneEnds(lines, c + 1, stop)
    requires if stop < |lines| then IsEnd(lines[stop]) && cursor == stop + 1 else cursor == stop
    ensures Blocks(lines[c..]) == BlockOf(BeginLabel(lines[c]).value, lines[c + 1..stop]) + Blocks(lines[cursor..])
  {
    var tail := lines[c + 1..];
    assert lines[c..][1..] == tail;
    BodyIs(lines, c, stop, tail);
    assert tail[..stop - c - 1] == lines[c + 1..stop];
    assert AfterBody(tail) == lines[cursor..];
  }

  lemma BodyIs(lines: seq<string>, c: nat, stop: nat, tail: seq<string>)
    requires c < stop <= |lines| && tail == lines[c + 1..] && NoneEnds(lines, c + 1, stop)
    requires stop < |lines| ==> IsEnd(lines[stop])
    ensures BodyLength(tail) == stop - c - 1
  {
    assert forall i :: 0 <= i < |tail| ==> tail[i] == lines[c + 1 + i];
    BodyLengthIs(tail, stop - c - 1);
  }

  lemma JoinedNext(lines: seq<string>, from: nat, to: nat)
    requires from <= to < |lines|
    ensures Joined(lines[from..to + 1]) == Joined(lines[from..to]) + Trim(lines[to])
  {
    assert lines[from..to + 1][..to - from] == lines[from..to];
  }

  lemma AppendFound(before: seq<Block>, found: seq<Block>, rest: seq<Block>)
    ensures before + (found + rest) == before + found + rest
    ensures found == [] ==> before + found == before
  {
  }

  /** The inner loop: takes lines from the shared cursor up to and including the closing one. */
  method ReadBody(lines: seq<string>, start: nat) returns (b64: string, cursor: nat, ghost stop: nat)
    requires start <= |lines|
    ensures start <= stop <= |lines| && NoneEnds(lines, start, stop)
    ensures b64 == Joined(lines[start..stop])
    ensures if stop < |lines| then IsEnd(lines[stop]) && cursor == stop + 1 else cursor == stop
  {
    b64, cursor, stop := "", start, start;
    while cursor < |lines|
      invariant start <= stop == cursor <= |lines|
      invariant b64 == Joined(lines[start..stop])
      invariant NoneEnds(lines, start, stop)
    {
      var l := lines[cursor];
      cursor := cursor + 1;
      if IsEnd(l) { break; }
      stop := cursor;
      NoneEndsNext(lines, start, stop - 1);
      JoinedNext(lines, start, stop - 1);
      b64 := b64 + Trim(l);
    }
  }

  /** `pem_blocks`: the outer loop goes on where the inner one left the cursor, so each line is consumed once. */
  method PemBlocks(text: string) returns (out: seq<Block>)
    ensures out == Blocks(Lines(text))
  {
    var lines := Lines(text);
    var cursor := 0;
    out := [];
    assert lines[0..] == lines;
    while cursor < |lines|
      invariant 0 <= cursor <= |lines|
      invariant out + Blocks(lines[cursor..]) == Blocks(lines)
    {
      ghost var opening, before := cursor, out;
      var kind := BeginLabel(lines[cursor]);
      cursor := cursor + 1;
      if kind.None? {
        SkipStep(lines, opening);
        continue;
      }
      var b64;
      ghost var stop;
      b64, cursor, stop := ReadBody(lines, cursor);
      BlockStep(lines, opening, stop, cursor);
      var der := Base64.Decode(b64);
      if der.Some? {
        out := out + [Block(kind.value, der.value)];
      }
      AppendFound(before, BlockOf(kind.value, lines[opening + 1..stop]), Blocks(lines[cursor..]));
    }
    assert lines[cursor..] == [];
  }

  // ----- homomorphism -----

  /** Every block that is opened is closed. */
  ghost predicate Closed(lines: seq<string>)
    decreases |lines|
  {
    if lines == [] then true
    else if BeginLabel(lines[0]).None? then Closed(lines[1..])
    else BodyLength(lines[1..]) < |lines| - 1 && Closed(AfterBody(lines[1..]))
  }

  lemma {:induction false} BodyLengthExtends(xs: seq<string>, ys: seq<string>)
    requires BodyLength(xs) < |xs|
    ensures BodyLength(xs + ys) == BodyLength(xs)
  {
    if !IsEnd(xs[0]) {
      assert (xs + ys)[1..] == xs[1..] + ys;
      BodyLengthExtends(xs[1..], ys);
    }
  }

  lemma BlocksCons(line: string, rest: seq<string>)
    ensures Blocks([line] + rest) ==
      if BeginLabel(line).None? then Blocks(rest)
      else BlockOf(BeginLabel(line).value, rest[..BodyLength(rest)]) + Blocks(AfterBody(rest))
  {
    assert ([line] + rest)[1..] == rest;
  }

  lemma BodyAppend(xs: seq<string>, ys: seq<string>)
    requires BodyLength(xs) < |xs|
    ensures (xs + ys)[..BodyLength(xs + ys)] == xs[..BodyLength(xs)]
    ensures AfterBody(xs + ys) == AfterBody(xs) + ys
  {
    BodyLengthExtends(xs, ys);
  }

  lemma {:induction false} BlocksAppend(xs: seq<string>, ys: seq<string>)
    requires Closed(xs)
    ensures Blocks(xs + ys) == Blocks(xs) + Blocks(ys)
    decreases |xs|
  {
    if xs == [] {
      assert xs + ys == ys;
    } else {
      var line, tail := xs[0], xs[1..];
      assert xs == [line] + tail;
      Associates([line], tail, ys);
      BlocksCons(line, tail);
      BlocksCons(line, tail + ys);
      if BeginLabel(line).None? {
        BlocksAppend(tail, ys);
      } else {
        BodyAppend(tail, ys);
        BlocksAppend(AfterBody(tail), ys);
        Associates(BlockOf(BeginLabel(line).value, tail[..BodyLength(tail)]), Blocks(AfterBody(tail)), Blocks(ys));
      }
    }
  }

  ghost predicate Terminated(s: string) { s == "" || s[|s| - 1] == '\n' }

  lemma {:induction false} LinesAppend(s: string, t: string)
    requires Terminated(s)
    ensures Lines(s + t) == Lines(s) + Lines(t)
  {
    if s == "" {
      assert s + t == t;
    } else {
      var n := LineEnd(s);
      assert n < |s|;
      LineEndAppend(s, t);
      assert (s + t)[..n] == s[..n] && (s + t)[n + 1..] == s[n + 1..] + t;
      LinesAppend(s[n + 1..], t);
    }
  }

  lemma {:induction false} LineEndAppend(s: string, t: string)
    requires LineEnd(s) < |s|
    ensures LineEnd(s + t) == LineEnd(s)
  {
    if s[0] != '\n' {
      assert (s + t)[1..] == s[1..] + t;
      LineEndAppend(s[1..], t);
    }
  }

  /** On newline-terminated texts that leave no block open, blocks of a concatenation are the concatenated blocks. */
  lemma ScanIsHomomorphic(s: string, t: string)
    requires Terminated(s) && Closed(Lines(s))
    ensures Blocks(Lines(s + t)) == Blocks(Lines(s)) + Blocks(Lines(t))
  {
    LinesAppend(s, t);
    BlocksAppend(Lines(s), Lines(t));
  }

  // ----- white space at the edges of lines -----

  ghost predicate SameTrimmed(xs: seq<string>, ys: seq<string>) {
    |xs| == |ys| && forall i :: 0 <= i < |xs| ==> Trim(xs[i]) == Trim(ys[i])
  }

  lemma {:induction false} SameBody(xs: seq<string>, ys: seq<string>)
    requires SameTrimmed(xs, ys)
    ensures BodyLength(xs) == BodyLength(ys)
  {
    if xs != [] && !IsEnd(xs[0]) {
      SameBody(xs[1..], ys[1..]);
    }
  }

  lemma {:induction false} SameJoined(xs: seq<string>, ys: seq<string>)
    requires SameTrimmed(xs, ys)
    ensures Joined(xs) == Joined(ys)
  {
    if xs != [] {
      SameJoined(xs[..|xs| - 1], ys[..|ys| - 1]);
    }
  }

  /** The scanner looks at trimmed lines only. */
  lemma {:induction false} SameBlocks(xs: seq<string>, ys: seq<string>)
    requires SameTrimmed(xs, ys)
    ensures Blocks(xs) == Blocks(ys)
    decreases |xs|
  {
    if xs != [] {
      var x, y := xs[1..], ys[1..];
      SameBody(x, y);
      if BeginLabel(xs[0]).None? {
        SameBlocks(x, y);
      } else {
        var n := BodyLength(x);
        SameJoined(x[..n], y[..n]);
        SameBlocks(AfterBody(x), AfterBody(y));
      }
    }
  }

  lemma {:induction false} TrimIndent(indent: string, line: string)
    requires forall i :: 0 <= i < |indent| ==> Whitespace(indent[i])
    ensures Trim(indent + line) == Trim(line)
  {
    if indent == "" {
      assert indent + line == line;
    } else {
      assert (indent + line)[1..] == indent[1..] + line;
      TrimIndent(indent[1..], line);
    }
  }

  lemma {:induction false} TrimCr(line: string)
    ensures Trim(line + "\r") == Trim(line)
  {
    if line == "" {
      assert line + "\r" == "\r" && TrimStart("\r") == TrimStart("\r"[1..]);
    } else if Whitespace(line[0]) {
      assert (line + "\r")[1..] == line[1..] + "\r";
      TrimCr(line[1..]);
    } else {
      assert (line + "\r")[..|line|] == line;
    }
  }

  lemma TrimStripCr(line: string)
    ensures Trim(StripCr(line)) == Trim(line)
  {
    if line != "" && line[|line| - 1] == '\r' {
      assert line == line[..|line| - 1] + "\r";
      TrimCr(line[..|line| - 1]);
    }
  }

  /** Lines without a line feed, each ended by one. */
  function Unlines(lines: seq<string>): string {
    if lines == [] then "" else lines[0] + "\n" + Unlines(lines[1..])
  }

  ghost predicate OneLine(s: string) { forall i :: 0 <= i < |s| ==> s[i] != '\n' }

  lemma {:induction false} LineEndOf(line: string, rest: string)
    requires OneLine(line)
    ensures LineEnd(line + "\n" + rest) == |line|
  {
    if line != "" {
      assert (line + "\n" + rest)[1..] == line[1..] + "\n" + rest;
      LineEndOf(line[1..], rest);
    }
  }

  lemma LinesCons(line: string, rest: string)
    requires OneLine(line)
    ensures Lines(line + "\n" + rest) == [StripCr(line)] + Lines(rest)
  {
    var s := line + "\n" + rest;
    LineEndOf(line, rest);
    assert s[..|line|] == line && s[|line| + 1..] == rest;
  }

  lemma {:induction false} UnlinesTrimmed(lines: seq<string>)
    requires forall i :: 0 <= i < |lines| ==> OneLine(lines[i])
    ensures SameTrimmed(Lines(Unlines(lines)), lines)
  {
    if lines != [] {
      LinesCons(lines[0], Unlines(lines[1..]));
      TrimStripCr(lines[0]);
      UnlinesTrimmed(lines[1..]);
    }
  }

  /** White space put before a line. */
  ghost predicate Indents(indented: string, line: string) {
    && OneLine(line) && OneLine(indented)
    && exists ws: string :: (forall j :: 0 <= j < |ws| ==> Whitespace(ws[j])) && indented == ws + line
  }

  lemma IndentedTrims(indented: string, line: string)
    requires Indents(indented, line)
    ensures Trim(indented) == Trim(line)
  {
    var ws: string :| (forall j :: 0 <= j < |ws| ==> Whitespace(ws[j])) && indented == ws + line;
    TrimIndent(ws, line);
  }

  /** A last line without its line feed is a line of its own, unless it is empty. */
  lemma LastLine(last: string)
    requires OneLine(last)
    ensures Lines(last) == if last == "" then [] else [last]
  {
    if last != "" { NoLineEnd(last); }
  }

  lemma {:induction false} NoLineEnd(s: string)
    requires OneLine(s)
    ensures LineEnd(s) == |s|
  {
    if s != "" { NoLineEnd(s[1..]); }
  }

  lemma SameTogether(xs: seq<string>, ys: seq<string>, us: seq<string>, vs: seq<string>)
    requires SameTrimmed(xs, ys) && SameTrimmed(us, vs)
    ensures SameTrimmed(xs + us, ys + vs)
  {
  }

  /**
   Re-indenting the lines of a text, each in its own way, never changes the
   blocks, whether or not the last line has its line feed.
   */
  lemma IndentationIsIgnored(lines: seq<string>, indented: seq<string>, last: string, indentedLast: string)
    requires |indented| == |lines| && forall i :: 0 <= i < |lines| ==> Indents(indented[i], lines[i])
    requires Indents(indentedLast, last) && (last == "" ==> indentedLast == "")
    ensures Blocks(Lines(Unlines(indented) + indentedLast)) == Blocks(Lines(Unlines(lines) + last))
  {
    UnlinesAppend(lines, last);
    UnlinesAppend(indented, indentedLast);
    LastLine(last);
    LastLine(indentedLast);
    forall i | 0 <= i < |lines| ensures Trim(indented[i]) == Trim(lines[i]) {
      IndentedTrims(indented[i], lines[i]);
    }
    IndentedTrims(indentedLast, last);
    SameTogether(Lines(Unlines(indented)), Lines(Unlines(lines)), Lines(indentedLast), Lines(last));
    SameBlocks(Lines(Unlines(indented) + indentedLast), Lines(Unlines(lines) + last));
  }

  /** Every LF preceded by a CR. */
  function ToCrlf(s: string): string {
    if s == "" then "" else (if s[0] == '\n' then "\r\n" else [s[0]]) + ToCrlf(s[1..])
  }

  lemma {:induction false} CrlfLine(line: string, rest: string)
    requires OneLine(line)
    ensures ToCrlf(line + rest) == line + ToCrlf(rest)
  {
    if line == "" {
      assert line + rest == rest;
    } else {
      assert (line + rest)[1..] == line[1..] + rest;
      CrlfLine(line[1..], rest);
    }
  }

  /** The first line of a text, its ending switched, reads as the line it was. */
  lemma CrlfFirst(line: string, rest: string)
    requires OneLine(line)
    ensures Lines(ToCrlf(line + ("\n" + rest))) == [line] + Lines(ToCrlf(rest))
  {
    CrlfLine(line, "\n" + rest);
    assert ("\n" + rest)[1..] == rest;
    assert ToCrlf(line + ("\n" + rest)) == (line + "\r") + "\n" + ToCrlf(rest);
    LinesCons(line + "\r", ToCrlf(rest));
    assert StripCr(line + "\r") == line;
  }

  lemma {:induction false} CrlfLines(s: string)
    ensures SameTrimmed(Lines(ToCrlf(s)), Lines(s))
  {
    if s != "" {
      var n := LineEnd(s);
      if n == |s| {
        CrlfLine(s, "");
        assert s + "" == s;
      } else {
        var line, rest := s[..n], s[n + 1..];
        assert s == line + ("\n" + rest);
        CrlfFirst(line, rest);
        TrimStripCr(line);
        CrlfLines(rest);
      }
    }
  }

  /** Switching LF to CRLF never changes the blocks. */
  lemma LineEndingsAreIgnored(s: string)
    ensures Blocks(Lines(ToCrlf(s))) == Blocks(Lines(s))
  {
    CrlfLines(s);
    SameBlocks(Lines(ToCrlf(s)), Lines(s));
  }

  // ----- the printer -----

  /** Lines of 64 symbols, the last possibly shorter (section 2 of RFC 7468). */
  function Wrapped(s: string): seq<string> {
    if s == "" then [] else if |s| <= 64 then [s] else [s[..64]] + Wrapped(s[64..])
  }

  function PemLines(kind: string, der: bytes): seq<string> {
    [BEGIN + kind + DASHES] + Wrapped(Base64.Encode(der)) + [END + kind + DASHES]
  }

  /** One PEM document. */
  function Document(kind: string, der: bytes): string { Unlines(PemLines(kind, der)) }

  /** Every line but the last has 64 symbols, and that one at most as many. */
  ghost predicate Columns(lines: seq<string>) {
    && (forall i :: 0 <= i < |lines| - 1 ==> |lines[i]| == 64)
    && (lines != [] ==> 1 <= |lines[|lines| - 1]| <= 64)
  }

  lemma {:induction false} WrappedColumns(s: string)
    ensures Columns(Wrapped(s))
  {
    if |s| > 64 {
      WrappedColumns(s[64..]);
      var w := Wrapped(s[64..]);
      assert w != [];
      forall i | 0 <= i < |w| ensures ([s[..64]] + w)[i + 1] == w[i] {}
    }
  }

  predicate Graphic(s: string) { forall i :: 0 <= i < |s| ==> Base64.InAlphabet(s[i]) }

  lemma TrimGraphic(s: string)
    requires s != "" ==> !Whitespace(s[0]) && !Whitespace(s[|s| - 1])
    ensures Trim(s) == s
  {
  }

  lemma GraphicLine(s: string)
    requires Graphic(s) && s != ""
    ensures Trim(s) == s && OneLine(s) && !IsEnd(s)
  {
    assert Base64.InAlphabet(s[0]) && Base64.InAlphabet(s[|s| - 1]);
    TrimGraphic(s);
  }

  lemma {:induction false} JoinedCons(line: string, lines: seq<string>)
    ensures Joined([line] + lines) == Trim(line) + Joined(lines)
  {
    var all := [line] + lines;
    if lines == [] {
      assert all[..0] == [];
    } else {
      assert all[..|all| - 1] == [line] + lines[..|lines| - 1];
      JoinedCons(line, lines[..|lines| - 1]);
    }
  }

  /** No wrapped line closes the block. */
  lemma {:induction false} WrappedLines(s: string)
    requires Graphic(s)
    ensures forall i :: 0 <= i < |Wrapped(s)| ==> OneLine(Wrapped(s)[i]) && !IsEnd(Wrapped(s)[i])
  {
    if |s| > 64 {
      GraphicLine(s[..64]);
      WrappedLines(s[64..]);
    } else if s != "" {
      GraphicLine(s);
    }
  }

  /** Wrapping is undone by joining. */
  lemma {:induction false} WrappedJoins(s: string)
    requires Graphic(s)
    ensures Joined(Wrapped(s)) == s
  {
    if |s| > 64 {
      GraphicLine(s[..64]);
      WrappedJoins(s[64..]);
      JoinedCons(s[..64], Wrapped(s[64..]));
      assert s == s[..64] + s[64..];
    } else if s != "" {
      GraphicLine(s);
      JoinedCons(s, []);
      assert [s] + [] == [s] && s + "" == s;
    }
  }

  /**
   The text of a document (section 2 of RFC 7468): its two boundaries and base64 in 64 columns, each line ended by LF.
   */
  lemma DocumentShape(kind: string, der: bytes) returns (body: seq<string>)
    ensures Document(kind, der) == Unlines(["-----BEGIN " + kind + "-----"] + body + ["-----END " + kind + "-----"])
    ensures Columns(body) && Joined(body) == Base64.Encode(der)
  {
    body := Wrapped(Base64.Encode(der));
    WrappedColumns(Base64.Encode(der));
    Base64.EncodeAlphabet(der);
    WrappedJoins(Base64.Encode(der));
  }

  /** A label as it may stand in a boundary line: no line feed. */
  ghost predicate ValidLabel(kind: string) { OneLine(kind) }

  lemma Boundary(kind: string)
    requires ValidLabel(kind)
    ensures OneLine(BEGIN + kind + DASHES) && OneLine(END + kind + DASHES)
    ensures BeginLabel(BEGIN + kind + DASHES) == Some(kind)
    ensures IsEnd(END + kind + DASHES)
  {
    var b, e := BEGIN + kind + DASHES, END + kind + DASHES;
    assert b[0] == '-' && b[|b| - 1] == '-' && e[0] == '-' && e[|e| - 1] == '-';
    TrimGraphic(b);
    TrimGraphic(e);
    assert b[..|BEGIN|] == BEGIN && b[|b| - 5..] == DASHES && b[|BEGIN|..|b| - 5] == kind;
    assert e[..|END|] == END;
  }

  /** Scanning a printed document, with anything after it, gives exactly its block. */
  lemma DocumentScans(kind: string, der: bytes, rest: seq<string>)
    requires ValidLabel(kind)
    ensures Blocks(PemLines(kind, der) + rest) == [Block(kind, der)] + Blocks(rest)
  {
    var body, end := Wrapped(Base64.Encode(der)), END + kind + DASHES;
    BodyDecodes(der, body);
    Boundary(kind);
    assert PemLines(kind, der) + rest == [BEGIN + kind + DASHES] + (body + [end] + rest);
    BlocksCons(BEGIN + kind + DASHES, body + [end] + rest);
    BodyScans(body, end, rest);
  }

  lemma PemLinesAreLines(kind: string, der: bytes)
    requires ValidLabel(kind)
    ensures forall i :: 0 <= i < |PemLines(kind, der)| ==> OneLine(PemLines(kind, der)[i])
  {
    BodyDecodes(der, Wrapped(Base64.Encode(der)));
    Boundary(kind);
  }

  lemma BodyDecodes(der: bytes, body: seq<string>)
    requires body == Wrapped(Base64.Encode(der))
    ensures Base64.Decode(Joined(body)) == Some(der)
    ensures forall i :: 0 <= i < |body| ==> OneLine(body[i]) && !IsEnd(body[i])
  {
    Base64.EncodeAlphabet(der);
    Base64.RoundTrip(der);
    WrappedJoins(Base64.Encode(der));
    WrappedLines(Base64.Encode(der));
  }

  lemma BodyScans(body: seq<string>, end: string, rest: seq<string>)
    requires IsEnd(end) && forall i :: 0 <= i < |body| ==> !IsEnd(body[i])
    ensures var tail := body + [end] + rest;
      tail[..BodyLength(tail)] == body && AfterBody(tail) == rest
  {
    BodyLengthIs(body + [end] + rest, |body|);
  }

  /** Scanning the printed text itself. */
  lemma DocumentRoundTrip(kind: string, der: bytes, rest: string)
    requires ValidLabel(kind)
    ensures Blocks(Lines(Document(kind, der) + rest)) == [Block(kind, der)] + Blocks(Lines(rest))
  {
    var lines := PemLines(kind, der);
    DocumentScans(kind, der, Lines(rest));
    PemLinesAreLines(kind, der);
    UnlinesAppend(lines, rest);
    TrimmedAppend(Lines(Unlines(lines)), lines, Lines(rest));
    SameBlocks(Lines(Unlines(lines)) + Lines(rest), lines + Lines(rest));
  }

  lemma TrimmedAppend(xs: seq<string>, ys: seq<string>, rest: seq<string>)
    requires SameTrimmed(xs, ys)
    ensures SameTrimmed(xs + rest, ys + rest)
  {
  }

  lemma UnlinesAppend(lines: seq<string>, rest: string)
    requires forall i :: 0 <= i < |lines| ==> OneLine(lines[i])
    ensures SameTrimmed(Lines(Unlines(lines)), lines)
    ensures Lines(Unlines(lines) + rest) == Lines(Unlines(lines)) + Lines(rest)
  {
    UnlinesTrimmed(lines);
    UnlinesTerminated(lines);
    LinesAppend(Unlines(lines), rest);
  }

  lemma {:induction false} UnlinesTerminated(lines: seq<string>)
    ensures Terminated(Unlines(lines))
  {
    if lines != [] {
      UnlinesTerminated(lines[1..]);
    }
  }

  // ----- size -----

  function Total(lines: seq<string>): nat {
    if lines == [] then 0 else |lines[0]| + Total(lines[1..])
  }

  lemma {:induction false} TotalSplits(lines: seq<string>, n: nat)
    requires n <= |lines|
    ensures Total(lines) == Total(lines[..n]) + Total(lines[n..])
  {
    if n > 0 {
      TotalSplits(lines[1..], n - 1);
      assert lines[..n][1..] == lines[1..][..n - 1];
    }
  }

  lemma {:induction false} LinesTotal(s: string)
    ensures Total(Lines(s)) <= |s|
  {
    if s != "" {
      var n := LineEnd(s);
      if n < |s| {
        LinesTotal(s[n + 1..]);
      } else {
        assert Lines(s)[1..] == [];
      }
    }
  }

  lemma {:induction false} TrimStartShorter(s: string)
    ensures |TrimStart(s)| <= |s|
  {
    if s != "" {
      TrimStartShorter(s[1..]);
    }
  }

  lemma {:induction false} TrimEndShorter(s: string)
    ensures |TrimEnd(s)| <= |s|
  {
    if s != "" {
      TrimEndShorter(s[..|s| - 1]);
    }
  }

  lemma TrimShorter(s: string)
    ensures |Trim(s)| <= |s|
  {
    TrimStartShorter(s);
    TrimEndShorter(TrimStart(s));
  }

  lemma {:induction false} JoinedShorter(lines: seq<string>)
    ensures |Joined(lines)| <= Total(lines)
  {
    if lines != [] {
      var n := |lines| - 1;
      JoinedShorter(lines[..n]);
      TrimShorter(lines[n]);
      TotalSplits(lines, n);
      assert lines[n..] == [lines[n]] && lines[n..][1..] == [];
    }
  }

  /** A block is strictly shorter than the text it is cut from. */
  lemma {:induction false} BlocksAreShorter(lines: seq<string>)
    ensures forall b :: b in Blocks(lines) ==> |b.der| < Total(lines)
    decreases |lines|
  {
    if lines != [] {
      var tail := lines[1..];
      if BeginLabel(lines[0]).None? {
        BlocksAreShorter(tail);
      } else {
        var n := BodyLength(tail);
        var body := tail[..n];
        BlocksAreShorter(AfterBody(tail));
        TrimShorter(lines[0]);
        TotalSplits(tail, n);
        if n < |tail| {
          assert tail[n..][1..] == AfterBody(tail);
        }
        JoinedShorter(body);
        if Base64.Decode(Joined(body)).Some? {
          Base64.DecodedIsShorter(Joined(body));
        }
      }
    }
  }
}
