// The request half of roll-dice/preload_tracer.cpp's parsing: request line,
// header block and the carrier that looks headers up.
module RequestParsing {
  import opened HttpText

  type HeaderMap = map<string, string>

  // ---- Header lines ------------------------------------------------------------

  /** The text between CRLFs. */
  function SplitLines(s: string): (lines: seq<string>)
    ensures lines != []
    decreases |s|
  {
    match Find(s, CRLF, 0)
    case None => [s]
    case Some(i) => [s[..i]] + SplitLines(s[i + 2..])
  }

  function UntilEmpty(lines: seq<string>): seq<string> {
    if lines == [] || lines[0] == "" then [] else [lines[0]] + UntilEmpty(lines[1..])
  }

  /** The lines after the first CRLF and before the first empty line. */
  function HeaderLines(data: string): seq<string> {
    UntilEmpty(SplitLines(data)[1..])
  }

  function TrimLeft(s: string): string {
    if s != "" && s[0] == ' ' then TrimLeft(s[1..]) else s
  }

  /** What is left is the end of the text, what is gone is spaces, and no space is first. */
  lemma {:induction false} TrimmedText(s: string)
    ensures
      var r := TrimLeft(s);
      && |r| <= |s| && s[|s| - |r|..] == r
      && (forall i :: 0 <= i < |s| - |r| ==> s[i] == ' ')
      && (r == "" || r[0] != ' ')
  {
    if s != "" && s[0] == ' ' {
      TrimmedText(s[1..]);
      var r := TrimLeft(s);
      assert s[|s| - |r|..] == s[1..][|s| - 1 - |r|..];
      assert forall i :: 1 <= i < |s| - |r| ==> s[i] == s[1..][i - 1];
    }
  }

  function Spaces(n: nat): (r: string)
    ensures |r| == n && forall i :: 0 <= i < n ==> r[i] == ' '
  {
    seq(n, i => ' ')
  }

  lemma {:induction false} SpacesTrimmed(n: nat, v: string)
    requires v == "" || v[0] != ' '
    ensures TrimLeft(Spaces(n) + v) == v
  {
    if n == 0 {
      assert Spaces(0) + v == v;
    } else {
      assert (Spaces(n) + v)[1..] == Spaces(n - 1) + v;
      SpacesTrimmed(n - 1, v);
    }
  }

  datatype Field = Field(name: string, value: string)

  /** A line's name as written and its value, if it has a colon. */
  function LineField(line: string): Option<Field> {
    match Find(line, ":", 0)
    case None => None
    case Some(c) => Some(Field(line[..c], TrimLeft(line[c + 1..])))
  }

  function AddLine(m: HeaderMap, line: string): HeaderMap {
    match LineField(line)
    case None => m
    case Some(f) => m[Lower(f.name) := f.value]
  }

  function FoldLines(lines: seq<string>, m: HeaderMap): HeaderMap
    decreases |lines|
  {
    if lines == [] then m else FoldLines(lines[1..], AddLine(m, lines[0]))
  }

  function Headers(data: string): HeaderMap {
    FoldLines(HeaderLines(data), map[])
  }

  /** The loop at line 87, which takes one space at a time off the front of a value. */
  method EraseLeadingSpaces(s: string) returns (value: string)
    ensures value == TrimLeft(s)
    ensures |value| <= |s| && s[|s| - |value|..] == value
    ensures forall i :: 0 <= i < |s| - |value| ==> s[i] == ' '
    ensures value == "" || value[0] != ' '
  {
    TrimmedText(s);
    value := s;
    while value != "" && value[0] == ' '
      invariant TrimLeft(value) == TrimLeft(s)
      decreases |value|
    {
      value := value[1..];
    }
  }

  function ScanFrom(data: string, pos: nat, out: HeaderMap): HeaderMap
    requires pos <= |data|
  {
    FoldLines(UntilEmpty(SplitLines(data[pos..])), out)
  }

  function LineAt(data: string, pos: nat): (line: string)
    requires pos <= |data|
  {
    var lineEnd := Find(data, CRLF, pos);
    if lineEnd.Some? then data[pos..lineEnd.value] else data[pos..]
  }

  function AfterLine(data: string, pos: nat): (next: nat)
    requires pos <= |data|
    ensures pos <= next <= |data|
  {
    var lineEnd := Find(data, CRLF, pos);
    if lineEnd.Some? then lineEnd.value + 2 else |data|
  }

  lemma SplitEmpty()
    ensures UntilEmpty(SplitLines("")) == []
  {
    assert SplitLines("")[0] == "";
  }

  /** One turn of the scan: an empty line stops it, any other is folded in. */
  lemma ScanTurn(data: string, pos: nat, out: HeaderMap)
    requires pos <= |data|
    ensures
      var line := LineAt(data, pos);
      ScanFrom(data, pos, out) == if line == "" then out else ScanFrom(data, AfterLine(data, pos), AddLine(out, line))
  {
    FindInSuffix(data, CRLF, pos);
    var rest := data[pos..];
    var f := Find(rest, CRLF, 0);
    var line := LineAt(data, pos);
    if f.Some? {
      assert rest[..f.value] == line;
      assert rest[f.value + 2..] == data[AfterLine(data, pos)..];
      assert SplitLines(rest) == [line] + SplitLines(data[AfterLine(data, pos)..]);
    } else {
      assert rest == line && data[AfterLine(data, pos)..] == "";
      assert SplitLines(rest)[1..] == [];
      SplitEmpty();
      assert line != "" ==> UntilEmpty(SplitLines(rest)) == [line];
      assert [line][1..] == [];
    }
  }

  /** The loop body's work on one line (lines 83-90). */
  method StoreLine(line: string, m: HeaderMap) returns (out: HeaderMap)
    ensures out == AddLine(m, line)
  {
    out := m;
    var colon := Find(line, ":", 0);
    if colon.Some? {
      var key := line[..colon.value];
      var value := if colon.value + 1 < |line| then line[colon.value + 1..] else "";
      value := EraseLeadingSpaces(value);
      key := LowerInPlace(key);
      out := out[key := value];
    }
  }

  lemma ScanBegins(data: string)
    ensures
      var first := Find(data, CRLF, 0);
      Headers(data) == if first.Some? then ScanFrom(data, first.value + 2, map[]) else map[]
  {
    hide Find;
  }

  /** parse_request_headers: the scan that moves `pos` computes the fold over the lines. */
  method ParseRequestHeaders(data: string) returns (out: HeaderMap)
    ensures out == Headers(data)
  {
    ScanBegins(data);
    hide Headers, ScanFrom, AddLine;
    out := map[];
    var first := Find(data, CRLF, 0);
    if first.None? {
      return;
    }
    var pos := first.value + 2;
    while pos < |data|
      invariant pos <= |data|
      invariant ScanFrom(data, pos, out) == Headers(data)
      decreases |data| - pos
    {
      ScanTurn(data, pos, out);
      var lineEnd := Find(data, CRLF, pos);
      var line := if lineEnd.Some? then data[pos..lineEnd.value] else data[pos..];
      if line == "" {
        return;
      }
      out := StoreLine(line, out);
      pos := if lineEnd.Some? then lineEnd.value + 2 else |data|;
    }
    ScanTurn(data, pos, out);
  }

  // ---- Printing and reading back ------------------------------------------------

  /** A line of a header block: a field, with spaces after the colon, or a text without one. */
  datatype Line = Header(field: Field, pad: nat) | Other(text: string)

  function PrintLine(l: Line): string {
    match l
    case Header(f, pad) => f.name + ":" + (Spaces(pad) + f.value)
    case Other(text) => text
  }

  function PrintLines(ls: seq<Line>): string {
    if ls == [] then "" else PrintLine(ls[0]) + "\r\n" + PrintLines(ls[1..])
  }

  function PrintRequest(requestLine: string, ls: seq<Line>, body: string): string {
    requestLine + "\r\n" + (PrintLines(ls) + ("\r\n" + body))
  }

  predicate Printable(l: Line) {
    match l
    case Header(f, _) =>
      && ':' !in f.name && !Contains(f.name, "\r\n")
      && !Contains(f.value, "\r\n") && (f.value != "" ==> f.value[0] != ' ')
    case Other(text) => text != "" && ':' !in text && !Contains(text, "\r\n")
  }

  /** The map a header block denotes: a later field replaces an earlier one of the same name. */
  function Collect(ls: seq<Line>): HeaderMap {
    if ls == [] then map[]
    else
      var before, last := Collect(ls[..|ls| - 1]), ls[|ls| - 1];
      if last.Header? then before[Lower(last.field.name) := last.field.value] else before
  }

  lemma SplitOnly(line: string)
    requires !Contains(line, CRLF)
    ensures SplitLines(line) == [line]
  {}

  lemma SplitFirst(line: string, rest: string)
    requires !Contains(line, CRLF)
    ensures SplitLines(line + CRLF + rest) == [line] + SplitLines(rest)
  {
    FindCrlf(line, rest);
    var s := line + CRLF + rest;
    assert s[..|line|] == line;
    assert s[|line| + 2..] == rest;
  }

  lemma PrintedLineHasNoCrlf(l: Line)
    requires Printable(l)
    ensures !Contains(PrintLine(l), CRLF) && PrintLine(l) != ""
  {
    var s := PrintLine(l);
    if l.Header? && Contains(s, CRLF) {
      var f := l.field;
      var i := Find(s, CRLF, 0).value;
      CrlfMatch(s, i);
      var n := |f.name|;
      if i < n {
        CrlfMatch(f.name, i);
      } else {
        assert s[n] == ':' && forall j :: n < j <= n + l.pad ==> s[j] == ' ';
        CrlfMatch(f.value, i - (n + 1 + l.pad));
      }
    }
  }

  /** A line is read as the field (n, v) exactly when it is n, a colon, spaces and v. */
  lemma LineFieldIsExact(line: string, n: string, v: string)
    ensures LineField(line) == Some(Field(n, v)) <==>
      && ':' !in n && (v == "" || v[0] != ' ')
      && exists pad: nat :: line == n + ":" + (Spaces(pad) + v)
  {
    if ':' !in n && (v == "" || v[0] != ' ') && exists pad: nat :: line == n + ":" + (Spaces(pad) + v) {
      var pad: nat :| line == n + ":" + (Spaces(pad) + v);
      PaddedFieldIsRead(n, v, pad);
    }
    if LineField(line) == Some(Field(n, v)) {
      var pad := ReadFieldIsPadded(line);
    }
    hide LineField;
  }

  lemma ReadFieldIsPadded(line: string) returns (pad: nat)
    requires LineField(line).Some?
    ensures
      var f := LineField(line).value;
      ':' !in f.name && (f.value == "" || f.value[0] != ' ') && line == f.name + ":" + (Spaces(pad) + f.value)
  {
    var c := Find(line, ":", 0).value;
    var tail := line[c + 1..];
    CharMatch(line, ':', c);
    TrimmedText(tail);
    forall j | 0 <= j < c ensures line[j] != ':' {
      CharMatch(line, ':', j);
    }
    var v := TrimLeft(tail);
    pad := |tail| - |v|;
    assert tail[..pad] == Spaces(pad);
    assert tail == tail[..pad] + tail[pad..];
    assert line == line[..c] + ":" + tail;
    hide TrimLeft, Find;
  }

  lemma PaddedFieldIsRead(n: string, v: string, pad: nat)
    requires ':' !in n && (v == "" || v[0] != ' ')
    ensures LineField(n + ":" + (Spaces(pad) + v)) == Some(Field(n, v))
  {
    var s := n + ":" + (Spaces(pad) + v);
    FindChar(n, ':', Spaces(pad) + v);
    assert s[..|n|] == n;
    assert s[|n| + 1..] == Spaces(pad) + v;
    SpacesTrimmed(pad, v);
  }

  /** A line is not a field exactly when it has no colon. */
  lemma NoFieldIsExact(line: string)
    ensures LineField(line) == None <==> ':' !in line
  {
    ContainsChar(line, ':');
  }

  lemma PrintedLineReadsBack(l: Line)
    requires Printable(l)
    ensures LineField(PrintLine(l)) == if l.Header? then Some(l.field) else None
  {
    if l.Header? {
      PaddedFieldIsRead(l.field.name, l.field.value, l.pad);
    } else {
      NoFieldIsExact(l.text);
    }
  }

  function PrintedLines(ls: seq<Line>): (r: seq<string>)
    ensures |r| == |ls|
    ensures forall i :: 0 <= i < |ls| ==> r[i] == PrintLine(ls[i])
  {
    seq(|ls|, i requires 0 <= i < |ls| => PrintLine(ls[i]))
  }

  lemma AppendAssociates<T>(a: seq<T>, b: seq<T>, c: seq<T>)
    ensures a + (b + c) == (a + b) + c
  {}

  lemma FirstPrinted(ls: seq<Line>, rest: string)
    requires ls != []
    ensures PrintLines(ls) + rest == PrintLine(ls[0]) + CRLF + (PrintLines(ls[1..]) + rest)
  {
    AppendAssociates(PrintLine(ls[0]) + "\r\n", PrintLines(ls[1..]), rest);
    hide PrintLine;
  }

  lemma FirstPrintedLine(ls: seq<Line>)
    requires ls != []
    ensures PrintedLines(ls) == [PrintLine(ls[0])] + PrintedLines(ls[1..])
  {
    hide PrintLine;
  }

  lemma UntilEmptyGoesOn(line: string, lines: seq<string>)
    requires line != ""
    ensures UntilEmpty([line] + lines) == [line] + UntilEmpty(lines)
  {
    assert ([line] + lines)[1..] == lines;
  }

  /** The printed lines are read back, and then whatever follows them is read. */
  lemma {:induction false} PrintedLinesReadBack(ls: seq<Line>, rest: string)
    requires forall l :: l in ls ==> Printable(l)
    ensures UntilEmpty(SplitLines(PrintLines(ls) + rest)) == PrintedLines(ls) + UntilEmpty(SplitLines(rest))
  {
    if ls == [] {
      assert PrintLines(ls) + rest == rest;
      assert PrintedLines(ls) + UntilEmpty(SplitLines(rest)) == UntilEmpty(SplitLines(rest));
    } else {
      FirstPrinted(ls, rest);
      FirstPrintedLine(ls);
      PrintedLineHasNoCrlf(ls[0]);
      hide PrintLine, PrintLines, PrintedLines, SplitLines, UntilEmpty, Printable;
      var tail := PrintLines(ls[1..]) + rest;
      SplitFirst(PrintLine(ls[0]), tail);
      UntilEmptyGoesOn(PrintLine(ls[0]), SplitLines(tail));
      PrintedLinesReadBack(ls[1..], rest);
      AppendAssociates([PrintLine(ls[0])], PrintedLines(ls[1..]), UntilEmpty(SplitLines(rest)));
    }
  }

  lemma {:induction false} FoldSnoc(lines: seq<string>, last: string, m: HeaderMap)
    ensures FoldLines(lines + [last], m) == AddLine(FoldLines(lines, m), last)
    decreases |lines|
  {
    if lines == [] {
      assert ([] + [last])[1..] == [];
    } else {
      assert (lines + [last])[0] == lines[0];
      assert (lines + [last])[1..] == lines[1..] + [last];
      FoldSnoc(lines[1..], last, AddLine(m, lines[0]));
    }
  }

  lemma {:induction false} FoldPrinted(ls: seq<Line>)
    requires forall l :: l in ls ==> Printable(l)
    ensures FoldLines(PrintedLines(ls), map[]) == Collect(ls)
  {
    if ls != [] {
      var n := |ls| - 1;
      FoldPrinted(ls[..n]);
      PrintedLineReadsBack(ls[n]);
      assert PrintedLines(ls) == PrintedLines(ls[..n]) + [PrintLine(ls[n])];
      FoldSnoc(PrintedLines(ls[..n]), PrintLine(ls[n]), map[]);
    }
  }

  /** The headers of a request line and what comes after it. */
  lemma HeadersAfter(requestLine: string, rest: string)
    requires !Contains(requestLine, CRLF)
    ensures Headers(requestLine + CRLF + rest) == FoldLines(UntilEmpty(SplitLines(rest)), map[])
  {
    SplitFirst(requestLine, rest);
    assert ([requestLine] + SplitLines(rest))[1..] == SplitLines(rest);
  }

  /** Printing any request and parsing it gives back its header fields, however many spaces
      follow a colon, whatever lines without a colon stand between them, whatever the body. */
  lemma HeadersRoundTrip(requestLine: string, ls: seq<Line>, body: string)
    requires !Contains(requestLine, "\r\n")
    requires forall l :: l in ls ==> Printable(l)
    ensures Headers(PrintRequest(requestLine, ls, body)) == Collect(ls)
  {
    var rest := "\r\n" + body;
    HeadersAfter(requestLine, PrintLines(ls) + rest);
    PrintedLinesReadBack(ls, rest);
    assert rest == "" + CRLF + body;
    SplitFirst("", body);
    assert PrintedLines(ls) + [] == PrintedLines(ls);
    FoldPrinted(ls);
  }

  lemma CutAfterLine(requestLine: string, ls: seq<Line>)
    requires !Contains(requestLine, CRLF) && forall l :: l in ls ==> Printable(l)
    ensures Headers(requestLine + CRLF + PrintLines(ls)) == Collect(ls)
  {
    HeadersAfter(requestLine, PrintLines(ls));
    assert PrintLines(ls) + "" == PrintLines(ls);
    PrintedLinesReadBack(ls, "");
    SplitEmpty();
    assert PrintedLines(ls) + [] == PrintedLines(ls);
    FoldPrinted(ls);
    hide Headers, PrintLines, PrintedLines, SplitLines, UntilEmpty, Printable;
  }

  lemma CutInsideLine(requestLine: string, ls: seq<Line>, last: Line)
    requires !Contains(requestLine, CRLF) && Printable(last) && forall l :: l in ls ==> Printable(l)
    ensures Headers(requestLine + CRLF + (PrintLines(ls) + PrintLine(last))) == Collect(ls + [last])
  {
    HeadersAfter(requestLine, PrintLines(ls) + PrintLine(last));
    PrintedLinesReadBack(ls, PrintLine(last));
    PrintedLineHasNoCrlf(last);
    SplitOnly(PrintLine(last));
    UntilEmptyGoesOn(PrintLine(last), []);
    assert [PrintLine(last)] + [] == [PrintLine(last)];
    assert UntilEmpty([]) == [];
    assert PrintedLines(ls + [last]) == PrintedLines(ls) + [PrintLine(last)];
    FoldPrinted(ls + [last]);
    hide Headers, PrintLine, PrintLines, PrintedLines, SplitLines, UntilEmpty, Printable;
  }

  /** A request cut off before the blank line: after a line, inside one, or before any. */
  lemma HeadersCutShort(requestLine: string, ls: seq<Line>, last: Line)
    requires !Contains(requestLine, "\r\n")
    requires Printable(last) && forall l :: l in ls ==> Printable(l)
    ensures Headers(requestLine + "\r\n" + PrintLines(ls)) == Collect(ls)
    ensures Headers(requestLine + "\r\n" + (PrintLines(ls) + PrintLine(last))) == Collect(ls + [last])
    ensures Headers(requestLine) == map[]
  {
    CutAfterLine(requestLine, ls);
    CutInsideLine(requestLine, ls, last);
    SplitOnly(requestLine);
    hide SplitLines, Printable, PrintLine, PrintLines;
  }

  predicate Named(l: Line, key: string) {
    l.Header? && Lower(l.field.name) == key
  }

  /** What Collect means: a key is there exactly if some field has that name in lower case. */
  lemma {:induction false} NamedIsCollected(ls: seq<Line>, key: string)
    ensures key in Collect(ls) <==> exists i :: 0 <= i < |ls| && Named(ls[i], key)
  {
    if ls != [] {
      var n := |ls| - 1;
      NamedIsCollected(ls[..n], key);
      assert forall i :: 0 <= i < n ==> ls[..n][i] == ls[i];
      if exists i :: 0 <= i < n && Named(ls[..n][i], key) {
        var i :| 0 <= i < n && Named(ls[..n][i], key);
        assert Named(ls[i], key);
      }
    }
  }

  /** And its value is that of the last such field. */
  lemma {:induction false} LastFieldWins(ls: seq<Line>, key: string, i: nat)
    requires i < |ls| && Named(ls[i], key) && forall j :: i < j < |ls| ==> !Named(ls[j], key)
    ensures key in Collect(ls) && Collect(ls)[key] == ls[i].field.value
  {
    var n := |ls| - 1;
    if i < n {
      assert forall j :: 0 <= j < n ==> ls[..n][j] == ls[j];
      LastFieldWins(ls[..n], key, i);
      assert !Named(ls[n], key);
    }
  }

  // ---- Nothing after the blank line matters --------------------------------------

  const BLANK: string := "\r\n\r\n"

  predicate BlankAt(s: string, i: nat) {
    CrlfAt(s, i) && CrlfAt(s, i + 2)
  }

  lemma BlankMatch(s: string, i: nat)
    ensures MatchesAt(s, BLANK, i) <==> BlankAt(s, i)
  {
    if i + 4 <= |s| {
      assert s[i..i + 4] == [s[i], s[i + 1], s[i + 2], s[i + 3]];
    }
  }

  /** Two texts that agree up to a CRLF have the same first line. */
  lemma SameFirstCrlf(s: string, t: string, i: nat)
    requires CrlfAt(s, i) && i + 2 <= |t| && s[..i + 2] == t[..i + 2]
    ensures
      var f := Find(s, CRLF, 0);
      f.Some? && f.value <= i && CrlfAt(s, f.value) && Find(t, CRLF, 0) == f && s[..f.value] == t[..f.value]
  {
    CrlfMatch(s, i);
    var f := Find(s, CRLF, 0).value;
    CrlfMatch(s, f);
    assert forall k :: 0 <= k < i + 2 ==> s[k] == s[..i + 2][k] && t[k] == t[..i + 2][k];
    CrlfMatch(t, f);
    forall j | 0 <= j < f ensures !MatchesAt(t, CRLF, j) {
      CrlfMatch(s, j);
      CrlfMatch(t, j);
    }
    FindIs(t, CRLF, 0, f);
  }

  lemma SplitAt(s: string, f: nat)
    requires Find(s, CRLF, 0) == Some(f)
    ensures f + 2 <= |s| && SplitLines(s) == [s[..f]] + SplitLines(s[f + 2..])
  {
    CrlfMatch(s, f);
  }

  lemma LinesAt(s: string, f: nat)
    requires Find(s, CRLF, 0) == Some(f)
    ensures f + 2 <= |s|
    ensures UntilEmpty(SplitLines(s)) == if f == 0 then [] else [s[..f]] + UntilEmpty(SplitLines(s[f + 2..]))
    ensures HeaderLines(s) == UntilEmpty(SplitLines(s[f + 2..]))
  {
    SplitAt(s, f);
    hide SplitLines, Find;
    var rest := SplitLines(s[f + 2..]);
    assert ([s[..f]] + rest)[1..] == rest;
    if f > 0 {
      UntilEmptyGoesOn(s[..f], rest);
    }
  }

  /** Cutting the same piece off two texts that agree leaves two that agree. */
  lemma TailsAgree(s: string, t: string, n: nat, f: nat)
    requires f <= n <= |s| && n <= |t| && s[..n] == t[..n]
    ensures s[f..][..n - f] == t[f..][..n - f]
  {
    assert s[f..][..n - f] == s[..n][f..] && t[f..][..n - f] == t[..n][f..];
  }

  lemma BlankInTail(s: string, i: nat, f: nat)
    requires f <= i && BlankAt(s, i)
    ensures BlankAt(s[f..], i - f)
  {}

  lemma BlankInBoth(s: string, t: string, i: nat)
    requires BlankAt(s, i) && i + 4 <= |t| && s[..i + 4] == t[..i + 4]
    ensures BlankAt(t, i)
  {
    assert forall k :: i <= k < i + 4 ==> t[k] == t[..i + 4][k] == s[..i + 4][k] == s[k];
  }

  /** Two texts that agree up to a blank line, their first CRLF being before it. */
  ghost predicate AgreeUpToBlank(s: string, t: string, i: nat) {
    BlankAt(s, i) && i + 4 <= |t| && s[..i + 4] == t[..i + 4]
  }

  lemma FirstLineAgrees(s: string, t: string, i: nat) returns (f: nat)
    requires AgreeUpToBlank(s, t, i)
    ensures Find(s, CRLF, 0) == Some(f) && Find(t, CRLF, 0) == Some(f)
    ensures f + 2 <= |s| && f + 2 <= |t| && s[..f] == t[..f]
    ensures
      if f == i then CrlfAt(s[f + 2..], 0) && CrlfAt(t[f + 2..], 0)
      else f + 2 <= i && AgreeUpToBlank(s[f + 2..], t[f + 2..], i - (f + 2))
  {
    BlankInBoth(s, t, i);
    assert s[..i + 2] == t[..i + 2] by {
      assert s[..i + 2] == s[..i + 4][..i + 2] && t[..i + 2] == t[..i + 4][..i + 2];
    }
    SameFirstCrlf(s, t, i);
    f := Find(s, CRLF, 0).value;
    CrlfMatch(s, f);
    hide Find;
    if f != i {
      BlankInTail(s, i, f + 2);
      TailsAgree(s, t, i + 4, f + 2);
    }
  }

  lemma {:induction false} LinesBeforeBlank(s: string, t: string, i: nat)
    requires AgreeUpToBlank(s, t, i)
    ensures UntilEmpty(SplitLines(s)) == UntilEmpty(SplitLines(t))
    decreases |s|, 0
  {
    var f := FirstLineAgrees(s, t, i);
    hide Find, SplitLines, UntilEmpty, AgreeUpToBlank, CrlfAt;
    LinesAt(s, f);
    LinesAt(t, f);
    TailLines(s[f + 2..], t[f + 2..], f == i, if f == i then 0 else i - (f + 2));
  }

  lemma {:induction false} TailLines(s: string, t: string, ended: bool, i: nat)
    requires if ended then CrlfAt(s, 0) && CrlfAt(t, 0) else AgreeUpToBlank(s, t, i)
    ensures UntilEmpty(SplitLines(s)) == UntilEmpty(SplitLines(t))
    decreases |s|, 1
  {
    hide Find, SplitLines, UntilEmpty, AgreeUpToBlank, CrlfAt;
    if ended {
      StartsWithCrlf(s);
      StartsWithCrlf(t);
    } else {
      LinesBeforeBlank(s, t, i);
    }
  }

  lemma StartsWithCrlf(s: string)
    requires CrlfAt(s, 0)
    ensures UntilEmpty(SplitLines(s)) == []
  {
    assert s == "" + CRLF + s[2..];
    SplitFirst("", s[2..]);
  }

  /** Once a CRLFCRLF has been read, the bytes after it never change the map. */
  lemma BodyIsIgnored(data: string, i: nat, tail: string)
    requires MatchesAt(data, BLANK, i)
    ensures Headers(data[..i + 4] + tail) == Headers(data)
  {
    BlankMatch(data, i);
    var other := data[..i + 4] + tail;
    assert other[..i + 4] == data[..i + 4];
    var f := FirstLineAgrees(data, other, i);
    hide Find, SplitLines, UntilEmpty, HeaderLines, FoldLines, AgreeUpToBlank, CrlfAt;
    LinesAt(data, f);
    LinesAt(other, f);
    TailLines(data[f + 2..], other[f + 2..], f == i, if f == i then 0 else i - (f + 2));
  }

  // ---- HeaderCarrier::Get -----------------------------------------------------------

  function Lookup(m: HeaderMap, key: string): string {
    if Lower(key) in m then m[Lower(key)] else ""
  }

  /** HeaderCarrier::Get; None stands for the null map pointer. */
  method Get(headers: Option<HeaderMap>, key: string) returns (value: string)
    ensures value == if headers.Some? then Lookup(headers.value, key) else ""
  {
    if headers.None? {
      return "";
    }
    var k := LowerInPlace(key);
    if k !in headers.value {
      return "";
    }
    return headers.value[k];
  }

  /** The value of the last line whose name is `key` in some letter case, or "". */
  function LastMatch(lines: seq<string>, key: string): string {
    if lines == [] then ""
    else
      var f := LineField(lines[|lines| - 1]);
      if f.Some? && SameName(f.value.name, key) then f.value.value
      else LastMatch(lines[..|lines| - 1], key)
  }

  lemma {:induction false} LookupIsLastMatch(lines: seq<string>, key: string)
    ensures Lookup(FoldLines(lines, map[]), key) == LastMatch(lines, key)
  {
    if lines != [] {
      var n := |lines| - 1;
      assert lines == lines[..n] + [lines[n]];
      FoldSnoc(lines[..n], lines[n], map[]);
      LookupIsLastMatch(lines[..n], key);
      var f := LineField(lines[n]);
      if f.Some? {
        LowerIffSameName(f.value.name, key);
      }
    }
  }

  /** For every request and every spelling of a key, looking it up in the parsed map
      is scanning the header lines for the last one of that name, ignoring case. */
  lemma GetScansLines(data: string, key: string)
    ensures Lookup(Headers(data), key) == LastMatch(HeaderLines(data), key)
  {
    LookupIsLastMatch(HeaderLines(data), key);
  }

  // ---- Request line ------------------------------------------------------------------

  /** std::istringstream >> std::string at `pos`: the next word and where reading stops;
      the word is empty exactly when the extraction fails. */
  function NextWord(s: string, pos: nat): (r: (string, nat))
    requires pos <= |s|
    ensures r.1 <= |s|
  {
    var a := SkipSpace(s, pos);
    var b := WordEnd(s, a);
    (s[a..b], b)
  }

  function CutQuery(target: string): string {
    match Find(target, "?", 0)
    case None => target
    case Some(q) => target[..q]
  }

  datatype RequestLine = RequestLine(meth: string, path: string)

  function ReadRequestLine(line: string): RequestLine {
    var (m, p) := NextWord(line, 0);
    var (target, _) := NextWord(line, p);
    RequestLine(m, CutQuery(target))
  }

  /** parse_request_line */
  method ParseRequestLine(line: string) returns (meth: string, path: string)
    ensures RequestLine(meth, path) == ReadRequestLine(line)
  {
    meth, path := "", "";
    var first := NextWord(line, 0);
    meth := first.0;
    if first.0 == "" {
      WordsRunOut(line);
      return;
    }
    var second := NextWord(line, first.1);
    path := second.0;
    if second.0 == "" {
      return;
    }
    var q := Find(path, "?", 0);
    if q.Some? {
      path := path[..q.value];
    }
  }

  lemma WordsRunOut(line: string)
    requires NextWord(line, 0).0 == ""
    ensures NextWord(line, NextWord(line, 0).1).0 == ""
  {
    assert SkipSpace(line, 0) == |line|;
  }

  function FirstLine(data: string): string {
    match Find(data, CRLF, 0)
    case None => data
    case Some(i) => data[..i]
  }

  /** The test `read` makes before it starts a request span (lines 211-218). */
  function Gate(data: string): Option<RequestLine> {
    var r := ReadRequestLine(FirstLine(data));
    if r.meth != "" && r.path != "" && r.path[0] == '/'
       && (Contains(data, "HTTP/1.") || Contains(data, "HTTP/2")) then Some(r)
    else None
  }

  ghost predicate PathChars(p: string) {
    NoSpace(p) && '?' !in p
  }

  /** `line` is blanks, m, blanks, p, perhaps a query, and then nothing or a blank. */
  ghost predicate SpellsOut(line: string, m: string, p: string,
                            lead: string, gap: string, query: string, rest: string) {
    && line == lead + m + gap + p + query + rest
    && AllSpace(lead) && m != "" && NoSpace(m)
    && gap != "" && AllSpace(gap)
    && PathChars(p)
    && (query == "" || query[0] == '?') && NoSpace(query)
    && (rest == "" || IsSpace(rest[0]))
  }

  lemma CutQueryOf(p: string, query: string)
    requires '?' !in p && (query == "" || query[0] == '?')
    ensures CutQuery(p + query) == p
  {
    ContainsChar(p, '?');
    if query == "" {
      assert p + query == p;
    } else {
      assert p + query == p + ['?'] + query[1..];
      FindChar(p, '?', query[1..]);
    }
  }

  lemma CutQuerySplits(target: string) returns (query: string)
    ensures target == CutQuery(target) + query
    ensures '?' !in CutQuery(target) && (query == "" || query[0] == '?')
  {
    var q := Find(target, "?", 0);
    ContainsChar(target, '?');
    if q.None? {
      query := "";
    } else {
      query := target[q.value..];
      CharMatch(target, '?', q.value);
      forall j | 0 <= j < q.value ensures target[j] != '?' {
        CharMatch(target, '?', j);
      }
    }
  }

  lemma NextWordIs(before: string, gap: string, word: string, after: string)
    requires AllSpace(gap) && NoSpace(word) && word != ""
    requires after == "" || IsSpace(after[0])
    ensures NextWord(before + gap + word + after, |before|) == (word, |before + gap + word|)
  {
    ScanWord(before, gap, word, after);
    var s := before + gap + word + after;
    assert s[|before + gap|..|before + gap + word|] == word;
  }

  lemma Regroup(a: string, b: string, c: string, d: string, e: string, f: string)
    ensures a + b + c + d + e + f == "" + a + b + (c + d + e + f)
    ensures a + b + c + d + e + f == (a + b) + c + (d + e) + f
  {
    assert a + b + c + d + e + f == a + b + (c + d + e + f);
    assert a + b + c + d + e + f == (a + b) + c + (d + e) + f;
  }

  lemma SpelledOutIsRead(line: string, m: string, p: string,
                         lead: string, gap: string, query: string, rest: string)
    requires SpellsOut(line, m, p, lead, gap, query, rest) && p + query != ""
    ensures ReadRequestLine(line) == RequestLine(m, p)
  {
    Regroup(lead, m, gap, p, query, rest);
    NextWordIs("", lead, m, gap + p + query + rest);
    assert "" + lead + m == lead + m;
    NextWordIs(lead + m, gap, p + query, rest);
    CutQueryOf(p, query);
  }

  lemma ReadIsSpelledOut(line: string)
    returns (lead: string, gap: string, query: string, rest: string)
    requires
      var r := ReadRequestLine(line);
      r.meth != "" && r.path != ""
    ensures
      var r := ReadRequestLine(line);
      SpellsOut(line, r.meth, r.path, lead, gap, query, rest)
  {
    var a := SkipSpace(line, 0);
    var b := WordEnd(line, a);
    var c := SkipSpace(line, b);
    var d := WordEnd(line, c);
    var target := line[c..d];
    query := CutQuerySplits(target);
    lead, gap, rest := line[..a], line[b..c], line[d..];
    SplitFive(line, a, b, c, d);
    Reassociate(lead, line[a..b], gap, CutQuery(target), query, rest);
    assert b < c && IsSpace(line[b]);
    SpaceSlice(line, 0, a);
    WordSlice(line, a, b);
    SpaceSlice(line, b, c);
    WordSlice(line, c, d);
    WordParts(CutQuery(target), query);
    assert rest == "" || rest[0] == line[d];
    hide SkipSpace, WordEnd, CutQuery, AllSpace, NoSpace, IsSpace;
  }

  lemma SpaceSlice(s: string, i: nat, j: nat)
    requires i <= j <= |s| && forall k :: i <= k < j ==> IsSpace(s[k])
    ensures AllSpace(s[i..j])
  {}

  lemma WordSlice(s: string, i: nat, j: nat)
    requires i <= j <= |s| && forall k :: i <= k < j ==> !IsSpace(s[k])
    ensures NoSpace(s[i..j])
  {}

  lemma WordParts(p: string, query: string)
    requires NoSpace(p + query)
    ensures NoSpace(p) && NoSpace(query)
  {
    assert forall j :: 0 <= j < |p| ==> p[j] == (p + query)[j];
    assert forall j :: 0 <= j < |query| ==> query[j] == (p + query)[|p| + j];
  }

  lemma SplitFive(s: string, a: nat, b: nat, c: nat, d: nat)
    requires a <= b <= c <= d <= |s|
    ensures s == s[..a] + s[a..b] + s[b..c] + s[c..d] + s[d..]
  {}

  lemma Reassociate(a: string, b: string, c: string, d: string, e: string, f: string)
    ensures a + b + c + (d + e) + f == a + b + c + d + e + f
  {
    assert a + b + c + (d + e) == a + b + c + d + e;
  }

  /** Exactly which buffers start a request span, and with which method and path. */
  lemma GateIsExact(data: string, m: string, p: string)
    ensures Gate(data) == Some(RequestLine(m, p)) <==>
      && (Contains(data, "HTTP/1.") || Contains(data, "HTTP/2"))
      && p != "" && p[0] == '/'
      && exists lead, gap, query, rest :: SpellsOut(FirstLine(data), m, p, lead, gap, query, rest)
  {
    if Gate(data) == Some(RequestLine(m, p)) {
      var lead, gap, query, rest := ReadIsSpelledOut(FirstLine(data));
    }
    if p != "" && exists lead, gap, query, rest :: SpellsOut(FirstLine(data), m, p, lead, gap, query, rest) {
      var lead, gap, query, rest :| SpellsOut(FirstLine(data), m, p, lead, gap, query, rest);
      SpelledOutIsRead(FirstLine(data), m, p, lead, gap, query, rest);
    }
  }

  /** The first line of a buffer ends at its first CRLF, or with the buffer. */
  lemma FirstLineIs(line: string, rest: string)
    requires !Contains(line, "\r\n")
    ensures FirstLine(line + "\r\n" + rest) == line && FirstLine(line) == line
  {
    FindCrlf(line, rest);
  }

  /** A read that delivers no CRLF is all request line. */
  lemma GateWithoutCrlf(data: string, m: string, p: string)
    requires !Contains(data, "\r\n")
    ensures Gate(data) == Some(RequestLine(m, p)) <==>
      && (Contains(data, "HTTP/1.") || Contains(data, "HTTP/2"))
      && p != "" && p[0] == '/'
      && exists lead, gap, query, rest :: SpellsOut(data, m, p, lead, gap, query, rest)
  {
    FirstLineIs(data, "");
    GateIsExact(data, m, p);
  }

  /** A stored path is never empty and holds neither blanks nor a query. */
  lemma StoredPathIsClean(data: string)
    requires Gate(data).Some?
    ensures
      var r := Gate(data).value;
      r.meth != "" && NoSpace(r.meth) && r.path != "" && r.path[0] == '/' && PathChars(r.path)
  {
    var r := Gate(data).value;
    GateIsExact(data, r.meth, r.path);
  }

  /** "m p[?q] HTTP/1.x" CRLF anything passes the gate with exactly method m and path p. */
  lemma WellFormedRequestPasses(m: string, p: string, query: string, version: string, rest: string)
    requires m != "" && NoSpace(m)
    requires p != "" && p[0] == '/' && PathChars(p)
    requires (query == "" || query[0] == '?') && NoSpace(query)
    requires !Contains(version, CRLF)
    ensures
      var data := (m + " " + p + query + " HTTP/1." + version) + CRLF + rest;
      Gate(data) == Some(RequestLine(m, p))
  {
    var front := m + " " + p + query;
    var line := front + " HTTP/1." + version;
    LineHasNoCrlf(front + " HTTP/1.", version);
    SpellsOutSimply(m, p, query, version);
    VersionFound(front, version + CRLF + rest);
    assert line + CRLF + rest == front + " HTTP/1." + (version + CRLF + rest);
    GatePasses(line, rest, m, p, "", " ", query, " HTTP/1." + version);
  }

  lemma GatePasses(line: string, after: string, m: string, p: string,
                   lead: string, gap: string, query: string, rest: string)
    requires !Contains(line, CRLF) && SpellsOut(line, m, p, lead, gap, query, rest)
    requires p != "" && p[0] == '/' && Contains(line + CRLF + after, "HTTP/1.")
    ensures Gate(line + CRLF + after) == Some(RequestLine(m, p))
  {
    FindCrlf(line, after);
    assert FirstLine(line + CRLF + after) == line;
    SpelledOutIsRead(line, m, p, lead, gap, query, rest);
  }

  lemma SpellsOutSimply(m: string, p: string, query: string, version: string)
    requires m != "" && NoSpace(m) && PathChars(p)
    requires (query == "" || query[0] == '?') && NoSpace(query)
    ensures SpellsOut(m + " " + p + query + " HTTP/1." + version, m, p, "", " ", query, " HTTP/1." + version)
  {
    var front := m + " " + p + query;
    assert front + " HTTP/1." + version == front + (" HTTP/1." + version);
    assert front == "" + m + " " + p + query;
  }

  lemma VersionFound(front: string, rest: string)
    ensures Contains(front + " HTTP/1." + rest, "HTTP/1.")
  {
    var data := front + " HTTP/1." + rest;
    var i := |front| + 1;
    assert data[i..i + 7] == "HTTP/1.";
    assert MatchesAt(data, "HTTP/1.", i);
  }

  lemma LineHasNoCrlf(a: string, b: string)
    requires a != "" && !IsSpace(a[|a| - 1]) && !Contains(b, CRLF)
    requires forall i :: 0 <= i < |a| && IsSpace(a[i]) ==> a[i] == ' '
    ensures !Contains(a + b, CRLF)
  {
    var s := a + b;
    if Contains(s, CRLF) {
      var i := Find(s, CRLF, 0).value;
      CrlfMatch(s, i);
      if i >= |a| {
        CrlfMatch(b, i - |a|);
      } else {
        assert IsSpace(a[i]);
      }
    }
  }

  /** The comment at line 216 promises "METHOD /path HTTP/x.x". The code asks less: a
      first line with no version passes whenever the version occurs anywhere later. */
  lemma VersionMayBeAnywhere(m: string, p: string, before: string, after: string)
    requires m != "" && NoSpace(m)
    requires p != "" && p[0] == '/' && PathChars(p)
    ensures Gate((m + " " + p) + CRLF + (before + "HTTP/1." + after)) == Some(RequestLine(m, p))
  {
    var line := m + " " + p;
    var rest := before + "HTTP/1." + after;
    LineHasNoCrlf(line, "");
    assert line + "" == line;
    assert line == "" + m + " " + p + "" + "";
    var data := line + CRLF + rest;
    var i := |line| + 2 + |before|;
    assert data[i..i + 7] == "HTTP/1.";
    assert MatchesAt(data, "HTTP/1.", i);
    GatePasses(line, rest, m, p, "", " ", "", "");
  }
}
