// The response half: parse_response_status of roll-dice/preload_tracer.cpp and the
// strtol call inside it. `mem` is the memory that starts at the buffer; the first
// `len` characters of it are the buffer, and the character after `mem` is no digit.
module ResponseParsing {
  import opened HttpText

  const LONG_MAX: int := 0x7FFF_FFFF_FFFF_FFFF
  const HTTP1: string := "HTTP/1."

  predicate IsDigit(c: char) {
    '0' <= c <= '9'
  }

  ghost predicate AllDigits(s: string) {
    forall i :: 0 <= i < |s| ==> IsDigit(s[i])
  }

  /** The number a string of decimal digits denotes. */
  function Value(ds: string): (v: nat)
    requires AllDigits(ds)
  {
    if ds == "" then 0
    else Value(ds[..|ds| - 1]) * 10 + (ds[|ds| - 1] as int - '0' as int)
  }

  const DIGITS: string := "0123456789"

  /** Digits are those ten characters and count from zero; the last one counts for the least. */
  lemma DigitsAreDecimal(ds: string, i: nat)
    requires AllDigits(ds) && i < 10
    ensures AllDigits(ds + [DIGITS[i]]) && Value(ds + [DIGITS[i]]) == 10 * Value(ds) + i && Value("") == 0
    ensures forall c :: IsDigit(c) <==> c in DIGITS
  {
    assert forall k :: 0 <= k < 10 ==> DIGITS[k] as int == 48 + k;
    assert (ds + [DIGITS[i]])[..|ds|] == ds;
    forall c | IsDigit(c) ensures c in DIGITS {
      assert c == DIGITS[c as int - 48];
    }
  }

  function DigitsEnd(s: string, i: nat): (r: nat)
    requires i <= |s|
    ensures i <= r <= |s| && forall j :: i <= j < r ==> IsDigit(s[j])
    ensures r < |s| ==> !IsDigit(s[r])
    decreases |s| - i
  {
    if i < |s| && IsDigit(s[i]) then DigitsEnd(s, i + 1) else i
  }

  function Clamp(v: int): int {
    if v > LONG_MAX then LONG_MAX else if v < -LONG_MAX - 1 then -LONG_MAX - 1 else v
  }

  predicate IsSign(c: char) {
    c == '+' || c == '-'
  }

  /** Where strtol's digits begin: after blanks and at most one sign. */
  function DigitsStart(s: string, p: nat): (r: nat)
    requires p <= |s|
    ensures p <= r <= |s|
  {
    var a := SkipSpace(s, p);
    if a < |s| && IsSign(s[a]) then a + 1 else a
  }

  function Negative(s: string, p: nat): bool
    requires p <= |s|
  {
    var a := SkipSpace(s, p);
    a < |s| && s[a] == '-'
  }

  /** What strtol returns for base 10 when it converts anything at all. */
  function Strtol(s: string, p: nat): Option<int>
    requires p <= |s|
  {
    var d := DigitsStart(s, p);
    var e := DigitsEnd(s, d);
    if d == e then None
    else Some(Clamp(if Negative(s, p) then -(Value(s[d..e]) as int) else Value(s[d..e])))
  }

  /** strtol's conversion loop: the running value saturates instead of overflowing,
      and digits are consumed to the end either way. */
  method ConvertDigits(s: string, d: nat, negative: bool) returns (value: int, end: nat)
    requires d <= |s|
    ensures end == DigitsEnd(s, d)
    ensures value == Clamp(if negative then -(Value(s[d..end]) as int) else Value(s[d..end]))
  {
    var limit := if negative then LONG_MAX + 1 else LONG_MAX;
    var acc: int := 0;
    end := d;
    assert s[d..d] == "";
    while end < |s| && IsDigit(s[end])
      invariant d <= end <= |s|
      invariant DigitsEnd(s, end) == DigitsEnd(s, d)
      invariant AllDigits(s[d..end])
      invariant acc == if Value(s[d..end]) > limit then limit else Value(s[d..end])
    {
      assert s[d..end + 1][..end - d] == s[d..end];
      acc := acc * 10 + (s[end] as int - '0' as int);
      if acc > limit {
        acc := limit;
      }
      end := end + 1;
    }
    value := if negative then -acc else acc;
  }

  /** Where the loop at line 114 leaves p: past the blanks of the buffer. */
  function SkipBlanks(mem: string, len: nat, p: nat): (r: nat)
    requires p <= len <= |mem|
    ensures p <= r <= len && forall j :: p <= j < r ==> mem[j] == ' '
    ensures r < len ==> mem[r] != ' '
    decreases len - p
  {
    if p < len && mem[p] == ' ' then SkipBlanks(mem, len, p + 1) else p
  }

  /** The status code a response buffer carries, if the code records one. */
  function Status(mem: string, len: nat): Option<int>
    requires len <= |mem|
  {
    if len < 12 || !MatchesAt(mem, HTTP1, 0) then None
    else
      var p := SkipBlanks(mem, len, 8);
      if p >= len then None
      else
        match Strtol(mem, p)
        case None => None
        case Some(code) => if code < 0 || code > 999 then None else Some(code)
  }

  /** parse_response_status */
  method ParseResponseStatus(mem: string, len: nat) returns (ok: bool, statusCode: int)
    requires len <= |mem|
    ensures Status(mem, len) == if ok then Some(statusCode) else None
  {
    ok, statusCode := false, 0;
    if len < 12 {
      return;
    }
    if !MatchesAt(mem, HTTP1, 0) {
      return;
    }
    var p := 8;
    while p < len && mem[p] == ' '
      invariant 8 <= p <= len
      invariant SkipBlanks(mem, len, p) == SkipBlanks(mem, len, 8)
    {
      p := p + 1;
    }
    if p >= len {
      return;
    }
    var d := DigitsStart(mem, p);
    var code, end := ConvertDigits(mem, d, Negative(mem, p));
    if end == d || code < 0 || code > 999 {
      return;
    }
    ok, statusCode := true, code;
  }

  // ---- Exactly which responses record a status ---------------------------------

  /** `mem` reads HTTP/1.x, blanks, a sign perhaps, a whole run of digits, and more. */
  ghost predicate Spells(mem: string, x: char, gap: string, sign: string, ds: string, rest: string) {
    && mem == "HTTP/1." + [x] + gap + sign + ds + rest
    && AllSpace(gap)
    && (sign == "" || sign == "+" || sign == "-")
    && ds != "" && AllDigits(ds)
    && (rest == "" || !IsDigit(rest[0]))
  }

  function Signed(sign: string, v: nat): int {
    if sign == "-" then -(v as int) else v
  }

  /** Within the buffer, something other than the blanks that follow HTTP/1.x. */
  ghost predicate ReachesText(mem: string, len: nat) {
    exists j :: 8 <= j < len <= |mem| && mem[j] != ' '
  }

  lemma SpelledPieces(mem: string, x: char, gap: string, sign: string, ds: string, rest: string)
    requires Spells(mem, x, gap, sign, ds, rest)
    ensures
      var a := 8 + |gap|;
      var d := a + |sign|;
      var e := d + |ds|;
      && e + |rest| == |mem|
      && mem[8..a] == gap && mem[d..e] == ds
      && (sign != "" ==> mem[a] == sign[0]) && mem[d] == ds[0] && (e < |mem| ==> mem[e] == rest[0])
      && MatchesAt(mem, HTTP1, 0)
  {
    var a := 8 + |gap|;
    var d := a + |sign|;
    var e := d + |ds|;
    var head := HTTP1 + [x];
    assert |head| == 8;
    assert head[..7] == HTTP1;
    assert mem[..8] == head;
    assert mem[0..7] == head[..7];
  }

  lemma ScansNumber(s: string, p: nat, a: nat, d: nat, e: nat)
    requires p <= a <= d < e <= |s| && d <= a + 1
    requires forall j :: p <= j < a ==> IsSpace(s[j])
    requires d == a + 1 ==> IsSign(s[a])
    requires (forall j :: d <= j < e ==> IsDigit(s[j])) && (e < |s| ==> !IsDigit(s[e]))
    ensures
      var v := Value(s[d..e]);
      Strtol(s, p) == Some(Clamp(if d == a + 1 && s[a] == '-' then -(v as int) else v))
  {
    assert IsDigit(s[d]);
    assert SkipSpace(s, p) == a;
    assert DigitsStart(s, p) == d;
    assert DigitsEnd(s, d) == e;
  }

  lemma SpelledConverts(mem: string, p: nat, x: char, gap: string, sign: string, ds: string, rest: string)
    requires Spells(mem, x, gap, sign, ds, rest)
    requires 8 <= p <= 8 + |gap| && p <= |mem|
    ensures Strtol(mem, p) == Some(Clamp(Signed(sign, Value(ds))))
  {
    SpelledPieces(mem, x, gap, sign, ds, rest);
    var a := 8 + |gap|;
    var d := a + |sign|;
    var e := d + |ds|;
    assert forall j :: p <= j < a ==> mem[j] == mem[8..a][j - 8];
    assert forall j :: d <= j < e ==> mem[j] == mem[d..e][j - d];
    ScansNumber(mem, p, a, d, e);
  }

  /** The parts of the memory strtol has told apart. */
  lemma ConvertedParts(mem: string, p: nat)
    requires 8 <= p <= |mem| && Strtol(mem, p).Some?
    requires forall j :: 8 <= j < p ==> mem[j] == ' '
    ensures
      var a := SkipSpace(mem, p);
      var d := DigitsStart(mem, p);
      var e := DigitsEnd(mem, d);
      && 8 <= a <= d < e <= |mem|
      && AllSpace(mem[8..a]) && AllDigits(mem[d..e]) && (e < |mem| ==> !IsDigit(mem[e]))
      && (mem[a..d] == "" || mem[a..d] == "+" || mem[a..d] == "-")
      && Strtol(mem, p) == Some(Clamp(Signed(mem[a..d], Value(mem[d..e]))))
  {
    var a := SkipSpace(mem, p);
    var d := DigitsStart(mem, p);
    assert forall j :: 8 <= j < a ==> IsSpace(mem[j]);
    assert mem[a..d] == if d == a then "" else [mem[a]];
  }

  /** Reading strtol's answer back as a way of spelling the memory. */
  lemma ConvertedIsSpelled(mem: string, p: nat)
    returns (gap: string, sign: string, ds: string, rest: string)
    requires 8 <= p <= |mem| && MatchesAt(mem, HTTP1, 0)
    requires forall j :: 8 <= j < p ==> mem[j] == ' '
    requires Strtol(mem, p).Some?
    ensures Spells(mem, mem[7], gap, sign, ds, rest)
    ensures Strtol(mem, p) == Some(Clamp(Signed(sign, Value(ds))))
  {
    ConvertedParts(mem, p);
    var a := SkipSpace(mem, p);
    var d := DigitsStart(mem, p);
    var e := DigitsEnd(mem, d);
    gap, sign, ds, rest := mem[8..a], mem[a..d], mem[d..e], mem[e..];
    assert mem[0..7] == HTTP1;
    SplitSix(mem, 7, a, d, e);
    hide SkipSpace, DigitsStart, DigitsEnd, AllSpace, AllDigits, IsSpace, IsDigit;
    hide Value, MatchesAt, Strtol, Clamp, Signed;
    assert rest != "" ==> rest[0] == mem[e];
  }

  lemma SplitSix(s: string, x: nat, a: nat, d: nat, e: nat)
    requires x < a <= d <= e <= |s|
    ensures s == s[0..x] + [s[x]] + s[x + 1..a] + s[a..d] + s[d..e] + s[e..]
  {}

  lemma BlanksEnd(mem: string, len: nat)
    requires 8 <= len <= |mem|
    ensures SkipBlanks(mem, len, 8) < len <==> ReachesText(mem, len)
  {
    if SkipBlanks(mem, len, 8) < len {
      assert mem[SkipBlanks(mem, len, 8)] != ' ';
    }
  }

  /** A write records status c exactly when it spells HTTP/1.x, blanks, and a number
      equal to c between 0 and 999, with at least 12 characters written. */
  lemma StatusIsExact(mem: string, len: nat, c: int)
    requires len <= |mem|
    ensures Status(mem, len) == Some(c) <==>
      && len >= 12 && ReachesText(mem, len) && 0 <= c <= 999
      && exists x, gap, sign, ds, rest :: Spells(mem, x, gap, sign, ds, rest) && Signed(sign, Value(ds)) == c
  {
    if Status(mem, len) == Some(c) {
      BlanksEnd(mem, len);
      var gap, sign, ds, rest := ConvertedIsSpelled(mem, SkipBlanks(mem, len, 8));
      assert Spells(mem, mem[7], gap, sign, ds, rest) && Signed(sign, Value(ds)) == c;
    }
    if len >= 12 && ReachesText(mem, len) && 0 <= c <= 999
       && exists x, gap, sign, ds, rest :: Spells(mem, x, gap, sign, ds, rest) && Signed(sign, Value(ds)) == c {
      var x, gap, sign, ds, rest :| Spells(mem, x, gap, sign, ds, rest) && Signed(sign, Value(ds)) == c;
      SpelledStatus(mem, len, x, gap, sign, ds, rest);
    }
  }

  /** The status of any response spelled out this way. */
  lemma SpelledStatus(mem: string, len: nat, x: char, gap: string, sign: string, ds: string, rest: string)
    requires Spells(mem, x, gap, sign, ds, rest)
    requires 12 <= len <= |mem| && ReachesText(mem, len)
    ensures
      var v := Signed(sign, Value(ds));
      Status(mem, len) == if 0 <= v <= 999 then Some(v) else None
  {
    BlanksEnd(mem, len);
    SpelledPieces(mem, x, gap, sign, ds, rest);
    var p := SkipBlanks(mem, len, 8);
    var a := 8 + |gap|;
    assert sign != "" ==> sign[0] != ' ';
    assert mem[a] != ' ';
    assert p <= a;
    SpelledConverts(mem, p, x, gap, sign, ds, rest);
  }

  // ---- Consequences ---------------------------------------------------------------

  function Digit(v: int): char
    requires 0 <= v <= 9
  {
    ('0' as int + v) as char
  }

  /** A status code as three decimal digits. */
  function ThreeDigits(code: int): (s: string)
    requires 0 <= code <= 999
    ensures |s| == 3 && AllDigits(s)
  {
    [Digit(code / 100), Digit(code / 10 % 10), Digit(code % 10)]
  }

  lemma ThreeDigitsValue(code: int)
    requires 0 <= code <= 999
    ensures Value(ThreeDigits(code)) == code
  {
    var a, b, c := code / 100, code / 10 % 10, code % 10;
    assert [Digit(a)][..0] == "";
    assert Value([Digit(a)]) == a;
    assert [Digit(a), Digit(b)][..1] == [Digit(a)];
    assert Value([Digit(a), Digit(b)]) == a * 10 + b;
    assert ThreeDigits(code)[..2] == [Digit(a), Digit(b)];
  }

  /** Every status line "HTTP/1.x ddd", whatever follows the three digits as long as it
      is not a fourth, is read back as the code it was printed from. */
  lemma StatusRoundTrip(x: char, code: int, rest: string, len: nat)
    requires 0 <= code <= 999 && (rest == "" || !IsDigit(rest[0]))
    requires 12 <= len <= 12 + |rest|
    ensures Status("HTTP/1." + [x] + " " + ThreeDigits(code) + rest, len) == Some(code)
  {
    var mem := "HTTP/1." + [x] + " " + ThreeDigits(code) + rest;
    assert mem == "HTTP/1." + [x] + " " + "" + ThreeDigits(code) + rest;
    ThreeDigitsValue(code);
    assert Spells(mem, x, " ", "", ThreeDigits(code), rest);
    SpelledPieces(mem, x, " ", "", ThreeDigits(code), rest);
    assert mem[9] != ' ';
    SpelledStatus(mem, len, x, " ", "", ThreeDigits(code), rest);
  }

  /** A signed number is not simply rejected: "-ddd" records a status exactly when
      its digits are all zeros, and the status is then 0. */
  lemma NegativeNumbers(mem: string, len: nat, x: char, gap: string, ds: string, rest: string)
    requires Spells(mem, x, gap, "-", ds, rest)
    requires 12 <= len <= |mem| && ReachesText(mem, len)
    ensures Status(mem, len) == if Value(ds) == 0 then Some(0) else None
  {
    SpelledStatus(mem, len, x, gap, "-", ds, rest);
  }

  /** A status line without a number does not end the search: strtol skips line ends,
      so the number that opens a later line is taken for the status. */
  lemma LaterLineIsTaken(mem: string, len: nat, x: char, blanks: string, more: string, ds: string, rest: string)
    requires AllSpace(blanks) && AllSpace(more)
    requires Spells(mem, x, blanks + CRLF + more, "", ds, rest)
    requires 12 <= len <= |mem|
    requires |blanks| + 8 < len
    ensures Status(mem, len) == if Value(ds) <= 999 then Some(Value(ds)) else None
  {
    SpelledPieces(mem, x, blanks + CRLF + more, "", ds, rest);
    var gap := blanks + CRLF + more;
    assert mem[8 + |blanks|] == gap[|blanks|] == '\r';
    SpelledStatus(mem, len, x, gap, "", ds, rest);
  }

  // ---- Exactly which buffers leave the answer to the memory after them ---------------

  /** The buffer ends while strtol is still reading, and what it has read so far is no
      number yet or one that would be recorded. */
  predicate RunsOut(b: string) {
    && |b| >= 12 && MatchesAt(b, "HTTP/1.", 0)
    && var p := SkipBlanks(b, |b|, 8);
       p < |b| &&
       var d := DigitsStart(b, p);
       DigitsEnd(b, d) == |b|
       && (d == |b| || if Negative(b, p) then Value(b[d..]) == 0 else Value(b[d..]) <= 999)
  }

  /** A buffer's status is the same whatever lies after it in memory if and only if the
      buffer does not run out under strtol in that way. */
  lemma BufferDecides(b: string)
    ensures (forall x, y :: Status(b + x, |b|) == Status(b + y, |b|)) <==> !RunsOut(b)
  {
    if RunsOut(b) {
      var x, y := StatusReadsOn(b);
      assert Status(b + x, |b|) != Status(b + y, |b|);
    } else {
      forall x, y ensures Status(b + x, |b|) == Status(b + y, |b|) {
        StatusIsSettled(b, x);
        StatusIsSettled(b, y);
      }
    }
  }

  /** What lies beyond a buffer of length `len` is irrelevant unless the buffer runs out. */
  lemma StatusIgnoresWhatFollows(mem: string, len: nat, after: string)
    requires len <= |mem| && !RunsOut(mem[..len])
    ensures Status(mem[..len] + after, len) == Status(mem, len)
  {
    BufferDecides(mem[..len]);
    assert mem == mem[..len] + mem[len..];
  }

  /** The buffer as the beginning of memory: up to the number nothing else is looked at. */
  lemma BufferFirst(b: string, x: string)
    ensures |b| >= 12 ==> MatchesAt(b + x, HTTP1, 0) == MatchesAt(b, HTTP1, 0)
    ensures |b| >= 8 ==> SkipBlanks(b + x, |b|, 8) == SkipBlanks(b, |b|, 8)
  {
    if |b| >= 8 {
      assert (b + x)[0..7] == b[0..7];
      SameBlanks(b, b + x, |b|, 8);
    }
  }

  /** The contract of SkipSpace determines its result. */
  lemma SkipSpaceIs(s: string, p: nat, a: nat)
    requires p <= a <= |s| && (forall j :: p <= j < a ==> IsSpace(s[j])) && (a < |s| ==> !IsSpace(s[a]))
    ensures SkipSpace(s, p) == a
  {
    var r := SkipSpace(s, p);
    assert !(r < a) && !(a < r);
  }

  lemma {:induction false} ValueGrows(ds: string, more: string)
    requires AllDigits(ds + more)
    ensures AllDigits(ds) && Value(ds) <= Value(ds + more)
  {
    assert forall i :: 0 <= i < |ds| ==> ds[i] == (ds + more)[i];
    if more == "" {
      assert ds + more == ds;
    } else {
      assert (ds + more)[..|ds + more| - 1] == ds + more[..|more| - 1];
      ValueGrows(ds, more[..|more| - 1]);
    }
  }

  /** A number that has begun inside the buffer can only get longer. */
  lemma NumberGoesOn(b: string, x: string, p: nat)
    requires p <= |b| && DigitsStart(b, p) < |b| && DigitsEnd(b, DigitsStart(b, p)) == |b|
    ensures
      var d := DigitsStart(b, p);
      var e := DigitsEnd(b + x, d);
      && e >= |b| && DigitsStart(b + x, p) == d && Negative(b + x, p) == Negative(b, p)
      && (b + x)[d..e] == b[d..] + (b + x)[|b|..e]
      && Value(b[d..]) <= Value((b + x)[d..e])
  {
    var s, d := b + x, DigitsStart(b, p);
    assert IsDigit(b[d]);
    SkipSpaceIs(s, p, SkipSpace(b, p));
    assert DigitsStart(s, p) == d;
    var e := DigitsEnd(s, d);
    assert forall j :: d <= j < |b| ==> IsDigit(s[j]);
    assert e >= |b|;
    assert s[d..e] == b[d..] + s[|b|..e];
    ValueGrows(b[d..], s[|b|..e]);
  }

  lemma StatusIsSettled(b: string, x: string)
    requires !RunsOut(b)
    ensures Status(b + x, |b|) == Status(b, |b|)
  {
    BufferFirst(b, x);
    if |b| >= 12 && MatchesAt(b, HTTP1, 0) && SkipBlanks(b, |b|, 8) < |b| {
      var p := SkipBlanks(b, |b|, 8);
      if DigitsEnd(b, DigitsStart(b, p)) < |b| {
        SameNumber(b, b + x, |b|, p);
      } else {
        StaysOutOfRange(b, "", p);
        StaysOutOfRange(b, x, p);
        assert b + "" == b;
      }
      hide Strtol, SkipBlanks;
    }
  }

  lemma StaysOutOfRange(b: string, x: string, p: nat)
    requires p <= |b| && DigitsStart(b, p) < |b| && DigitsEnd(b, DigitsStart(b, p)) == |b|
    requires var v := Value(b[DigitsStart(b, p)..]); if Negative(b, p) then v > 0 else v > 999
    ensures
      var r := Strtol(b + x, p);
      r.Some? && (r.value < 0 || r.value > 999)
  {
    NumberGoesOn(b, x, p);
    hide SkipSpace, DigitsStart, DigitsEnd, Value;
  }

  /** Two continuations of a buffer that runs out: one records a status, the other does not. */
  lemma StatusReadsOn(b: string) returns (x: string, y: string)
    requires RunsOut(b)
    ensures Status(b + x, |b|).Some? && Status(b + y, |b|).None?
  {
    var p := SkipBlanks(b, |b|, 8);
    var d := DigitsStart(b, p);
    if d == |b| {
      x, y := "0", "";
      BufferFirst(b, x);
      assert b + y == b;
      FirstDigit(b, p);
    } else {
      x, y := "", "1111";
      BufferFirst(b, y);
      assert b + x == b && b[d..|b|] == b[d..];
      GrowsTooLarge(b, p);
    }
  }

  lemma FirstDigit(b: string, p: nat)
    requires p <= |b| && DigitsStart(b, p) == |b|
    ensures Strtol(b, p) == None && Strtol(b + "0", p) == Some(0)
  {
    var s := b + "0";
    var a := SkipSpace(b, p);
    SkipSpaceIs(s, p, a);
    assert DigitsStart(s, p) == |b|;
    assert DigitsEnd(s, |b|) == |b| + 1;
    assert s[|b|..|b| + 1] == "0";
    assert Value("0") == 0;
  }

  lemma EndsInOnes(b: string, p: nat)
    requires p <= |b| && DigitsStart(b, p) < |b| && DigitsEnd(b, DigitsStart(b, p)) == |b|
    ensures
      var d, s := DigitsStart(b, p), b + "1111";
      && DigitsStart(s, p) == d && Negative(s, p) == Negative(b, p)
      && DigitsEnd(s, d) == |s| && s[d..|s|] == b[d..] + "1111"
  {
    var d, s := DigitsStart(b, p), b + "1111";
    NumberGoesOn(b, "1111", p);
    var e := DigitsEnd(s, d);
    assert forall j :: |b| <= j < |s| ==> s[j] == '1';
    assert e == |s| && s[|b|..e] == "1111";
  }

  lemma GrowsTooLarge(b: string, p: nat)
    requires p <= |b| && DigitsStart(b, p) < |b| && DigitsEnd(b, DigitsStart(b, p)) == |b|
    ensures
      var r := Strtol(b + "1111", p);
      r.Some? && (r.value < 0 || r.value > 999)
  {
    EndsInOnes(b, p);
    FourOnes(b[DigitsStart(b, p)..]);
    hide SkipSpace, DigitsStart, DigitsEnd, Value, Negative;
  }

  lemma AnotherOne(ds: string)
    requires AllDigits(ds)
    ensures AllDigits(ds + "1") && Value(ds + "1") == Value(ds) * 10 + 1
  {
    assert (ds + "1")[..|ds|] == ds;
  }

  lemma FourOnes(ds: string)
    requires AllDigits(ds)
    ensures AllDigits(ds + "1111") && Value(ds + "1111") == Value(ds) * 10000 + 1111
  {
    AnotherOne(ds);
    AnotherOne(ds + "1");
    AnotherOne(ds + "1" + "1");
    AnotherOne(ds + "1" + "1" + "1");
    assert ds + "1" + "1" + "1" + "1" == ds + "1111";
  }

  lemma SameNumber(s: string, t: string, len: nat, p: nat)
    requires p <= len <= |s| && len <= |t| && forall j :: 0 <= j < len ==> s[j] == t[j]
    requires DigitsEnd(s, DigitsStart(s, p)) < len
    ensures Strtol(t, p) == Strtol(s, p)
  {
    var d := DigitsStart(s, p);
    var e := DigitsEnd(s, d);
    assert SkipSpace(t, p) == SkipSpace(s, p);
    assert DigitsStart(t, p) == d;
    assert DigitsEnd(t, d) == e;
    assert t[d..e] == s[d..e];
    hide SkipSpace, DigitsEnd;
  }

  lemma SameBlanks(s: string, t: string, len: nat, p: nat)
    requires p <= len <= |s| && len <= |t| && forall j :: 0 <= j < len ==> s[j] == t[j]
    ensures SkipBlanks(s, len, p) == SkipBlanks(t, len, p)
    decreases len - p
  {
  }

  /** For example, the same twelve characters written are 200 or no status at all,
      depending on the next byte in memory. */
  lemma StatusReadsPastTheBuffer()
    ensures Status("HTTP/1.1 200", 12) == Some(200)
    ensures Status("HTTP/1.1 2000", 12) == None
  {
    ThreeDigitsValue(200);
    assert ThreeDigits(200) == "200";
    assert "HTTP/1.1 200" == "HTTP/1." + ['1'] + " " + ThreeDigits(200) + "";
    StatusRoundTrip('1', 200, "", 12);
    var over := "HTTP/1.1 2000";
    assert over == "HTTP/1." + ['1'] + " " + "" + "2000" + "";
    assert "2000"[..3] == ThreeDigits(200);
    assert Value("2000") == 2000;
    assert Spells(over, '1', " ", "", "2000", "");
    SpelledPieces(over, '1', " ", "", "2000", "");
    assert over[9] != ' ';
    SpelledStatus(over, 12, '1', " ", "", "2000", "");
  }
}
