// The std::string operations the parsers of roll-dice/preload_tracer.cpp are built on.
module HttpText {

  datatype Option<+T> = None | Some(value: T)

  const CRLF: string := "\r\n"

  predicate MatchesAt(s: string, pat: string, i: nat) {
    i + |pat| <= |s| && s[i..i + |pat|] == pat
  }

  /** std::string::find: the first match at or after `from`; None stands for npos. */
  function Find(s: string, pat: string, from: nat): (r: Option<nat>)
    ensures r.Some? ==> from <= r.value && MatchesAt(s, pat, r.value)
    ensures r.Some? ==> forall j :: from <= j < r.value ==> !MatchesAt(s, pat, j)
    ensures r.None? ==> forall j :: from <= j ==> !MatchesAt(s, pat, j)
    decreases |s| - from
  {
    if from + |pat| > |s| then None
    else if MatchesAt(s, pat, from) then Some(from)
    else Find(s, pat, from + 1)
  }

  predicate Contains(s: string, pat: string) {
    Find(s, pat, 0).Some?
  }

  /** The contract of Find determines its result. */
  lemma FindIs(s: string, pat: string, from: nat, i: nat)
    requires from <= i && MatchesAt(s, pat, i)
    requires forall j :: from <= j < i ==> !MatchesAt(s, pat, j)
    ensures Find(s, pat, from) == Some(i)
  {
    var r := Find(s, pat, from);
    assert r.Some?;
    assert !(r.value < i) && !(i < r.value);
  }

  lemma MatchInSuffix(s: string, pat: string, from: nat, j: nat)
    requires from <= |s|
    ensures MatchesAt(s[from..], pat, j) <==> MatchesAt(s, pat, from + j)
  {
    if from + j + |pat| <= |s| {
      assert s[from..][j..j + |pat|] == s[from + j..from + j + |pat|];
    }
  }

  /** Searching from an offset is searching the suffix. */
  lemma FindInSuffix(s: string, pat: string, from: nat)
    requires from <= |s|
    ensures
      var r := Find(s[from..], pat, 0);
      Find(s, pat, from) == if r.Some? then Some(from + r.value) else None
  {
    var r := Find(s[from..], pat, 0);
    if r.Some? {
      forall j | from <= j < from + r.value ensures !MatchesAt(s, pat, j) {
        MatchInSuffix(s, pat, from, j - from);
      }
      MatchInSuffix(s, pat, from, r.value);
      FindIs(s, pat, from, from + r.value);
    } else if Find(s, pat, from).Some? {
      MatchInSuffix(s, pat, from, Find(s, pat, from).value - from);
    }
  }

  lemma CharMatch(s: string, c: char, i: nat)
    ensures MatchesAt(s, [c], i) <==> i < |s| && s[i] == c
  {
    if i < |s| {
      assert s[i..i + 1] == [s[i]];
    }
  }

  lemma FindChar(s: string, c: char, rest: string)
    requires c !in s
    ensures Find(s + [c] + rest, [c], 0) == Some(|s|)
  {
    var t := s + [c] + rest;
    CharMatch(t, c, |s|);
    forall j | 0 <= j < |s| ensures !MatchesAt(t, [c], j) {
      CharMatch(t, c, j);
    }
    FindIs(t, [c], 0, |s|);
  }

  lemma ContainsChar(s: string, c: char)
    ensures Contains(s, [c]) <==> c in s
  {
    forall i: nat ensures MatchesAt(s, [c], i) <==> i < |s| && s[i] == c {
      CharMatch(s, c, i);
    }
  }

  predicate CrlfAt(s: string, i: nat) {
    i + 1 < |s| && s[i] == '\r' && s[i + 1] == '\n'
  }

  lemma CrlfMatch(s: string, i: nat)
    ensures MatchesAt(s, CRLF, i) <==> CrlfAt(s, i)
  {
    if i + 2 <= |s| {
      assert s[i..i + 2] == [s[i], s[i + 1]];
    }
  }

  /** The first CRLF of a line followed by CRLF is the one that ends the line,
      even when the line itself ends in CR. */
  lemma FindCrlf(line: string, rest: string)
    requires !Contains(line, CRLF)
    ensures Find(line + CRLF + rest, CRLF, 0) == Some(|line|)
  {
    var t := line + CRLF + rest;
    CrlfMatch(t, |line|);
    forall j | 0 <= j < |line| ensures !MatchesAt(t, CRLF, j) {
      CrlfMatch(t, j);
      CrlfMatch(line, j);
    }
    FindIs(t, CRLF, 0, |line|);
  }

  // ---- ASCII case ------------------------------------------------------------

  predicate IsUpper(c: char) {
    'A' <= c <= 'Z'
  }

  function LowerChar(c: char): (r: char) {
    if IsUpper(c) then (c as int + 32) as char else c
  }

  function Lower(s: string): (r: string)
    ensures |r| == |s|
    ensures forall i :: 0 <= i < |s| ==> r[i] == LowerChar(s[i])
  {
    seq(|s|, i requires 0 <= i < |s| => LowerChar(s[i]))
  }

  /** ASCII case-insensitive equality, one letter against its other case. */
  predicate SameLetter(c: char, d: char) {
    c == d || (IsUpper(c) && d as int == c as int + 32) || (IsUpper(d) && c as int == d as int + 32)
  }

  predicate SameName(a: string, b: string) {
    |a| == |b| && forall i :: 0 <= i < |a| ==> SameLetter(a[i], b[i])
  }

  lemma LowerIffSameName(a: string, b: string)
    ensures Lower(a) == Lower(b) <==> SameName(a, b)
  {
    if Lower(a) == Lower(b) {
      forall i | 0 <= i < |a| ensures SameLetter(a[i], b[i]) {
        assert Lower(a)[i] == Lower(b)[i];
      }
    }
    if SameName(a, b) {
      forall i | 0 <= i < |a| ensures Lower(a)[i] == Lower(b)[i] {
        assert SameLetter(a[i], b[i]);
      }
    }
  }

  const UPPER: string := "ABCDEFGHIJKLMNOPQRSTUVWXYZ"
  const LOWER: string := "abcdefghijklmnopqrstuvwxyz"

  /** Exactly the 26 letters change, each to its small form. */
  lemma LettersAreLowered(c: char)
    ensures forall i :: 0 <= i < 26 ==> LowerChar(UPPER[i]) == LOWER[i]
    ensures c !in UPPER ==> LowerChar(c) == c
  {
    assert forall i :: 0 <= i < 26 ==> UPPER[i] as int == 65 + i && LOWER[i] as int == 97 + i;
    if 'A' <= c <= 'Z' {
      assert c == UPPER[c as int - 65];
    }
  }

  /** The loop that lowercases a key in place, ASCII letters only (lines 88 and 101). */
  method LowerInPlace(s: string) returns (r: string)
    ensures r == Lower(s)
  {
    r := s;
    for i := 0 to |s|
      invariant |r| == |s|
      invariant forall j :: 0 <= j < i ==> r[j] == LowerChar(s[j])
      invariant forall j :: i <= j < |s| ==> r[j] == s[j]
    {
      if 'A' <= r[i] && r[i] <= 'Z' {
        r := r[i := (r[i] as int + 32) as char];
      }
    }
  }

  // ---- Whitespace-separated words --------------------------------------------

  /** std::isspace in the C locale. */
  predicate IsSpace(c: char) {
    c == ' ' || c == '\t' || c == '\n' || c == 11 as char || c == 12 as char || c == '\r'
  }

  /** Blanks are the characters 9 to 13 and 32. */
  lemma BlanksByCode(c: char)
    ensures IsSpace(c) <==> 9 <= c as int <= 13 || c as int == 32
  {}

  ghost predicate AllSpace(s: string) {
    forall i :: 0 <= i < |s| ==> IsSpace(s[i])
  }

  ghost predicate NoSpace(s: string) {
    forall i :: 0 <= i < |s| ==> !IsSpace(s[i])
  }

  /** First position at or after i that is not whitespace. */
  function SkipSpace(s: string, i: nat): (r: nat)
    requires i <= |s|
    ensures i <= r <= |s| && forall j :: i <= j < r ==> IsSpace(s[j])
    ensures r < |s| ==> !IsSpace(s[r])
    decreases |s| - i
  {
    if i < |s| && IsSpace(s[i]) then SkipSpace(s, i + 1) else i
  }

  /** First position at or after i that is whitespace, or the end. */
  function WordEnd(s: string, i: nat): (r: nat)
    requires i <= |s|
    ensures i <= r <= |s| && forall j :: i <= j < r ==> !IsSpace(s[j])
    ensures r < |s| ==> IsSpace(s[r])
    decreases |s| - i
  {
    if i < |s| && !IsSpace(s[i]) then WordEnd(s, i + 1) else i
  }

  /** A gap then a word then more text: where the two scans stop. */
  lemma ScanWord(before: string, gap: string, word: string, after: string)
    requires AllSpace(gap) && NoSpace(word) && word != ""
    requires after == "" || IsSpace(after[0])
    ensures
      var s := before + gap + word + after;
      && SkipSpace(s, |before|) == |before + gap|
      && WordEnd(s, |before + gap|) == |before + gap + word|
  {
    var s := before + gap + word + after;
    var g := |before + gap|;
    var w := |before + gap + word|;
    assert forall j :: |before| <= j < g ==> s[j] == gap[j - |before|];
    assert forall j :: g <= j < w ==> s[j] == word[j - g];
    assert s[g] == word[0];
    assert after != "" ==> s[w] == after[0];
    assert SkipSpace(s, |before|) == g;
    assert WordEnd(s, g) == w;
  }
}
