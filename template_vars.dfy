/**
 * `extract_vars` (appmail/helpers.py): the variable names written as
 * `{{ ... }}` in a template, found by the pattern `{{([ ._[a-z]*)}}` and
 * stripped of surrounding spaces.
 *
 * The pattern's class cannot match `}`, so its greedy run either stops
 * right before `}}` or no match starts at that position: `MatchAt` takes
 * the maximal run, and `MatchAtComplete` shows no other body matches.
 * `Scan` is `findall`: leftmost matches, non-overlapping, left to right,
 * moving on by one character where no match starts.
 */
module TemplateVars {
  import opened Wrappers

  /** The character class of the pattern: space, `.`, `_`, `[` and `a`-`z`. */
  predicate IsVarChar(c: char) {
    c == ' ' || c == '.' || c == '_' || c == '[' || 'a' <= c <= 'z'
  }

  predicate IsVarBody(s: string) {
    forall i :: 0 <= i < |s| ==> IsVarChar(s[i])
  }

  /** `t` occurs in `s` at position `i`. */
  predicate OccursAt(s: string, i: nat, t: string) {
    i + |t| <= |s| && s[i..i + |t|] == t
  }

  /** The length of the longest run of class characters in `s` from position `i`. */
  function RunLength(s: string, i: nat): (n: nat)
    requires i <= |s|
    ensures i + n <= |s|
    ensures IsVarBody(s[i..i + n])
    ensures i + n == |s| || !IsVarChar(s[i + n])
    decreases |s| - i
  {
    if i < |s| && IsVarChar(s[i]) then
      var m := RunLength(s, i + 1);
      assert s[i..i + 1 + m] == [s[i]] + s[i + 1..i + 1 + m];
      1 + m
    else 0
  }

  /** A run of class characters followed by a character outside the class is the maximal run. */
  lemma {:induction false} RunStopsAt(s: string, i: nat, n: nat)
    requires i + n < |s|
    requires IsVarBody(s[i..i + n]) && !IsVarChar(s[i + n])
    ensures RunLength(s, i) == n
    decreases n
  {
    if n > 0 {
      assert IsVarChar(s[i..i + n][0]);
      assert s[i + 1..i + 1 + (n - 1)] == s[i..i + n][1..];
      RunStopsAt(s, i + 1, n - 1);
    }
  }

  /**
   * The pattern matches at position `i`, capturing `body`: the opening
   * braces, the body (class characters only) and the closing braces occur
   * there one after another.
   */
  predicate IsMatchAt(s: string, i: nat, body: string) {
    && IsVarBody(body)
    && OccursAt(s, i, "{{") && OccursAt(s, i + 2, body) && OccursAt(s, i + 2 + |body|, "}}")
  }

  /** A body the pattern captures at `i` is the maximal run after the opening braces. */
  lemma MatchIsMaximalRun(s: string, i: nat, body: string)
    requires IsMatchAt(s, i, body)
    ensures OccursAt(s, i, "{{") && i + 2 <= |s|
    ensures |body| == RunLength(s, i + 2) && body == s[i + 2..i + 2 + |body|]
    ensures OccursAt(s, i + 2 + |body|, "}}")
  {
    var m := |body|;
    assert s[i + 2 + m..i + 2 + m + 2][0] == s[i + 2 + m];
    RunStopsAt(s, i + 2, m);
  }

  /**
   * The body of the pattern's match starting at position `i`, if one does:
   * the opening braces, then the maximal run of class characters, then the
   * closing braces. `MatchAtComplete` shows that no other body matches there.
   */
  function MatchAt(s: string, i: nat): (r: Option<string>)
    requires i <= |s|
    ensures r.Some? ==> IsMatchAt(s, i, r.value) && i + |r.value| + 4 <= |s|
  {
    if OccursAt(s, i, "{{") then
      var n := RunLength(s, i + 2);
      if OccursAt(s, i + 2 + n, "}}") then Some(s[i + 2..i + 2 + n]) else None
    else None
  }

  /**
   * Any body the pattern captures at `i` is the one `MatchAt` returns, so
   * at each position exactly one body matches or none does.
   */
  lemma MatchAtComplete(s: string, i: nat, body: string)
    requires IsMatchAt(s, i, body)
    ensures MatchAt(s, i) == Some(body)
  {
    MatchIsMaximalRun(s, i, body);
  }

  /** One match: where it starts and the body it captured. */
  datatype Match = Match(start: nat, body: string)

  /** The position just after a match's closing braces. */
  function End(m: Match): nat {
    m.start + |m.body| + 4
  }

  /** The match `m` covers position `p`. */
  predicate Covers(m: Match, p: int) {
    m.start <= p < End(m)
  }

  /** Some match of `ms` covers position `p`. */
  predicate CoveredBy(ms: seq<Match>, p: int) {
    exists k :: 0 <= k < |ms| && Covers(ms[k], p)
  }

  /** `findall` from position `i`: leftmost matches, left to right, resuming after each one. */
  function Scan(s: string, i: nat): (ms: seq<Match>)
    requires i <= |s|
    decreases |s| - i
  {
    if i == |s| then []
    else match MatchAt(s, i)
      case Some(body) => [Match(i, body)] + Scan(s, i + |body| + 4)
      case None => Scan(s, i + 1)
  }

  /** Every element of `ms` is the match at its start, at `i` or later and within the text. */
  predicate AllMatchesFrom(s: string, i: nat, ms: seq<Match>) {
    forall k :: 0 <= k < |ms| ==>
      i <= ms[k].start && End(ms[k]) <= |s| && MatchAt(s, ms[k].start) == Some(ms[k].body)
  }

  /** Each match of `ms` ends at or before the next one starts. */
  predicate InOrder(ms: seq<Match>) {
    forall k :: 0 <= k < |ms| - 1 ==> End(ms[k]) <= ms[k + 1].start
  }

  lemma AllMatchesFromCons(s: string, i: nat, m: Match, rest: seq<Match>)
    requires m.start == i && End(m) <= |s| && MatchAt(s, i) == Some(m.body)
    requires AllMatchesFrom(s, End(m), rest)
    ensures AllMatchesFrom(s, i, [m] + rest)
  {
    assert forall k :: 0 < k < |[m] + rest| ==> ([m] + rest)[k] == rest[k - 1];
  }

  lemma InOrderCons(m: Match, rest: seq<Match>)
    requires InOrder(rest) && (rest != [] ==> End(m) <= rest[0].start)
    ensures InOrder([m] + rest)
  {
    assert forall k :: 0 < k < |[m] + rest| ==> ([m] + rest)[k] == rest[k - 1];
  }

  /**
   * Every element `findall` returns from position `i` is the match at its
   * start, after `i` and within the text.
   */
  lemma {:induction false} ScanFindsMatches(s: string, i: nat)
    requires i <= |s|
    ensures AllMatchesFrom(s, i, Scan(s, i))
    decreases |s| - i
  {
    if i < |s| {
      if MatchAt(s, i).Some? {
        var m := Match(i, MatchAt(s, i).value);
        ScanAtMatch(s, i, m.body);
        ScanFindsMatches(s, End(m));
        AllMatchesFromCons(s, i, m, Scan(s, End(m)));
      } else {
        ScanAtNoMatch(s, i);
        ScanFindsMatches(s, i + 1);
        assert AllMatchesFrom(s, i + 1, Scan(s, i));
      }
    }
  }

  /** The matches `findall` returns are in order and do not overlap. */
  lemma {:induction false} ScanInOrder(s: string, i: nat)
    requires i <= |s|
    ensures InOrder(Scan(s, i))
    decreases |s| - i
  {
    if i < |s| {
      if MatchAt(s, i).Some? {
        var m := Match(i, MatchAt(s, i).value);
        ScanAtMatch(s, i, m.body);
        ScanInOrder(s, End(m));
        ScanStartsAfter(s, End(m));
        InOrderCons(m, Scan(s, End(m)));
      } else {
        ScanAtNoMatch(s, i);
        ScanInOrder(s, i + 1);
      }
    }
  }

  /** The first match `findall` returns from `i` starts at `i` or later. */
  lemma {:induction false} ScanStartsAfter(s: string, i: nat)
    requires i <= |s|
    ensures Scan(s, i) != [] ==> i <= Scan(s, i)[0].start
    decreases |s| - i
  {
    if i < |s| {
      if MatchAt(s, i).Some? {
        ScanAtMatch(s, i, MatchAt(s, i).value);
      } else {
        ScanAtNoMatch(s, i);
        ScanStartsAfter(s, i + 1);
      }
    }
  }

  /** Where a match starts, `findall` records it and carries on after it. */
  lemma ScanAtMatch(s: string, i: nat, body: string)
    requires i < |s| && MatchAt(s, i) == Some(body)
    ensures i + |body| + 4 <= |s| && Scan(s, i) == [Match(i, body)] + Scan(s, i + |body| + 4)
  {
  }

  /** Where no match starts, `findall` moves on by one character. */
  lemma ScanAtNoMatch(s: string, i: nat)
    requires i < |s| && MatchAt(s, i).None?
    ensures Scan(s, i) == Scan(s, i + 1)
  {
  }

  /** A position covered by the first match is covered by the list. */
  lemma CoveredByHead(m: Match, rest: seq<Match>, ms: seq<Match>, p: int)
    requires Covers(m, p) && ms == [m] + rest
    ensures CoveredBy(ms, p)
  {
    assert ms[0] == m;
  }

  /** A position covered by later matches stays covered when a match is put in front. */
  lemma CoveredByCons(m: Match, rest: seq<Match>, ms: seq<Match>, p: int)
    requires CoveredBy(rest, p) && ms == [m] + rest
    ensures CoveredBy(ms, p)
  {
    var k :| 0 <= k < |rest| && Covers(rest[k], p);
    assert ms[k + 1] == rest[k];
  }

  /**
   * `findall` leaves no match out: every position from `i` on where the
   * pattern matches is covered by one of the matches found (it is the start
   * of one, or lies inside one found further left).
   */
  lemma {:induction false} ScanMissesNothing(s: string, i: nat, p: nat)
    requires i <= p < |s| && MatchAt(s, p).Some?
    ensures CoveredBy(Scan(s, i), p)
    decreases |s| - i, 1
  {
    if MatchAt(s, i).Some? {
      MissesNothingAfterMatch(s, i, p);
    } else {
      ScanAtNoMatch(s, i);
      ScanMissesNothing(s, i + 1, p);
    }
  }

  /** The case of `ScanMissesNothing` where a match starts at `i`. */
  lemma {:induction false} MissesNothingAfterMatch(s: string, i: nat, p: nat)
    requires i <= p < |s| && MatchAt(s, p).Some? && MatchAt(s, i).Some?
    ensures CoveredBy(Scan(s, i), p)
    decreases |s| - i, 0
  {
    var m := Match(i, MatchAt(s, i).value);
    ScanAtMatch(s, i, m.body);
    var rest := Scan(s, End(m));
    if p < End(m) {
      CoveredByHead(m, rest, Scan(s, i), p);
    } else {
      ScanMissesNothing(s, End(m), p);
      CoveredByCons(m, rest, Scan(s, i), p);
    }
  }

  /** Number of leading spaces. */
  function LeadingSpaces(s: string): (n: nat)
    ensures n <= |s|
    ensures forall i :: 0 <= i < n ==> s[i] == ' '
    ensures n == |s| || s[n] != ' '
  {
    if s != [] && s[0] == ' ' then 1 + LeadingSpaces(s[1..]) else 0
  }

  /** Number of trailing spaces. */
  function TrailingSpaces(s: string): (n: nat)
    ensures n <= |s|
    ensures forall i :: |s| - n <= i < |s| ==> s[i] == ' '
    ensures n == |s| || s[|s| - 1 - n] != ' '
  {
    if s != [] && s[|s| - 1] == ' ' then 1 + TrailingSpaces(s[..|s| - 1]) else 0
  }

  /**
   * `str.strip()` on a match body (whose only whitespace character is the
   * space): the body without its leading and trailing spaces.
   */
  function Strip(s: string): (r: string)
    ensures |r| <= |s|
    ensures r == [] || (r[0] != ' ' && r[|r| - 1] != ' ')
    ensures var a := LeadingSpaces(s);
      && a + |r| <= |s| && r == s[a..a + |r|]
      && forall i :: a + |r| <= i < |s| ==> s[i] == ' '
  {
    var a := LeadingSpaces(s);
    if a == |s| then
      assert s[0..0] == [];
      []
    else
      var b := |s| - TrailingSpaces(s);
      assert s[|s| - 1] != ' ' ==> b == |s|;
      assert a < b;
      s[a..b]
  }

  /** Stripping keeps only characters of the input. */
  lemma StripKeepsClass(body: string)
    requires IsVarBody(body)
    ensures IsVarBody(Strip(body))
  {
    var v := Strip(body);
    var a := LeadingSpaces(body);
    assert forall i :: 0 <= i < |v| ==> v[i] == body[a + i];
  }

  /** Stripping the bodies of the matches found, in order. */
  function StripAll(ms: seq<Match>): (vs: seq<string>)
    ensures |vs| == |ms|
    ensures forall k :: 0 <= k < |ms| ==> vs[k] == Strip(ms[k].body)
  {
    if ms == [] then [] else [Strip(ms[0].body)] + StripAll(ms[1..])
  }

  /**
   * `extract_vars(content)`. Every name found is made of class characters
   * only, has no surrounding spaces, and is the stripped body of a match of
   * the pattern.
   */
  function ExtractVars(content: string): (vs: seq<string>)
    ensures |vs| == |Scan(content, 0)|
    ensures forall k :: 0 <= k < |vs| ==> vs[k] == Strip(Scan(content, 0)[k].body)
    ensures forall v :: v in vs ==> IsVarBody(v) && (v == [] || (v[0] != ' ' && v[|v| - 1] != ' '))
  {
    var ms := Scan(content, 0);
    ScanFindsMatches(content, 0);
    var vs := StripAll(ms);
    forall k | 0 <= k < |vs|
      ensures IsVarBody(vs[k])
    {
      var m := ms[k];
      assert MatchAt(content, m.start) == Some(m.body);
      assert IsMatchAt(content, m.start, m.body);
      StripKeepsClass(m.body);
    }
    vs
  }

  /** Text without `{{` yields no names. */
  lemma {:induction false} NoOpeningBracesNoVars(s: string, i: nat)
    requires i <= |s|
    requires forall p :: i <= p < |s| - 1 ==> !(s[p] == '{' && s[p + 1] == '{')
    ensures Scan(s, i) == []
    decreases |s| - i
  {
    if i < |s| {
      assert !OccursAt(s, i, "{{") by {
        if i + 2 <= |s| {
          assert s[i..i + 2][0] == s[i] && s[i..i + 2][1] == s[i + 1];
        }
      }
      NoOpeningBracesNoVars(s, i + 1);
    }
  }

  /** `extract_vars` of text without `{{` is empty. */
  lemma NoBracesNoVars(content: string)
    requires forall p :: 0 <= p < |content| - 1 ==> !(content[p] == '{' && content[p + 1] == '{')
    ensures ExtractVars(content) == []
  {
    NoOpeningBracesNoVars(content, 0);
  }

  /**
   * Braces whose content holds a character outside the class before the
   * closing braces (an upper-case letter, a digit) do not match there.
   */
  lemma OutOfClassBlocksMatch(s: string, i: nat, j: nat)
    requires OccursAt(s, i, "{{") && i + 2 <= j < |s|
    requires IsVarBody(s[i + 2..j]) && !IsVarChar(s[j]) && s[j] != '}'
    ensures MatchAt(s, i) == None
  {
    RunStopsAt(s, i + 2, j - (i + 2));
    assert s[i + 2..i + 2 + (j - (i + 2))] == s[i + 2..j];
    assert !OccursAt(s, j, "}}") by {
      if j + 2 <= |s| {
        assert s[j..j + 2][0] == s[j];
      }
    }
  }

  /** `str.strip()` of one padded name. */
  lemma StripExample()
    ensures Strip(" a.b ") == "a.b"
  {
    assert LeadingSpaces(" a.b ") == 1;
    assert TrailingSpaces(" a.b ") == 1;
  }

  /**
   * The first pair of `{{ a.b }}{{ B }}` is a match of ` a.b `. The text is
   * a parameter pinned by `requires`: with the literal in the ensures, the
   * verifier unfolds `RunLength` and `MatchAt` on it without bound.
   */
  lemma FirstMatchExample(s: string)
    requires s == "{{ a.b }}{{ B }}"
    ensures MatchAt(s, 0) == Some(" a.b ")
  {
    assert s[0..2] == "{{" && s[7..9] == "}}" && s[2..7] == " a.b ";
    RunStopsAt(s, 2, 5);
  }

  /** The second pair of `{{ a.b }}{{ B }}` holds an upper-case letter, so nothing matches from its start on. */
  lemma SecondPairExample()
    ensures Scan("{{ a.b }}{{ B }}", 9) == []
  {
    var s := "{{ a.b }}{{ B }}";
    assert s[9..11] == "{{" && s[11..12] == " ";
    OutOfClassBlocksMatch(s, 9, 12);
    NoOpeningBracesNoVars(s, 10);
  }

  /** The single match of a two-pair text whose second pair holds an upper-case letter. */
  lemma ScanExample()
    ensures Scan("{{ a.b }}{{ B }}", 0) == [Match(0, " a.b ")]
  {
    FirstMatchExample("{{ a.b }}{{ B }}");
    SecondPairExample();
  }

  /** Names are found in order and stripped; a name with an upper-case letter is skipped. */
  lemma ExtractVarsExample()
    ensures ExtractVars("{{ a.b }}{{ B }}") == ["a.b"]
  {
    ScanExample();
    StripExample();
  }
}
