/**
 * The ASCII part of the Kotlin string operations the converter relies on:
 * `isWhitespace`/`isBlank`, `trimStart`, `lowercase`, `startsWith`, `contains`
 * and `lines()`.
 */
module Text {

  /** Kotlin's `Char.isWhitespace` restricted to ASCII: tab, line feed, vertical tab,
      form feed, carriage return, the four information separators and space. */
  predicate IsWhitespace(c: char) {
    (9 <= c as int <= 13) || (28 <= c as int <= 32)
  }


  /** `trimStart()`: drops the leading whitespace and nothing else. */
  function TrimStart(s: string): (r: string)
    ensures |r| <= |s| && r == s[|s| - |r|..]
    ensures forall i :: 0 <= i < |s| - |r| ==> IsWhitespace(s[i])
    ensures r == [] || !IsWhitespace(r[0])
    decreases |s|
  {
    if s != [] && IsWhitespace(s[0]) then TrimStart(s[1..]) else s
  }

  /** `isBlank`: empty or whitespace only. */
  predicate IsBlank(s: string) {
    forall i :: 0 <= i < |s| ==> IsWhitespace(s[i])
  }

  /** A line is blank exactly when nothing is left once its leading whitespace is trimmed. */
  lemma BlankIffTrimmedEmpty(s: string)
    ensures IsBlank(s) <==> TrimStart(s) == []
  {
    var r := TrimStart(s);
    if r != [] {
      assert !IsWhitespace(s[|s| - |r|]);
    }
  }

  /** Trimming a line that is not blank leaves a line that is not blank. */
  lemma TrimStartNotBlank(s: string)
    requires !IsBlank(s)
    ensures !IsBlank(TrimStart(s)) && TrimStart(s) != []
  {
    var r := TrimStart(s);
    if r == [] {
      assert false;
    }
    assert !IsWhitespace(r[0]);
  }

  /** ASCII `Char.lowercaseChar()`: a capital becomes the small letter at the same
      place in the alphabet; every other character is kept. */
  function LowerChar(c: char): (d: char)
    ensures !('A' <= d <= 'Z')
    ensures 'A' <= c <= 'Z' ==> 'a' <= d <= 'z' && d as int - 'a' as int == c as int - 'A' as int
    ensures !('A' <= c <= 'Z') ==> d == c
  {
    if 'A' <= c <= 'Z' then (c as int + 32) as char else c
  }

  /** ASCII `lowercase()`: character by character. The result holds no capital, and
      a spelling in any letter case lowers to the same text
      (`Generator.MentionsFeatureAnyCase`). */
  function Lowercase(s: string): (r: string)
    ensures |r| == |s| && forall i :: 0 <= i < |s| ==> r[i] == LowerChar(s[i])
    ensures forall i :: 0 <= i < |r| ==> !('A' <= r[i] <= 'Z')
  {
    seq(|s|, i requires 0 <= i < |s| => LowerChar(s[i]))
  }

  /** Lower-casing commutes with dropping a prefix. */
  lemma LowercaseSuffix(s: string, k: nat)
    requires k <= |s|
    ensures Lowercase(s[k..]) == Lowercase(s)[k..]
  {
  }

  predicate StartsWith(s: string, prefix: string) {
    |prefix| <= |s| && s[..|prefix|] == prefix
  }

  /** `contains(pattern)`: the pattern starts at some position of `s`. */
  predicate Contains(s: string, pattern: string)
    ensures Contains(s, pattern) <==> exists k :: 0 <= k <= |s| && StartsWith(s[k..], pattern)
    decreases |s|
  {
    assert forall k :: 1 <= k <= |s| ==> s[1..][k - 1..] == s[k..];
    assert s[0..] == s;
    StartsWith(s, pattern) || (s != [] && Contains(s[1..], pattern))
  }

  /** A text contains whatever one of its suffixes contains. */
  lemma {:induction false} ContainsFromSuffix(s: string, k: nat, pattern: string)
    requires k <= |s| && Contains(s[k..], pattern)
    ensures Contains(s, pattern)
    decreases k
  {
    if k > 0 {
      assert s[1..][k - 1..] == s[k..];
      ContainsFromSuffix(s[1..], k - 1, pattern);
    }
  }

  /** A pattern found at position `k` of `s` is contained in `s`. */
  lemma {:induction false} ContainsAt(s: string, pattern: string, k: nat)
    requires k + |pattern| <= |s| && s[k..k + |pattern|] == pattern
    ensures Contains(s, pattern)
  {
    assert StartsWith(s[k..], pattern) by {
      assert s[k..][..|pattern|] == s[k..k + |pattern|];
    }
    ContainsFromSuffix(s, k, pattern);
  }

  predicate IsBreak(c: char) {
    c == '\n' || c == '\r'
  }

  predicate NoBreaks(s: string) {
    forall i :: 0 <= i < |s| ==> !IsBreak(s[i])
  }

  /**
   * Kotlin's `lines()`: splits at every "\r\n", "\n" and lone "\r". The empty text
   * is one empty line, and a trailing break yields a trailing empty line.
   */
  function Lines(s: string): (r: seq<string>)
    ensures |r| >= 1
    ensures forall i :: 0 <= i < |r| ==> NoBreaks(r[i])
    decreases |s|
  {
    if s == [] then [""]
    else if s[0] == '\n' then [""] + Lines(s[1..])
    else if s[0] == '\r' then
      if |s| > 1 && s[1] == '\n' then [""] + Lines(s[2..]) else [""] + Lines(s[1..])
    else
      var rest := Lines(s[1..]);
      [[s[0]] + rest[0]] + rest[1..]
  }

  /** The text with every "\r\n" and every lone "\r" turned into "\n". */
  function NormalizeBreaks(s: string): string
    decreases |s|
  {
    if s == [] then []
    else if s[0] == '\r' then
      if |s| > 1 && s[1] == '\n' then "\n" + NormalizeBreaks(s[2..]) else "\n" + NormalizeBreaks(s[1..])
    else [s[0]] + NormalizeBreaks(s[1..])
  }

  /** The lines glued back together with "\n". */
  function JoinLines(ls: seq<string>): string
    requires |ls| >= 1
    decreases |ls|
  {
    if |ls| == 1 then ls[0] else ls[0] + "\n" + JoinLines(ls[1..])
  }

  /** Splitting into lines loses only the kind of each line break. */
  lemma {:induction false} LinesRoundTrip(s: string)
    ensures JoinLines(Lines(s)) == NormalizeBreaks(s)
    decreases |s|
  {
    if s == [] {
    } else if s[0] == '\n' {
      LinesRoundTrip(s[1..]);
    } else if s[0] == '\r' {
      if |s| > 1 && s[1] == '\n' {
        LinesRoundTrip(s[2..]);
      } else {
        LinesRoundTrip(s[1..]);
      }
    } else {
      LinesRoundTrip(s[1..]);
      var rest := Lines(s[1..]);
      var ls := [[s[0]] + rest[0]] + rest[1..];
      assert Lines(s) == ls;
      if |rest| == 1 {
        assert JoinLines(ls) == [s[0]] + JoinLines(rest);
      } else {
        assert ls[1..] == rest[1..];
        calc {
          JoinLines(ls);
          ([s[0]] + rest[0]) + "\n" + JoinLines(rest[1..]);
          [s[0]] + (rest[0] + "\n" + JoinLines(rest[1..]));
          [s[0]] + JoinLines(rest);
        }
      }
    }
  }
}
