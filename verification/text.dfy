/**
 The string operations the section extractor is built from, with the meaning
 of the Rust `str` methods it calls: `trim`, `find`, `lines`, `join` and
 `to_lowercase`. Strings are sequences of characters; offsets are character
 offsets (equal to Rust's byte offsets on ASCII text).
 */
module Text {
  import opened Wrappers
  import opened Seqs

  /** `char::is_whitespace`: the characters with the Unicode White_Space property. */
  predicate IsWhitespace(c: char) {
    || c == ' '
    || '\t' <= c <= '\r'
    || c == '\U{85}' || c == '\U{A0}' || c == '\U{1680}'
    || '\U{2000}' <= c <= '\U{200A}'
    || c == '\U{2028}' || c == '\U{2029}' || c == '\U{202F}' || c == '\U{205F}' || c == '\U{3000}'
  }

  /** Every character is whitespace (the empty string included). */
  predicate Blank(s: string) {
    forall i :: 0 <= i < |s| ==> IsWhitespace(s[i])
  }

  /** `pat` occurs in `s` starting at offset `i`. */
  predicate OccursAt(s: string, pat: string, i: int) {
    0 <= i && i + |pat| <= |s| && s[i..i + |pat|] == pat
  }

  /** `str::contains`. */
  predicate Contains(s: string, pat: string) {
    exists i :: 0 <= i <= |s| && OccursAt(s, pat, i)
  }

  function NewlineCount(s: string): nat {
    multiset(s)['\n']
  }

  // ---------------------------------------------------------------- trim

  /** How many whitespace characters open `s`. */
  function LeadingWhitespace(s: string): (n: nat)
    ensures n <= |s|
    ensures forall i :: 0 <= i < n ==> IsWhitespace(s[i])
    ensures n < |s| ==> !IsWhitespace(s[n])
  {
    if |s| == 0 || !IsWhitespace(s[0]) then 0 else 1 + LeadingWhitespace(s[1..])
  }

  /** How many whitespace characters close `s`. */
  function TrailingWhitespace(s: string): (n: nat)
    ensures n <= |s|
    ensures forall i :: |s| - n <= i < |s| ==> IsWhitespace(s[i])
    ensures n < |s| ==> !IsWhitespace(s[|s| - n - 1])
  {
    if |s| == 0 || !IsWhitespace(s[|s| - 1]) then 0 else 1 + TrailingWhitespace(s[..|s| - 1])
  }

  /** `str::trim`: the infix of `s` left after dropping whitespace at both ends. */
  function Trim(s: string): (r: string)
    ensures r == [] <==> Blank(s)
    ensures r != [] ==> !IsWhitespace(r[0]) && !IsWhitespace(r[|r| - 1])
    ensures Contains(s, r)
    ensures exists lo, hi :: 0 <= lo <= hi <= |s| && r == s[lo..hi] && Blank(s[..lo]) && Blank(s[hi..])
  {
    var lo := LeadingWhitespace(s);
    var hi := |s| - TrailingWhitespace(s[lo..]);
    assert OccursAt(s, s[lo..hi], lo);
    assert lo < |s| ==> hi > lo && !Blank(s);
    assert Blank(s[..lo]);
    assert forall i :: 0 <= i < |s| - hi ==> s[hi..][i] == s[lo..][hi - lo + i];
    assert Blank(s[hi..]);
    s[lo..hi]
  }

  /**
   Trimming is the only way to cut whitespace from both ends down to a text
   that is empty or has non-whitespace at both ends: any such infix of `s` is `Trim(s)`.
   */
  lemma TrimUnique(s: string, lo: nat, hi: nat)
    requires lo <= hi <= |s|
    requires Blank(s[..lo]) && Blank(s[hi..])
    requires lo == hi || (!IsWhitespace(s[lo]) && !IsWhitespace(s[hi - 1]))
    ensures Trim(s) == s[lo..hi]
  {
    if lo == hi {
      forall i | 0 <= i < |s| ensures IsWhitespace(s[i]) {
        if i < lo { assert s[i] == s[..lo][i]; } else { assert s[i] == s[hi..][i - hi]; }
      }
    } else {
      var lead := LeadingWhitespace(s);
      assert lead == lo;
      var rest := s[lo..];
      var trail := TrailingWhitespace(rest);
      assert rest[|rest| - (|s| - hi) - 1] == s[hi - 1];
      assert trail == |s| - hi;
    }
  }

  /** Trimming twice is trimming once. */
  lemma TrimIdempotent(s: string)
    ensures Trim(Trim(s)) == Trim(s)
  {
    var r := Trim(s);
    TrimUnique(r, 0, |r|);
    assert r[..0] == [] && r[|r|..] == [] && r[0..|r|] == r;
  }

  // ---------------------------------------------------------------- find

  /** First occurrence of `pat` at or after offset `from`. */
  function FindFrom(s: string, pat: string, from: nat): (r: Option<nat>)
    ensures r.Some? ==> from <= r.value && OccursAt(s, pat, r.value)
    ensures r.Some? ==> forall j :: from <= j < r.value ==> !OccursAt(s, pat, j)
    ensures r.None? ==> forall j :: from <= j ==> !OccursAt(s, pat, j)
    decreases |s| - from
  {
    if from + |pat| > |s| then None
    else if s[from..from + |pat|] == pat then Some(from)
    else FindFrom(s, pat, from + 1)
  }

  /** `str::find`: the offset of the first occurrence of `pat`, if any. */
  function Find(s: string, pat: string): (r: Option<nat>)
    ensures r.Some? <==> Contains(s, pat)
    ensures r.Some? ==> OccursAt(s, pat, r.value)
    ensures r.Some? ==> forall j :: 0 <= j < r.value ==> !OccursAt(s, pat, j)
  {
    FindFrom(s, pat, 0)
  }

  /** A pattern that is not contained occurs nowhere. */
  lemma NoOccurrence(s: string, pat: string)
    requires !Contains(s, pat)
    ensures forall i :: !OccursAt(s, pat, i)
  {
  }

  /** A one-character pattern occurs exactly where that character stands. */
  lemma OccursAtChar(s: string, c: char, i: int)
    requires 0 <= i < |s|
    ensures OccursAt(s, [c], i) <==> s[i] == c
  {
    assert s[i..i + 1] == [s[i]];
  }

  /** Every character in front of the first newline is not a newline. */
  lemma {:induction false} NoNewlineBeforeFirst(s: string, i: nat)
    requires forall j :: 0 <= j < i ==> !OccursAt(s, "\n", j)
    requires i <= |s|
    ensures '\n' !in s[..i]
  {
    forall j | 0 <= j < i
      ensures s[j] != '\n'
    {
      OccursAtChar(s, '\n', j);
    }
  }

  /** Occurrence is transitive: a pattern inside an infix of `s` is inside `s`. */
  lemma ContainsTransitive(s: string, mid: string, pat: string)
    requires Contains(s, mid) && Contains(mid, pat)
    ensures Contains(s, pat)
  {
    var p :| 0 <= p <= |s| && OccursAt(s, mid, p);
    var q :| 0 <= q <= |mid| && OccursAt(mid, pat, q);
    assert mid == s[p..p + |mid|];
    assert pat == mid[q..q + |pat|];
    forall k | 0 <= k < |pat| ensures pat[k] == s[p + q + k] {
      assert pat[k] == mid[q + k];
    }
    assert s[p + q..p + q + |pat|] == pat;
    assert OccursAt(s, pat, p + q);
  }

  // ---------------------------------------------------------------- lines and join

  /** Drops one carriage return that ends a line. */
  function StripCr(line: string): string {
    if |line| > 0 && line[|line| - 1] == '\r' then line[..|line| - 1] else line
  }

  /**
   `str::lines`: the pieces between newlines, each with one "\r" removed from
   before its "\n"; a final newline does not open an empty last line.
   */
  function Lines(s: string): (r: seq<string>)
    ensures forall k :: 0 <= k < |r| ==> '\n' !in r[k]
    ensures r == [] <==> s == []
    decreases |s|
  {
    if s == [] then []
    else match Find(s, "\n")
      case None =>
        NoNewlineBeforeFirst(s, |s|);
        [s]
      case Some(i) =>
        NoNewlineBeforeFirst(s, i);
        [StripCr(s[..i])] + Lines(s[i + 1..])
  }

  /** A text splits into lines at its first newline, whatever precedes it. */
  lemma LinesAtFirstNewline(s: string, i: nat)
    requires i < |s| && s[i] == '\n' && '\n' !in s[..i]
    ensures Lines(s) == [StripCr(s[..i])] + Lines(s[i + 1..])
  {
    OccursAtChar(s, '\n', i);
    forall j | 0 <= j < i ensures !OccursAt(s, "\n", j) {
      OccursAtChar(s, '\n', j);
      assert s[j] == s[..i][j];
    }
  }

  /** A newline-free text is one line, kept whole (a final "\r" included). */
  lemma LinesOfOneLine(a: string)
    requires a != [] && '\n' !in a
    ensures Lines(a) == [a]
  {
    NoOccurrenceOfAbsentChar(a, '\n');
  }

  /** A character that is absent occurs nowhere as a one-character pattern. */
  lemma NoOccurrenceOfAbsentChar(a: string, c: char)
    requires c !in a
    ensures !Contains(a, [c])
  {
    forall i | 0 <= i < |a| ensures !OccursAt(a, [c], i) {
      OccursAtChar(a, c, i);
    }
  }

  /** A line ended by "\r\n" loses both: the carriage return is not part of the line. */
  lemma LinesCrLf(a: string, rest: string)
    requires '\n' !in a
    ensures Lines(a + "\r\n" + rest) == [a] + Lines(rest)
  {
    var s := a + "\r\n" + rest;
    var i := |a| + 1;
    assert s[..i] == a + "\r";
    assert s[i + 1..] == rest;
    LinesAtFirstNewline(s, i);
  }

  /** A line ended by "\n" alone, not after a carriage return, is kept as it is. */
  lemma LinesLf(a: string, rest: string)
    requires '\n' !in a && (a == [] || a[|a| - 1] != '\r')
    ensures Lines(a + "\n" + rest) == [a] + Lines(rest)
  {
    var s := a + "\n" + rest;
    assert s[..|a|] == a;
    assert s[|a| + 1..] == rest;
    LinesAtFirstNewline(s, |a|);
  }

  /** `[String]::join`. */
  function Join(parts: seq<string>, sep: string): string {
    if |parts| == 0 then ""
    else if |parts| == 1 then parts[0]
    else parts[0] + sep + Join(parts[1..], sep)
  }

  /** Joining newline-free lines with "\n" puts exactly one newline between neighbours. */
  lemma {:induction false} JoinLinesNewlines(parts: seq<string>)
    requires forall k :: 0 <= k < |parts| ==> '\n' !in parts[k]
    ensures NewlineCount(Join(parts, "\n")) == if parts == [] then 0 else |parts| - 1
  {
    if |parts| > 1 {
      JoinLinesNewlines(parts[1..]);
      assert multiset(parts[0] + "\n" + Join(parts[1..], "\n"))
          == multiset(parts[0]) + multiset("\n") + multiset(Join(parts[1..], "\n"));
    }
  }

  /** At most `k` lines joined by "\n" hold fewer than `k` newlines. */
  lemma FirstLinesNewlines(s: string, k: nat)
    requires k > 0
    ensures NewlineCount(Join(Take(Lines(s), k), "\n")) < k
  {
    var parts := Take(Lines(s), k);
    assert forall j :: 0 <= j < |parts| ==> parts[j] == Lines(s)[j];
    JoinLinesNewlines(parts);
  }

  /** Without carriage returns, the first `k` lines re-joined are a prefix of the text. */
  lemma {:induction false} FirstLinesArePrefix(s: string, k: nat)
    requires '\r' !in s
    ensures Join(Take(Lines(s), k), "\n") <= s
    decreases |s|
  {
    if s != [] && k > 0 {
      match Find(s, "\n")
      case None =>
      case Some(i) =>
        var rest := s[i + 1..];
        FirstLineSplit(s, i);
        var tail := Take(Lines(rest), k - 1);
        assert Take(Lines(s), k) == [s[..i]] + tail;
        if tail != [] {
          FirstLinesArePrefix(rest, k - 1);
          JoinCons(s[..i], tail);
        }
    }
  }

  /** A text without carriage returns splits at its first newline into the first line, "\n" and a rest without carriage returns. */
  lemma FirstLineSplit(s: string, i: nat)
    requires '\r' !in s
    requires Find(s, "\n") == Some(i)
    ensures Lines(s) == [s[..i]] + Lines(s[i + 1..])
    ensures s == s[..i] + "\n" + s[i + 1..]
    ensures '\r' !in s[i + 1..]
  {
    assert '\r' !in s[..i];
    assert StripCr(s[..i]) == s[..i];
    OccursAtChar(s, '\n', i);
    var rest := s[i + 1..];
    forall j | 0 <= j < |rest| ensures rest[j] != '\r' {
      assert rest[j] == s[i + 1 + j];
    }
  }

  /**
   Without carriage returns, splitting into lines and joining them with "\n"
   gives the text back, less the newline that may end it.
   */
  lemma {:induction false} LinesRoundTrip(s: string)
    requires '\r' !in s
    ensures Join(Lines(s), "\n") == s || Join(Lines(s), "\n") + "\n" == s
    decreases |s|
  {
    if s != [] {
      match Find(s, "\n")
      case None =>
      case Some(i) =>
        var rest := s[i + 1..];
        FirstLineSplit(s, i);
        if rest != [] {
          LinesRoundTrip(rest);
          JoinCons(s[..i], Lines(rest));
        }
    }
  }

  /**
   `r` is `s` cut after its first `k` lines (or all of `s` when it has fewer),
   without the newline that ends the last line kept.
   */
  predicate IsFirstLines(s: string, r: string, k: nat) {
    && r <= s
    && NewlineCount(r) < k
    && (|| (r == s && (s == [] || s[|s| - 1] != '\n'))
        || r + "\n" == s
        || (r + "\n" <= s && NewlineCount(r) == k - 1))
  }

  /** Without carriage returns, the first `k` lines re-joined are exactly `s` cut after its `k`-th line. */
  lemma {:induction false} FirstLinesShape(s: string, k: nat)
    requires '\r' !in s
    requires k > 0
    ensures IsFirstLines(s, Join(Take(Lines(s), k), "\n"), k)
    decreases |s|
  {
    if s != [] {
      match Find(s, "\n")
      case None =>
        NoNewlineBeforeFirst(s, |s|);
        assert s[..|s|] == s;
        FirstLinesWhole(s, k);
      case Some(i) =>
        var line := s[..i];
        var rest := s[i + 1..];
        FirstLineSplit(s, i);
        NoNewlineBeforeFirst(s, i);
        var tail := Take(Lines(rest), k - 1);
        assert Take(Lines(s), k) == [line] + tail;
        if tail == [] {
          FirstLinesStop(line, rest, k);
        } else {
          FirstLinesShape(rest, k - 1);
          JoinCons(line, tail);
          FirstLinesStep(line, rest, Join(tail, "\n"), k);
        }
    }
  }

  /** A single newline-free line is all of its first lines. */
  lemma FirstLinesWhole(s: string, k: nat)
    requires '\n' !in s && k > 0
    ensures IsFirstLines(s, s, k)
  {
    assert multiset(s)['\n'] == 0;
    assert s != [] ==> s[|s| - 1] in s;
  }

  /** The first line alone, newline-free, is `s` cut after its first line (or after its last, when nothing follows). */
  lemma FirstLinesStop(line: string, rest: string, k: nat)
    requires '\n' !in line
    requires k > 0 && (k == 1 || rest == [])
    ensures IsFirstLines(line + "\n" + rest, line, k)
  {
    assert multiset(line)['\n'] == 0;
    assert line + "\n" <= line + "\n" + rest;
  }

  /** One more line in front keeps the shape, with one more newline. */
  lemma FirstLinesStep(line: string, rest: string, r': string, k: nat)
    requires '\n' !in line
    requires k > 1 && rest != []
    requires IsFirstLines(rest, r', k - 1)
    ensures IsFirstLines(line + "\n" + rest, line + "\n" + r', k)
  {
    var s := line + "\n" + rest;
    var r := line + "\n" + r';
    assert multiset(line)['\n'] == 0;
    assert multiset(r) == multiset(line) + multiset("\n") + multiset(r');
    assert s == (line + "\n") + rest;
    assert r == (line + "\n") + r';
    assert s[|s| - 1] == rest[|rest| - 1];
    if r' + "\n" <= rest {
      assert r + "\n" == (line + "\n") + (r' + "\n");
    }
  }

  lemma JoinCons(head: string, tail: seq<string>)
    requires tail != []
    ensures Join([head] + tail, "\n") == head + "\n" + Join(tail, "\n")
  {
    assert ([head] + tail)[1..] == tail;
  }

  // ---------------------------------------------------------------- lowercase

  /** ASCII lowercase; every other character is left as it is. */
  function LowerChar(c: char): char {
    if 'A' <= c <= 'Z' then (c as int - 'A' as int + 'a' as int) as char else c
  }

  predicate IsCapital(c: char) {
    'A' <= c <= 'Z'
  }

  const Capitals := "ABCDEFGHIJKLMNOPQRSTUVWXYZ"
  const Smalls := "abcdefghijklmnopqrstuvwxyz"

  /**
   `str::to_lowercase`, restricted to ASCII letters, so the length never
   changes: each capital becomes the small letter at the same place in the
   alphabet, no capital is left, and every other character stays.
   */
  function ToLower(s: string): (r: string)
    ensures |r| == |s|
    ensures forall i :: 0 <= i < |s| ==> r[i] == LowerChar(s[i])
    ensures forall i :: 0 <= i < |r| ==> !IsCapital(r[i])
    ensures forall i :: 0 <= i < |s| ==> (r[i] == s[i] <==> !IsCapital(s[i]))
    ensures forall i, k :: 0 <= i < |s| && 0 <= k < |Capitals| && s[i] == Capitals[k] ==> r[i] == Smalls[k]
  {
    LowerCharAlphabet();
    seq(|s|, i requires 0 <= i < |s| => LowerChar(s[i]))
  }

  /** Lowercasing maps the alphabet of capitals onto the alphabet of small letters, letter by letter. */
  lemma LowerCharAlphabet()
    ensures |Capitals| == |Smalls| == 26
    ensures forall k :: 0 <= k < |Capitals| ==> LowerChar(Capitals[k]) == Smalls[k]
  {
  }

  /** Lowercasing twice is lowercasing once. */
  lemma ToLowerIdempotent(s: string)
    ensures ToLower(ToLower(s)) == ToLower(s)
  {
  }

  /** A text without capitals is its own lowercase. */
  lemma ToLowerKeepsSmall(s: string)
    requires forall i :: 0 <= i < |s| ==> !IsCapital(s[i])
    ensures ToLower(s) == s
  {
  }
}
