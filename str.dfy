/**
 The three methods of Rust's `str` that the search relies on, modelled on
 `seq<char>`: `contains` with a string pattern, `lines`, and `to_lowercase`
 (restricted to ASCII letters).
 */
module Str {

  /** `p` occurs in `s` starting at its first character. */
  predicate StartsWith(s: string, p: string) {
    |p| <= |s| && s[..|p|] == p
  }

  /** `str::contains` with a `&str` pattern: try every start position from left to right. */
  predicate Contains(s: string, p: string)
    decreases |s|
  {
    StartsWith(s, p) || (s != [] && Contains(s[1..], p))
  }

  /** `p` is a contiguous piece of `s`. */
  ghost predicate IsSubstring(p: string, s: string) {
    exists i, j :: 0 <= i <= j <= |s| && s[i..j] == p
  }

  /** Whatever the scan finds is a contiguous substring. */
  lemma {:induction false} ContainsFindsSubstring(s: string, p: string)
    requires Contains(s, p)
    ensures IsSubstring(p, s)
    decreases |s|
  {
    if StartsWith(s, p) {
      assert s[0..|p|] == p;
    } else {
      ContainsFindsSubstring(s[1..], p);
      var i, j :| 0 <= i <= j <= |s[1..]| && s[1..][i..j] == p;
      assert s[i + 1..j + 1] == p;
    }
  }

  /** The scan finds the piece `s[i..j]`. */
  lemma {:induction false} SubstringFound(s: string, p: string, i: nat, j: nat)
    requires i <= j <= |s| && s[i..j] == p
    ensures Contains(s, p)
    decreases i
  {
    if i == 0 {
      assert s[..|p|] == p;
    } else {
      assert s[1..][i - 1..j - 1] == p;
      SubstringFound(s[1..], p, i - 1, j - 1);
    }
  }

  /** The scan finds the pattern exactly when it is a contiguous substring; in particular "" is in every string. */
  lemma ContainsIsSubstring(s: string, p: string)
    ensures Contains(s, p) <==> IsSubstring(p, s)
  {
    if Contains(s, p) {
      ContainsFindsSubstring(s, p);
    }
    if IsSubstring(p, s) {
      var i, j :| 0 <= i <= j <= |s| && s[i..j] == p;
      SubstringFound(s, p, i, j);
    }
  }

  /** A pattern longer than the string is never found. */
  lemma {:induction false} ContainsNeedsRoom(s: string, p: string)
    requires |p| > |s|
    ensures !Contains(s, p)
    decreases |s|
  {
    if s != [] {
      ContainsNeedsRoom(s[1..], p);
    }
  }

  /** A pattern whose first character does not occur in `s` is not found. */
  lemma {:induction false} NotContainsFirst(s: string, p: string)
    requires p != [] && p[0] !in s
    ensures !Contains(s, p)
    decreases |s|
  {
    if s != [] {
      assert s[0] in s;
      NotContainsFirst(s[1..], p);
      if |p| <= |s| {
        assert s[..|p|][0] == s[0];
      }
    }
  }

  /**
   A pattern of two or more characters whose first character occurs in `s`
   only at `k`, where the second does not follow it, is not found.
   */
  lemma {:induction false} NotContainsPastPair(s: string, p: string, k: nat)
    requires |p| >= 2 && k + 1 < |s| && p[0] !in s[..k] && s[k + 1] != p[1] && p[0] !in s[k + 1..]
    ensures !Contains(s, p)
    decreases k
  {
    if k == 0 {
      NotContainsFirst(s[1..], p);
      if |p| <= |s| {
        assert s[..|p|][1] == s[1];
      }
    } else {
      assert s[0] in s[..k];
      assert s[1..][..k - 1] == s[1..k];
      assert s[1..][k..] == s[k + 1..];
      assert forall c :: c in s[1..k] ==> c in s[..k];
      NotContainsPastPair(s[1..], p, k - 1);
      if |p| <= |s| {
        assert s[..|p|][0] == s[0];
      }
    }
  }

  predicate IsUpper(c: char) {
    'A' <= c <= 'Z'
  }

  /** `char::to_lowercase` on ASCII letters; every other character is left as it is. */
  function LowerChar(c: char): char {
    if IsUpper(c) then (c as int - 'A' as int + 'a' as int) as char else c
  }

  /** `str::to_lowercase`, ASCII letters only. */
  function Lower(s: string): (r: string)
    ensures |r| == |s|
    ensures forall i :: 0 <= i < |r| ==> !IsUpper(r[i])
    ensures forall i :: 0 <= i < |r| ==> r[i] == s[i] || (IsUpper(s[i]) && r[i] as int == s[i] as int + 32)
  {
    seq(|s|, i requires 0 <= i < |s| => LowerChar(s[i]))
  }

  /** Lowercasing twice is lowercasing once. */
  lemma LowerIdempotent(s: string)
    ensures Lower(Lower(s)) == Lower(s)
  {
    assert forall i :: 0 <= i < |s| ==> Lower(Lower(s))[i] == Lower(s)[i];
  }

  /** Number of line feeds in `s`. */
  function Newlines(s: string): nat {
    if s == [] then 0 else (if s[0] == '\n' then 1 else 0) + Newlines(s[1..])
  }

  /** Index of the first line feed of `s`, or `|s|` when there is none. */
  function LineEnd(s: string): (k: nat)
    ensures k <= |s|
  {
    if s == [] || s[0] == '\n' then 0 else 1 + LineEnd(s[1..])
  }

  /** `LineEnd` stops at the first line feed, or at the end when there is none. */
  lemma {:induction false} LineEndIsFirstFeed(s: string)
    ensures LineEnd(s) < |s| ==> s[LineEnd(s)] == '\n'
    ensures forall j :: 0 <= j < LineEnd(s) ==> s[j] != '\n'
    decreases |s|
  {
    if s != [] && s[0] != '\n' {
      LineEndIsFirstFeed(s[1..]);
      assert forall j :: 1 <= j < LineEnd(s) ==> s[j] == s[1..][j - 1];
    }
  }

  /** The line ends with a carriage return. */
  predicate EndsWithCr(line: string) {
    line != [] && line[|line| - 1] == '\r'
  }

  /** Drops one trailing carriage return, as `lines` does after removing a line feed. */
  function StripCr(line: string): string {
    if EndsWithCr(line) then line[..|line| - 1] else line
  }

  /** A prefix free of line feeds does not change the count. */
  lemma {:induction false} NewlinesAfterPrefix(s: string, k: nat)
    requires k <= |s|
    requires forall j :: 0 <= j < k ==> s[j] != '\n'
    ensures Newlines(s) == Newlines(s[k..])
  {
    if k > 0 {
      NewlinesAfterPrefix(s[1..], k - 1);
      assert s[1..][k - 1..] == s[k..];
    }
  }

  /**
   `str::lines`: the pieces of `s` ended by '\n' (the last may lack it), each
   with its '\n' removed and then, if present, the '\r' before it. A final line
   without '\n' keeps a trailing '\r'.
   */
  function Lines(s: string): seq<string>
    decreases |s|
  {
    if s == [] then []
    else
      var k := LineEnd(s);
      if k == |s| then [s] else [StripCr(s[..k])] + Lines(s[k + 1..])
  }

  /**
   Every line is free of line feeds, and there is one line per line feed plus
   one for an unterminated last line: "" has no lines, and a final '\n' adds
   no empty line.
   */
  lemma {:induction false} LinesShape(s: string)
    ensures forall i :: 0 <= i < |Lines(s)| ==> '\n' !in Lines(s)[i]
    ensures |Lines(s)| == Newlines(s) + (if s != [] && s[|s| - 1] != '\n' then 1 else 0)
    decreases |s|
  {
    if s != [] {
      var k := LineEnd(s);
      LineEndIsFirstFeed(s);
      NewlinesAfterPrefix(s, k);
      if k < |s| {
        var rest := s[k + 1..];
        assert s[k..][1..] == rest;
        LinesShape(rest);
        LinesFirst(s, k);
        assert '\n' !in StripCr(s[..k]);
      }
    }
  }

  /** Each line followed by `eol`, all concatenated. */
  function Terminated(ls: seq<string>, eol: string): string {
    if ls == [] then [] else ls[0] + eol + Terminated(ls[1..], eol)
  }

  /** Lines that `Lines` can give back unchanged after joining them with `eol`. */
  predicate Joinable(ls: seq<string>, eol: string) {
    && (eol == "\n" || eol == "\r\n")
    && (forall i :: 0 <= i < |ls| ==> '\n' !in ls[i])
    && (eol == "\n" ==> forall i :: 0 <= i < |ls| ==> !EndsWithCr(ls[i]))
  }

  /** `LineEnd` finds the first line feed. */
  lemma {:induction false} LineEndAt(s: string, k: nat)
    requires k <= |s| && (k < |s| ==> s[k] == '\n')
    requires forall j :: 0 <= j < k ==> s[j] != '\n'
    ensures LineEnd(s) == k
    decreases k
  {
    if k > 0 {
      assert s[0] != '\n';
      assert forall j :: 0 <= j < k - 1 ==> s[1..][j] == s[j + 1];
      LineEndAt(s[1..], k - 1);
    }
  }

  /** The first line of a text that starts with `line` and `eol`. */
  lemma FirstLine(line: string, eol: string, rest: string)
    requires eol == "\n" || eol == "\r\n"
    requires '\n' !in line
    requires eol == "\n" ==> !EndsWithCr(line)
    ensures Lines(line + eol + rest) == [line] + Lines(rest)
  {
    var s := line + eol + rest;
    var k := |line + eol| - 1;
    assert s[k] == '\n';
    assert forall j :: 0 <= j < k ==> s[j] != '\n' by {
      forall j | 0 <= j < k ensures s[j] != '\n' {
        if j < |line| {
          assert s[j] == line[j];
        }
      }
    }
    LineEndAt(s, k);
    assert s[k + 1..] == rest;
    if eol == "\n" {
      assert s[..k] == line;
    } else {
      assert s[..k] == line + "\r";
      assert StripCr(line + "\r") == line;
    }
  }

  lemma JoinableTail(ls: seq<string>, eol: string)
    requires ls != [] && Joinable(ls, eol)
    ensures Joinable(ls[1..], eol) && '\n' !in ls[0] && (eol == "\n" ==> !EndsWithCr(ls[0]))
  {
    assert forall i :: 0 <= i < |ls[1..]| ==> ls[1..][i] == ls[i + 1];
  }

  /** Round trip: the lines of lines joined with "\n" or "\r\n" are those lines; no empty last line appears. */
  lemma {:induction false} LinesOfTerminated(ls: seq<string>, eol: string)
    requires Joinable(ls, eol)
    ensures Lines(Terminated(ls, eol)) == ls
  {
    if ls != [] {
      JoinableTail(ls, eol);
      LinesOfTerminated(ls[1..], eol);
      FirstLine(ls[0], eol, Terminated(ls[1..], eol));
    }
  }

  /** A nonempty text without line feeds is one line, kept verbatim. */
  lemma SingleLine(line: string)
    requires line != [] && '\n' !in line
    ensures Lines(line) == [line]
  {
    assert forall j :: 0 <= j < |line| ==> line[j] != '\n';
    LineEndAt(line, |line|);
  }

  /** Splitting the first line off a joined text. */
  lemma TerminatedFirst(ls: seq<string>, eol: string, last: string)
    requires ls != []
    ensures Terminated(ls, eol) + last == ls[0] + eol + (Terminated(ls[1..], eol) + last)
  {
  }

  lemma HeadTailAppend<T>(s: seq<T>, x: T)
    requires s != []
    ensures [s[0]] + (s[1..] + [x]) == s + [x]
  {
  }

  /** One step of the round trip below: a first line put in front of a text whose lines are known. */
  lemma UnterminatedStep(ls: seq<string>, eol: string, last: string)
    requires ls != [] && Joinable(ls, eol)
    requires Lines(Terminated(ls[1..], eol) + last) == ls[1..] + [last]
    ensures Lines(Terminated(ls, eol) + last) == ls + [last]
  {
    JoinableTail(ls, eol);
    var rest := Terminated(ls[1..], eol) + last;
    TerminatedFirst(ls, eol, last);
    FirstLine(ls[0], eol, rest);
    HeadTailAppend(ls, last);
  }

  /** Round trip with a last line that has no terminator: it still counts, and keeps any trailing '\r'. */
  lemma {:induction false} LinesOfUnterminated(ls: seq<string>, eol: string, last: string)
    requires Joinable(ls, eol)
    requires last != [] && '\n' !in last
    ensures Lines(Terminated(ls, eol) + last) == ls + [last]
  {
    if ls == [] {
      assert Terminated(ls, eol) + last == last;
      SingleLine(last);
    } else {
      JoinableTail(ls, eol);
      LinesOfUnterminated(ls[1..], eol, last);
      UnterminatedStep(ls, eol, last);
    }
  }

  lemma SliceOfSuffix(s: string, d: nat, a: nat, b: nat)
    requires d <= |s| && a <= b <= |s| - d
    ensures s[d..][a..b] == s[d + a..d + b]
  {
  }

  /** The line cut off by the first line feed, at `k`, is a piece of the text. */
  lemma FirstLineIsSubstring(s: string, k: nat)
    requires k <= |s|
    ensures IsSubstring(StripCr(s[..k]), s)
  {
    if EndsWithCr(s[..k]) {
      assert s[0..k - 1] == StripCr(s[..k]);
    } else {
      assert s[0..k] == StripCr(s[..k]);
    }
  }

  /** `Lines` cuts the first line at the first line feed and goes on after it. */
  lemma LinesFirst(s: string, k: nat)
    requires k == LineEnd(s) && k < |s|
    ensures Lines(s) == [StripCr(s[..k])] + Lines(s[k + 1..])
  {
  }

  /** A piece of a suffix is a piece of the whole. */
  lemma SubstringOfSuffix(p: string, s: string, d: nat)
    requires d <= |s| && IsSubstring(p, s[d..])
    ensures IsSubstring(p, s)
  {
    var a, b :| 0 <= a <= b <= |s[d..]| && s[d..][a..b] == p;
    SliceOfSuffix(s, d, a, b);
  }

  /** A text without line feeds is its only line. */
  lemma LinesNoFeed(s: string)
    requires s != [] && LineEnd(s) == |s|
    ensures Lines(s) == [s]
  {
  }

  /** A line after the first is a piece of the text after the first line feed, so of the text. */
  lemma LaterLineIsSubstring(s: string, k: nat, i: nat)
    requires k == LineEnd(s) && k < |s| && 0 < i < |Lines(s)|
    requires i - 1 < |Lines(s[k + 1..])|
    requires IsSubstring(Lines(s[k + 1..])[i - 1], s[k + 1..])
    ensures IsSubstring(Lines(s)[i], s)
  {
    var rest := s[k + 1..];
    LinesFirst(s, k);
    assert Lines(s)[i] == Lines(rest)[i - 1];
    SubstringOfSuffix(Lines(rest)[i - 1], s, k + 1);
  }

  /** Every line is a verbatim piece of the text (a borrowed view of it in the source). */
  lemma {:induction false} LineIsSubstring(s: string, i: nat)
    requires i < |Lines(s)|
    ensures IsSubstring(Lines(s)[i], s)
    decreases |s|
  {
    var k := LineEnd(s);
    if s == [] {
    } else if k == |s| {
      LinesNoFeed(s);
      assert s[0..|s|] == s;
    } else if i == 0 {
      LinesFirst(s, k);
      FirstLineIsSubstring(s, k);
    } else {
      LinesFirst(s, k);
      LineIsSubstring(s[k + 1..], i - 1);
      LaterLineIsSubstring(s, k, i);
    }
  }
}
