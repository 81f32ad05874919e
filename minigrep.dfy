/**
 The library of the `minigrep` command: building the configuration from the
 command line, the case-sensitive and case-insensitive line searches, and the
 choice between them that `run` makes. Reading the file and printing are left
 to the caller: `run` is modelled from the point where the contents are in
 memory.
 */
module Minigrep {
  import opened Str

  /** Whether `line` is kept for `query`; with `ignoreCase` both sides are lowercased first. */
  predicate Matches(line: string, query: string, ignoreCase: bool) {
    if ignoreCase then Contains(Lower(line), Lower(query)) else Contains(line, query)
  }

  /**
   The lines of `ls` that match, in their order, each one unchanged. Defined
   from the back, as a loop that appends to its result builds it.
   */
  function Select(ls: seq<string>, query: string, ignoreCase: bool): (r: seq<string>)
    ensures |r| <= |ls|
    ensures forall k :: 0 <= k < |r| ==> r[k] in ls && Matches(r[k], query, ignoreCase)
    decreases |ls|
  {
    if ls == [] then []
    else
      var init := ls[..|ls| - 1];
      var last := ls[|ls| - 1];
      assert forall k :: 0 <= k < |init| ==> init[k] == ls[k];
      Select(init, query, ignoreCase) + (if Matches(last, query, ignoreCase) then [last] else [])
  }

  /** Appending a line extends the selection by that line exactly when it matches. */
  lemma SelectAppend(ls: seq<string>, line: string, query: string, ignoreCase: bool)
    ensures Select(ls + [line], query, ignoreCase)
         == Select(ls, query, ignoreCase) + (if Matches(line, query, ignoreCase) then [line] else [])
  {
    assert (ls + [line])[..|ls|] == ls;
  }

  ghost predicate Increasing(idx: seq<nat>) {
    forall a, b :: 0 <= a < b < |idx| ==> idx[a] < idx[b]
  }

  /**
   `r` is the subsequence of `ls` at the positions `idx`: those positions
   increase, and they are exactly the positions whose line matches.
   */
  ghost predicate SelectsAt(r: seq<string>, ls: seq<string>, query: string, ignoreCase: bool, idx: seq<nat>) {
    && |idx| == |r|
    && Increasing(idx)
    && (forall k :: 0 <= k < |idx| ==> idx[k] < |ls| && r[k] == ls[idx[k]])
    && (forall i :: 0 <= i < |ls| ==> (Matches(ls[i], query, ignoreCase) <==> i in idx))
  }

  /** The positions of the matching lines, in increasing order. */
  ghost function Positions(ls: seq<string>, query: string, ignoreCase: bool): seq<nat>
    decreases |ls|
  {
    if ls == [] then []
    else
      Positions(ls[..|ls| - 1], query, ignoreCase)
      + (if Matches(ls[|ls| - 1], query, ignoreCase) then [|ls| - 1] else [])
  }

  /** Appending a line that does not match keeps the selection and its positions. */
  lemma SelectsAtSkipNew(r: seq<string>, ls: seq<string>, line: string, query: string, ignoreCase: bool, idx: seq<nat>)
    requires !Matches(line, query, ignoreCase)
    requires SelectsAt(r, ls, query, ignoreCase, idx)
    ensures SelectsAt(r, ls + [line], query, ignoreCase, idx)
  {
    assert forall i :: 0 <= i < |ls| ==> (ls + [line])[i] == ls[i];
    assert forall k :: 0 <= k < |idx| ==> idx[k] != |ls|;
  }

  /** Appending a line that matches appends it to the selection, at the next position. */
  lemma SelectsAtKeepNew(r: seq<string>, ls: seq<string>, line: string, query: string, ignoreCase: bool, idx: seq<nat>)
    requires Matches(line, query, ignoreCase)
    requires SelectsAt(r, ls, query, ignoreCase, idx)
    ensures SelectsAt(r + [line], ls + [line], query, ignoreCase, idx + [|ls|])
  {
    assert forall i :: 0 <= i < |ls| ==> (ls + [line])[i] == ls[i];
    assert forall i :: 0 <= i < |ls| ==> (i in idx <==> i in idx + [|ls|]);
  }

  lemma {:induction false} SelectsAtPositions(ls: seq<string>, query: string, ignoreCase: bool)
    ensures SelectsAt(Select(ls, query, ignoreCase), ls, query, ignoreCase, Positions(ls, query, ignoreCase))
    decreases |ls|
  {
    if ls != [] {
      var n := |ls| - 1;
      var init := ls[..n];
      SelectsAtPositions(init, query, ignoreCase);
      assert init + [ls[n]] == ls;
      if Matches(ls[n], query, ignoreCase) {
        SelectsAtKeepNew(Select(init, query, ignoreCase), init, ls[n], query, ignoreCase, Positions(init, query, ignoreCase));
      } else {
        SelectsAtSkipNew(Select(init, query, ignoreCase), init, ls[n], query, ignoreCase, Positions(init, query, ignoreCase));
      }
    }
  }

  /** `Select` keeps exactly the matching lines, unchanged and in their original order. */
  lemma SelectIsFilter(ls: seq<string>, query: string, ignoreCase: bool)
    ensures exists idx :: SelectsAt(Select(ls, query, ignoreCase), ls, query, ignoreCase, idx)
  {
    SelectsAtPositions(ls, query, ignoreCase);
  }

  /** Peeling off a last line that does not match leaves the selection unchanged. */
  lemma SelectsAtSkipLast(r: seq<string>, ls: seq<string>, query: string, ignoreCase: bool, idx: seq<nat>)
    requires ls != [] && !Matches(ls[|ls| - 1], query, ignoreCase)
    requires SelectsAt(r, ls, query, ignoreCase, idx)
    ensures SelectsAt(r, ls[..|ls| - 1], query, ignoreCase, idx)
  {
    var n := |ls| - 1;
    assert forall k :: 0 <= k < |idx| ==> idx[k] != n;
  }

  /** Peeling off a last line that matches removes it from the end of the selection. */
  lemma SelectsAtKeepLast(r: seq<string>, ls: seq<string>, query: string, ignoreCase: bool, idx: seq<nat>)
    requires ls != [] && Matches(ls[|ls| - 1], query, ignoreCase)
    requires SelectsAt(r, ls, query, ignoreCase, idx)
    ensures r != [] && r[|r| - 1] == ls[|ls| - 1]
    ensures SelectsAt(r[..|r| - 1], ls[..|ls| - 1], query, ignoreCase, idx[..|idx| - 1])
  {
    var n := |ls| - 1;
    var m := |idx| - 1;
    var k :| 0 <= k < |idx| && idx[k] == n;
    assert k == m;
    assert forall i :: 0 <= i < n ==> (i in idx <==> i in idx[..m]);
  }

  /** When no line matches, nothing is selected. */
  lemma {:induction false} NothingSelected(ls: seq<string>, query: string, ignoreCase: bool)
    requires forall i :: 0 <= i < |ls| ==> !Matches(ls[i], query, ignoreCase)
    ensures Select(ls, query, ignoreCase) == []
    decreases |ls|
  {
    if ls != [] {
      NothingSelected(ls[..|ls| - 1], query, ignoreCase);
    }
  }

  /** A selection whose front is the selection of all lines but the last, and whose end is that matching last line. */
  lemma SelectKeepsLast(r: seq<string>, ls: seq<string>, query: string, ignoreCase: bool)
    requires ls != [] && Matches(ls[|ls| - 1], query, ignoreCase)
    requires r != [] && r[|r| - 1] == ls[|ls| - 1] && r[..|r| - 1] == Select(ls[..|ls| - 1], query, ignoreCase)
    ensures r == Select(ls, query, ignoreCase)
  {
    assert r == r[..|r| - 1] + [r[|r| - 1]];
  }

  /** Conversely, any subsequence taken at exactly the matching positions is what `Select` returns. */
  lemma {:induction false} FilterIsSelect(r: seq<string>, ls: seq<string>, query: string, ignoreCase: bool, idx: seq<nat>)
    requires SelectsAt(r, ls, query, ignoreCase, idx)
    ensures r == Select(ls, query, ignoreCase)
    decreases |ls|
  {
    if idx == [] {
      NothingSelected(ls, query, ignoreCase);
    } else {
      assert idx[0] < |ls|;
      var n := |ls| - 1;
      if Matches(ls[n], query, ignoreCase) {
        SelectsAtKeepLast(r, ls, query, ignoreCase, idx);
        FilterIsSelect(r[..|r| - 1], ls[..n], query, ignoreCase, idx[..|idx| - 1]);
        SelectKeepsLast(r, ls, query, ignoreCase);
      } else {
        SelectsAtSkipLast(r, ls, query, ignoreCase, idx);
        FilterIsSelect(r, ls[..n], query, ignoreCase, idx);
      }
    }
  }

  /**
   `search`: the lines of `contents` that contain `query`, case-sensitively.
   Empty contents have no lines, so nothing is found.
   */
  function Search(query: string, contents: string): (r: seq<string>)
    ensures forall k :: 0 <= k < |r| ==> Contains(r[k], query)
    ensures contents == [] ==> r == []
  {
    Select(Lines(contents), query, false)
  }

  /** `search` returns exactly the lines containing the query, verbatim, in their original order. */
  lemma SearchFindsMatchingLines(query: string, contents: string)
    ensures exists idx :: SelectsAt(Search(query, contents), Lines(contents), query, false, idx)
    ensures forall k :: 0 <= k < |Search(query, contents)| ==> IsSubstring(query, Search(query, contents)[k])
    ensures forall l :: l in Lines(contents) && !IsSubstring(query, l) ==> l !in Search(query, contents)
  {
    assert Search(query, contents) == Select(Lines(contents), query, false);
    SelectIsFilter(Lines(contents), query, false);
    forall l | l in Search(query, contents) ensures IsSubstring(query, l) {
      ContainsIsSubstring(l, query);
    }
  }

  /** Every returned line is a verbatim piece of the contents, as the source's borrowed `&str` views are. */
  lemma SelectedLinesAreViews(contents: string, query: string, ignoreCase: bool)
    ensures forall k :: 0 <= k < |Select(Lines(contents), query, ignoreCase)|
                    ==> IsSubstring(Select(Lines(contents), query, ignoreCase)[k], contents)
  {
    var ls := Lines(contents);
    forall k | 0 <= k < |Select(ls, query, ignoreCase)| ensures IsSubstring(Select(ls, query, ignoreCase)[k], contents) {
      var i :| 0 <= i < |ls| && ls[i] == Select(ls, query, ignoreCase)[k];
      LineIsSubstring(contents, i);
    }
  }

  /** `search_case_insensitive`: lowercase the query once, then keep each line whose lowercase form contains it. */
  method SearchCaseInsensitive(query: string, contents: string) returns (results: seq<string>)
    ensures results == Select(Lines(contents), query, true)
    ensures forall k :: 0 <= k < |results| ==> Contains(Lower(results[k]), Lower(query))
    ensures contents == [] ==> results == []
  {
    var q := Lower(query);
    var lines := Lines(contents);
    results := [];
    for i := 0 to |lines|
      invariant results == Select(lines[..i], query, true)
    {
      assert lines[..i + 1][..i] == lines[..i];
      if Contains(Lower(lines[i]), q) {
        results := results + [lines[i]];
      }
    }
    assert lines[..|lines|] == lines;
  }

  /** With an empty query every line matches, in either mode, since "" is contained in every string. */
  lemma {:induction false} EmptyQuerySelectsAll(ls: seq<string>, ignoreCase: bool)
    ensures Select(ls, "", ignoreCase) == ls
    decreases |ls|
  {
    if ls != [] {
      var n := |ls| - 1;
      EmptyQuerySelectsAll(ls[..n], ignoreCase);
      assert Lower("") == "";
      assert StartsWith(ls[n], "") && StartsWith(Lower(ls[n]), "");
      assert ls[..n] + [ls[n]] == ls;
    }
  }

  /** An empty query returns every line of the contents, in either mode. */
  lemma EmptyQueryFindsEveryLine(contents: string)
    ensures Search("", contents) == Lines(contents)
    ensures Select(Lines(contents), "", true) == Lines(contents)
  {
    EmptyQuerySelectsAll(Lines(contents), false);
    EmptyQuerySelectsAll(Lines(contents), true);
  }

  /** The case-insensitive search does not depend on the case of the query's ASCII letters. */
  lemma {:induction false} IgnoreCaseQueryCase(ls: seq<string>, query: string, other: string)
    requires Lower(query) == Lower(other)
    ensures Select(ls, query, true) == Select(ls, other, true)
    decreases |ls|
  {
    if ls != [] {
      IgnoreCaseQueryCase(ls[..|ls| - 1], query, other);
    }
  }

  /** Holds the query string, the file path to search, and whether the search ignores case. */
  datatype Config = Config(query: string, filePath: string, ignoreCase: bool)

  datatype Option<+T> = None | Some(value: T)

  datatype Result<+T, +E> = Ok(value: T) | Err(error: E)

  const NoQueryMessage: string := "Didn't get a query string"
  const NoFilePathMessage: string := "Didn't get a file path"

  /** One `next()` on the argument iterator: the first remaining argument, if any, and what remains. */
  function Next(args: seq<string>): (Option<string>, seq<string>) {
    if args == [] then (None, []) else (Some(args[0]), args[1..])
  }

  /**
   `Config::build`: skip the program name, take the query and then the file
   path. `ignoreCaseVar` is whether looking up the `IGNORE_CASE` environment
   variable succeeded; its value plays no part.
   */
  function Build(args: seq<string>, ignoreCaseVar: bool): (r: Result<Config, string>)
    ensures r == Err(NoQueryMessage) <==> |args| < 2
    ensures r == Err(NoFilePathMessage) <==> |args| == 2
    ensures r.Ok? <==> |args| >= 3
    ensures r.Ok? ==> r.value.query == args[1] && r.value.filePath == args[2]
    ensures r.Ok? ==> r.value.ignoreCase == ignoreCaseVar
  {
    var (_, rest) := Next(args);
    var (query, rest) := Next(rest);
    if query.None? then Err(NoQueryMessage)
    else
      var (filePath, _) := Next(rest);
      if filePath.None? then Err(NoFilePathMessage)
      else Ok(Config(query.value, filePath.value, ignoreCaseVar))
  }

  /** Arguments after the file path are ignored. */
  lemma BuildIgnoresExtraArguments(args: seq<string>, extra: seq<string>, ignoreCaseVar: bool)
    requires |args| == 3
    ensures Build(args + extra, ignoreCaseVar) == Build(args, ignoreCaseVar)
  {
  }

  /** The first argument is discarded whatever it is. */
  lemma BuildIgnoresProgramName(name: string, other: string, args: seq<string>, ignoreCaseVar: bool)
    ensures Build([name] + args, ignoreCaseVar) == Build([other] + args, ignoreCaseVar)
  {
  }

  /**
   The search step of `run`, given the file's contents: the case-insensitive
   search when `ignoreCase` is set, the case-sensitive one otherwise. The
   result is the list of lines printed, in the order printed.
   */
  method Run(config: Config, contents: string) returns (printed: seq<string>)
    ensures config.ignoreCase ==> printed == Select(Lines(contents), config.query, true)
    ensures !config.ignoreCase ==> printed == Search(config.query, contents)
    ensures exists idx :: SelectsAt(printed, Lines(contents), config.query, config.ignoreCase, idx)
  {
    if config.ignoreCase {
      printed := SearchCaseInsensitive(config.query, contents);
    } else {
      printed := Search(config.query, contents);
    }
    SelectIsFilter(Lines(contents), config.query, config.ignoreCase);
  }
}
