/**
 The examples in the documentation comments of `search` and
 `search_case_insensitive` and the two unit tests, as lemmas about the model.
 The file contents are written one line per literal, joined by "\n", as the
 multi-line string literals of the source read.
 */
module Examples {
  import opened Str
  import opened Minigrep

  /** Lines of a text of three lines, the last one unterminated. */
  lemma LinesOfThree(a: string, b: string, c: string)
    requires Joinable([a, b], "\n") && c != [] && '\n' !in c
    ensures Lines(a + "\n" + b + "\n" + c) == [a, b, c]
  {
    assert Terminated([b], "\n") == b + "\n" by { assert [b][1..] == []; }
    assert Terminated([a, b], "\n") == a + "\n" + (b + "\n") by { assert [a, b][1..] == [b]; }
    assert a + "\n" + b + "\n" + c == Terminated([a, b], "\n") + c;
    LinesOfUnterminated([a, b], "\n", c);
  }

  /** Lines of a text of four lines, the last one unterminated. */
  lemma LinesOfFour(a: string, b: string, c: string, d: string)
    requires Joinable([a, b, c], "\n") && d != [] && '\n' !in d
    ensures Lines(a + "\n" + b + "\n" + c + "\n" + d) == [a, b, c, d]
  {
    assert Terminated([c], "\n") == c + "\n" by { assert [c][1..] == []; }
    assert Terminated([b, c], "\n") == b + "\n" + (c + "\n") by { assert [b, c][1..] == [c]; }
    assert Terminated([a, b, c], "\n") == a + "\n" + (b + "\n" + (c + "\n")) by { assert [a, b, c][1..] == [b, c]; }
    assert a + "\n" + b + "\n" + c + "\n" + d == Terminated([a, b, c], "\n") + d;
    LinesOfUnterminated([a, b, c], "\n", d);
  }

  /** The selection from a line that matches or not. */
  function Keep(line: string, query: string, ignoreCase: bool): seq<string> {
    if Matches(line, query, ignoreCase) then [line] else []
  }

  lemma SelectThree(a: string, b: string, c: string, query: string, ignoreCase: bool)
    ensures Select([a, b, c], query, ignoreCase) == Keep(a, query, ignoreCase) + Keep(b, query, ignoreCase) + Keep(c, query, ignoreCase)
  {
    SelectAppend([], a, query, ignoreCase);
    SelectAppend([a], b, query, ignoreCase);
    SelectAppend([a, b], c, query, ignoreCase);
    assert [] + [a] == [a] && [a] + [b] == [a, b] && [a, b] + [c] == [a, b, c];
  }

  lemma SelectFour(a: string, b: string, c: string, d: string, query: string, ignoreCase: bool)
    ensures Select([a, b, c, d], query, ignoreCase)
         == Keep(a, query, ignoreCase) + Keep(b, query, ignoreCase) + Keep(c, query, ignoreCase) + Keep(d, query, ignoreCase)
  {
    SelectThree(a, b, c, query, ignoreCase);
    SelectAppend([a, b, c], d, query, ignoreCase);
    assert [a, b, c] + [d] == [a, b, c, d];
  }

  lemma MatchesByLower(line: string, query: string, lowerLine: string, lowerQuery: string)
    requires Lower(line) == lowerLine && Lower(query) == lowerQuery
    ensures Matches(line, query, true) == Contains(lowerLine, lowerQuery)
  {
  }

  // Facts about single lines of the examples, one per lemma to keep each proof small.

  lemma RustHasNoDuct() ensures !Contains("Rust:", "duct") { NotContainsFirst("Rust:", "duct"); }
  lemma PickHasNoDuct() ensures !Contains("Pick three.", "duct") { NotContainsFirst("Pick three.", "duct"); }
  lemma DuctTapeHasNoDuct() ensures !Contains("Duct tape.", "duct") { NotContainsFirst("Duct tape.", "duct"); }
  lemma SafeHasDuct() ensures Contains("safe, fast, productive.", "duct") { SubstringFound("safe, fast, productive.", "duct", 15, 19); }
  lemma SafeHasNoRust() ensures !Contains("safe, fast, productive.", "rust") { NotContainsPastPair("safe, fast, productive.", "rust", 13); }

  lemma LowerDuct() ensures Lower("Duct") == "duct" {}
  lemma LowerQueryRust() ensures Lower("rUsT") == "rust" {}
  lemma LowerRust() ensures Lower("Rust:") == "rust:" {}
  lemma LowerSafe() ensures Lower("safe, fast, productive.") == "safe, fast, productive." {}
  lemma LowerPick() ensures Lower("Pick three.") == "pick three." {}
  lemma LowerTrust() ensures Lower("Trust me.") == "trust me." {}

  lemma LowerRustHasNoDuct() ensures !Contains("rust:", "duct") { NotContainsFirst("rust:", "duct"); }
  lemma LowerRustHasRust() ensures Contains("rust:", "rust") { SubstringFound("rust:", "rust", 0, 4); }
  lemma LowerPickHasNoDuct() ensures !Contains("pick three.", "duct") { NotContainsFirst("pick three.", "duct"); }
  lemma LowerPickHasNoRust() ensures !Contains("pick three.", "rust") { NotContainsPastPair("pick three.", "rust", 7); }
  lemma LowerTrustHasRust() ensures Contains("trust me.", "rust") { SubstringFound("trust me.", "rust", 1, 5); }

  lemma IgnoringCaseRustHasNoDuct() ensures !Matches("Rust:", "Duct", true) {
    LowerRust(); LowerDuct(); MatchesByLower("Rust:", "Duct", "rust:", "duct"); LowerRustHasNoDuct();
  }
  lemma IgnoringCaseSafeHasDuct() ensures Matches("safe, fast, productive.", "Duct", true) {
    LowerSafe(); LowerDuct(); MatchesByLower("safe, fast, productive.", "Duct", "safe, fast, productive.", "duct"); SafeHasDuct();
  }
  lemma IgnoringCasePickHasNoDuct() ensures !Matches("Pick three.", "Duct", true) {
    LowerPick(); LowerDuct(); MatchesByLower("Pick three.", "Duct", "pick three.", "duct"); LowerPickHasNoDuct();
  }
  lemma IgnoringCaseRustHasRust() ensures Matches("Rust:", "rUsT", true) {
    LowerRust(); LowerQueryRust(); MatchesByLower("Rust:", "rUsT", "rust:", "rust"); LowerRustHasRust();
  }
  lemma IgnoringCaseSafeHasNoRust() ensures !Matches("safe, fast, productive.", "rUsT", true) {
    LowerSafe(); LowerQueryRust(); MatchesByLower("safe, fast, productive.", "rUsT", "safe, fast, productive.", "rust"); SafeHasNoRust();
  }
  lemma IgnoringCasePickHasNoRust() ensures !Matches("Pick three.", "rUsT", true) {
    LowerPick(); LowerQueryRust(); MatchesByLower("Pick three.", "rUsT", "pick three.", "rust"); LowerPickHasNoRust();
  }
  lemma IgnoringCaseTrustHasRust() ensures Matches("Trust me.", "rUsT", true) {
    LowerTrust(); LowerQueryRust(); MatchesByLower("Trust me.", "rUsT", "trust me.", "rust"); LowerTrustHasRust();
  }

  lemma ThreeLines()
    ensures Lines("Rust:" + "\n" + "safe, fast, productive." + "\n" + "Pick three.")
         == ["Rust:", "safe, fast, productive.", "Pick three."]
  {
    LinesOfThree("Rust:", "safe, fast, productive.", "Pick three.");
  }

  lemma DuctTapeLines()
    ensures Lines("Rust:" + "\n" + "safe, fast, productive." + "\n" + "Pick three." + "\n" + "Duct tape.")
         == ["Rust:", "safe, fast, productive.", "Pick three.", "Duct tape."]
  {
    LinesOfFour("Rust:", "safe, fast, productive.", "Pick three.", "Duct tape.");
  }

  lemma TrustMeLines()
    ensures Lines("Rust:" + "\n" + "safe, fast, productive." + "\n" + "Pick three." + "\n" + "Trust me.")
         == ["Rust:", "safe, fast, productive.", "Pick three.", "Trust me."]
  {
    LinesOfFour("Rust:", "safe, fast, productive.", "Pick three.", "Trust me.");
  }

  /** The example in the documentation of `search`. */
  lemma SearchDocExample()
    ensures Search("duct", "Rust:" + "\n" + "safe, fast, productive." + "\n" + "Pick three.")
         == ["safe, fast, productive."]
  {
    ThreeLines();
    SelectThree("Rust:", "safe, fast, productive.", "Pick three.", "duct", false);
    RustHasNoDuct(); SafeHasDuct(); PickHasNoDuct();
  }

  /** The example in the documentation of `search_case_insensitive`. */
  lemma SearchCaseInsensitiveDocExample()
    ensures Select(Lines("Rust:" + "\n" + "safe, fast, productive." + "\n" + "Pick three."), "Duct", true)
         == ["safe, fast, productive."]
  {
    ThreeLines();
    SelectThree("Rust:", "safe, fast, productive.", "Pick three.", "Duct", true);
    IgnoringCaseRustHasNoDuct(); IgnoringCaseSafeHasDuct(); IgnoringCasePickHasNoDuct();
  }

  /** The unit test `case_sensitive`: "Duct tape." is not found for "duct". */
  lemma CaseSensitiveTest()
    ensures Search("duct", "Rust:" + "\n" + "safe, fast, productive." + "\n" + "Pick three." + "\n" + "Duct tape.")
         == ["safe, fast, productive."]
  {
    DuctTapeLines();
    SelectFour("Rust:", "safe, fast, productive.", "Pick three.", "Duct tape.", "duct", false);
    RustHasNoDuct(); SafeHasDuct(); PickHasNoDuct(); DuctTapeHasNoDuct();
  }

  /** The unit test `case_insensitive`: "rUsT" finds "Rust:" and "Trust me.", returned as written. */
  lemma CaseInsensitiveTest()
    ensures Select(Lines("Rust:" + "\n" + "safe, fast, productive." + "\n" + "Pick three." + "\n" + "Trust me."), "rUsT", true)
         == ["Rust:", "Trust me."]
  {
    TrustMeLines();
    SelectFour("Rust:", "safe, fast, productive.", "Pick three.", "Trust me.", "rUsT", true);
    IgnoringCaseRustHasRust(); IgnoringCaseSafeHasNoRust(); IgnoringCasePickHasNoRust(); IgnoringCaseTrustHasRust();
  }
}
