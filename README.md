# minigrep in Dafny

A model of the library of `minigrep`, a small command-line search that prints
the lines of a file containing a query. The library (`src/lib.rs`) has the
following parts, and all of them are modelled here:

- `Config::build`: turns the command-line arguments and the `IGNORE_CASE`
  environment variable into a configuration, or into one of two error messages.
- `search`: keeps the lines that contain the query, case-sensitively.
- `search_case_insensitive`: keeps the lines whose lowercase form contains the
  lowercase query. It returns the lines as they were written.
- The dispatch in `run`: it picks one of the two searches according to the
  configuration.

Three files make up the model:

- `str.dfy` (module `Str`) models the three methods of Rust's `str` that the
  searches rely on. Each works on `seq<char>`.
  - `contains` is `Contains`, a left-to-right scan.
  - `lines` is `Lines`.
  - `to_lowercase` is `Lower`, on ASCII letters only.
  - It proves the properties of these methods that the searches need:
    - a scan finds exactly the contiguous substrings;
    - `lines` round-trips over text joined with `"\n"` or `"\r\n"`;
    - `lines` never produces an empty trailing line;
    - `lines` gives no lines for empty text;
    - every line is a verbatim piece of the text.
- `minigrep.dfy` (module `Minigrep`) models the library itself.
  - `Select` is the specification of both searches: the matching lines, in
    order, unchanged.
    - `SelectIsFilter` and `FilterIsSelect` characterise it exactly, as the
      subsequence taken at precisely the matching positions.
  - `Search` is the pure iterator chain.
  - `SearchCaseInsensitive` is the imperative loop that pushes onto a
    vector. It is proved against `Select`.
  - `Build` is `Config::build`, modelled as a pure function over the
    argument sequence.
  - `Run` is the dispatch of `run`. It returns the lines that `run` prints,
    in the order it prints them.
- `examples_of_source.dfy` (module `Examples`) states the documentation
  examples and the two unit tests as lemmas about the model.

Notes on the environment variable:

- The documented behaviour of `IGNORE_CASE` is that its presence, with any
  value, turns on case-insensitive search.
- The code uses `env::var("IGNORE_CASE").is_ok()`. That is also false when the
  variable is set to a value that is not valid Unicode.
- The model follows the code. `Build` takes a boolean `ignoreCaseVar`, which
  means "the lookup succeeded".

## Model

| member | source | states |
|---|---|---|
| Str.ContainsIsSubstring | src/lib.rs:39 | `line.contains(query)` holds exactly when the query is a contiguous piece `line[i..j]`, so the empty query is found in every line |
| Str.ContainsNeedsRoom | src/lib.rs:39 | a query longer than the line is never found |
| Str.NotContainsFirst | src/lib.rs:39 | a query whose first character does not occur in the line is not found |
| Str.NotContainsPastPair | src/lib.rs:39 | a query is not found when its first character occurs only once in the line, and its second character does not follow that occurrence |
| Str.Lower | src/lib.rs:60 | lowercasing keeps the length, leaves no ASCII capital, and changes a character only by mapping a capital to its small letter |
| Str.LowerIdempotent | src/lib.rs:63 | lowercasing a lowercased string changes nothing |
| Str.LineEndIsFirstFeed | src/lib.rs:38 | the end of the first line is the first line feed, or the end of the text when there is none |
| Str.LineEndAt | src/lib.rs:38 | a position that holds a line feed with none before it, or the end of a text without one, is where the first line ends |
| Str.LinesShape | src/lib.rs:38 | no line contains a line feed; there is one line per line feed, plus one for an unterminated last line; empty text has no lines and a final line feed adds no empty line |
| Str.FirstLine | src/lib.rs:38 | a text starting with a line and then "\n" or "\r\n" has that line first, without the terminator, followed by the lines of the rest |
| Str.LinesOfTerminated | src/lib.rs:38 | splitting lines joined with "\n" (or "\r\n") and each terminated gives back exactly those lines, with no empty last line |
| Str.LinesOfUnterminated | src/lib.rs:38 | a final line without a terminator is still a line, kept verbatim |
| Str.LineIsSubstring | src/lib.rs:38 | every line is a contiguous piece of the text, as the borrowed `&str` lines are |
| Minigrep.Select | src/lib.rs:36-41 | the selection is no longer than the lines, and each selected line is one of the lines and matches |
| Minigrep.SelectAppend | src/lib.rs:62-66 | handling one more line appends it to the result exactly when it matches, and otherwise leaves the result unchanged |
| Minigrep.SelectsAtPositions | src/lib.rs:36-41 | the selection is the subsequence of the lines at the increasing positions of exactly the matching lines |
| Minigrep.SelectIsFilter | src/lib.rs:36-41 | there are strictly increasing positions at which the selection takes the lines verbatim; they are exactly the positions of the matching lines |
| Minigrep.NothingSelected | src/lib.rs:36-41 | when no line matches, the result is empty |
| Minigrep.FilterIsSelect | src/lib.rs:36-41 | any subsequence taken at exactly the matching positions, in increasing order, equals the selection, so the selection is unique |
| Minigrep.Search | src/lib.rs:36-41 | every returned line contains the query, and empty contents give an empty result |
| Minigrep.SearchFindsMatchingLines | src/lib.rs:36-41 | `search` returns the lines containing the query as a contiguous substring, verbatim and in their original order, and drops every line that does not contain it |
| Minigrep.SelectedLinesAreViews | src/lib.rs:36-41 | every line returned by either search is a contiguous piece of the contents |
| Minigrep.SearchCaseInsensitive | src/lib.rs:59-67 | the loop returns the case-insensitive selection: each original line whose lowercase form contains the lowercase query, in order; empty contents give an empty result |
| Minigrep.EmptyQuerySelectsAll | src/lib.rs:37-39 | with the empty query, every line is kept, in either mode |
| Minigrep.EmptyQueryFindsEveryLine | src/lib.rs:37-39 | with the empty query, both searches return all the lines of the contents |
| Minigrep.IgnoreCaseQueryCase | src/lib.rs:60-63 | the case-insensitive search gives the same result for two queries that agree once lowercased |
| Minigrep.Build | src/lib.rs:79-91 | it fails with "Didn't get a query string" exactly when there are fewer than 2 arguments, and with "Didn't get a file path" exactly when there are 2; otherwise it succeeds with `query = args[1]`, `file_path = args[2]` and `ignore_case` from the environment lookup |
| Minigrep.BuildIgnoresExtraArguments | src/lib.rs:80-82 | arguments after the file path do not change the result |
| Minigrep.BuildIgnoresProgramName | src/lib.rs:80 | the first argument is discarded whatever it is |
| Minigrep.Run | src/lib.rs:8-12 | `run` prints the case-insensitive result when `ignore_case` is set, and the `search` result otherwise; either way it prints the matching lines verbatim, in order |
| Examples.SearchDocExample | src/lib.rs:25-35 | `search("duct", "Rust:\nsafe, fast, productive.\nPick three.")` is `["safe, fast, productive."]` |
| Examples.SearchCaseInsensitiveDocExample | src/lib.rs:48-58 | the case-insensitive search for "Duct" in the same text is `["safe, fast, productive."]` |
| Examples.CaseSensitiveTest | src/lib.rs:97-107 | `search("duct", …)` with "Duct tape." as a fourth line is still `["safe, fast, productive."]` |
| Examples.CaseInsensitiveTest | src/lib.rs:109-122 | the case-insensitive search for "rUsT" returns `["Rust:", "Trust me."]`, as written |

## Left out

- Reading the file (`fs::read_to_string`, src/lib.rs:6) and its I/O error are left out. `Run` takes the contents as a parameter.
- Printing (`println!`, src/lib.rs:14-16) is left out. `Run` returns the printed lines in the order they are printed.
- Reading the environment (`env::var`, src/lib.rs:83) is left out. The result of the lookup is the parameter `ignoreCaseVar` of `Build`.
- Str.Lower: lowercases ASCII letters only. Rust's `to_lowercase` uses the full Unicode tables, some of which depend on context, such as the final sigma.
- Because of this, the model makes no claim that the case-insensitive result contains the case-sensitive one. The source does not guarantee it either.
- Lifetimes and borrowed `&str` views are modelled as copied strings. `Str.LineIsSubstring` and `Minigrep.SelectedLinesAreViews` state that each returned line is a verbatim piece of the contents.
- `Box<dyn Error>` and `&'static str` errors are modelled as `Result` with the two message strings.
- The argument iterator of `Config::build` is modelled as a finite sequence. An iterator that never ends is not modelled, but `build` reads at most three items from it.
- `Str.Lines` follows `str::lines` as documented for current Rust. It removes "\n", then one "\r" before it. A final line without "\n" keeps a trailing "\r".
- The examples are stated for the selection that `SearchCaseInsensitive` is proved to return. A lemma cannot call a method.
