/**
 * learn/minigrep_lib: the command-line arguments become a query and a file
 * name, and the search keeps the lines of the file's text that contain the
 * query.
 */
module Minigrep {
  import opened Wrappers
  import opened RustText
  import opened SeqFilter

  const WRONG_ARGUMENTS: string := "not enough arguments or too many arguments"

  /** `Config`. */
  datatype Config = Config(query: string, filename: string)

  /** `Config::new`: exactly the program name, the query and the file name. */
  function ConfigNew(args: seq<string>): (r: Result<Config, string>)
    ensures r.Ok? <==> |args| == 3
    ensures r.Err? ==> r.error == WRONG_ARGUMENTS
    ensures r.Ok? ==> r.value.query == args[1] && r.value.filename == args[2]
  {
    if |args| < 3 || |args| > 3 then Err(WRONG_ARGUMENTS)
    else Ok(Config(args[1], args[2]))
  }

  /** The lines of contents that contain query, in order. */
  function Matching(query: string, contents: string): seq<string>
  {
    Filter(Lines(contents), (line: string) => Contains(line, query))
  }

  /**
   * The search result is exactly the lines that contain the query: each of
   * them does, every line that does is there, the order is the file's, a
   * matching line repeated in the file is found as many times as it occurs,
   * and there are no more of them than lines.
   */
  lemma MatchingIsExact(query: string, contents: string)
    ensures var r := Matching(query, contents);
      && (forall i :: 0 <= i < |r| ==> Contains(r[i], query))
      && (forall line :: line in r <==> line in Lines(contents) && Contains(line, query))
      && SubsequenceOf(r, Lines(contents))
      && |r| <= |Lines(contents)|
      && (forall line :: multiset(r)[line] == if Contains(line, query) then multiset(Lines(contents))[line] else 0)
  {
    var p := (line: string) => Contains(line, query);
    FilterMembership(Lines(contents), p);
    FilterIsSubsequence(Lines(contents), p);
    FilterCounts(Lines(contents), p);
  }

  /** An empty query is in every line, so every line is found. */
  lemma EmptyQueryFindsEveryLine(contents: string)
    ensures Matching([], contents) == Lines(contents)
  {
    var ls := Lines(contents);
    forall i | 0 <= i < |ls| ensures Contains(ls[i], []) {
      ContainsEmpty(ls[i]);
    }
    FilterKeepsAll(ls, (line: string) => Contains(line, []));
  }

  /** `search`: push every line that contains the query. */
  method Search(query: string, contents: string) returns (results: seq<string>)
    ensures results == Matching(query, contents)
  {
    var lines := Lines(contents);
    var p := (line: string) => Contains(line, query);
    results := [];
    for i := 0 to |lines|
      invariant results == Filter(lines[..i], p)
    {
      assert lines[..i + 1] == lines[..i] + [lines[i]];
      FilterSnoc(lines[..i], lines[i], p);
      if Contains(lines[i], query) {
        results := results + [lines[i]];
      }
    }
    assert lines[..|lines|] == lines;
  }
}
