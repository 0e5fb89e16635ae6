/**
 * `get_cmd` of project/bom_manage: the line typed at the prompt becomes an
 * argument vector for the command parser, with the program name in front.
 */
module BomCmd {
  import opened Wrappers
  import opened RustText

  /** The `io::Error` of kind `Other` that `get_cmd` builds, by its message. */
  const EMPTY_INPUT: string := "Empty input"

  /** `get_cmd`: trim the line; nothing left is an error, otherwise the program name and the words of the line. */
  function GetCmd(programName: string, cmdData: string): (r: Result<seq<string>, string>)
  {
    var input := Trim(cmdData);
    if |input| == 0 then Err(EMPTY_INPUT)
    else Ok([programName] + SplitWhitespace(input))
  }

  /**
   * An empty or all-whitespace line is refused. Any other line gives the
   * program name followed by at least one word; the words are non-empty,
   * hold no whitespace and together hold exactly the line's non-whitespace
   * characters, in order. They are the line's whitespace-separated words,
   * split as `split_whitespace` splits the untrimmed line, so the word
   * boundaries are those that SplitAfterBlanks fixes.
   */
  lemma GetCmdArguments(programName: string, cmdData: string)
    ensures var r := GetCmd(programName, cmdData);
      && (r.Err? <==> AllWhitespace(cmdData))
      && (r.Err? ==> r.error == EMPTY_INPUT)
      && (r.Ok? ==>
            && |r.value| >= 2 && r.value[0] == programName
            && (forall t :: 1 <= t < |r.value| ==> r.value[t] != [] && NoWhitespace(r.value[t]))
            && Concat(r.value[1..]) == NonWhitespace(cmdData, 0)
            && r.value[1..] == SplitWhitespace(cmdData))
  {
    TrimEmpty(cmdData);
    var input := Trim(cmdData);
    if input != [] {
      var ts := SplitWhitespace(input);
      assert ([programName] + ts)[1..] == ts;
      TrimSlice(cmdData);
      TrimKeepsNonWhitespace(cmdData);
      SplitIgnoresTrim(cmdData);
    }
  }

  /** Trimming drops only whitespace, so the non-whitespace characters of the trimmed line are those of the line. */
  lemma TrimKeepsNonWhitespace(s: string)
    ensures NonWhitespace(Trim(s), 0) == NonWhitespace(s, 0)
  {
    var i := SkipBlank(s, 0);
    TrimSlice(s);
    var r := Trim(s);
    var e := i + |r|;
    NonWhitespaceSkip(s, 0, i);
    NonWhitespaceSkip(s, e, |s|);
    assert NonWhitespace(s, |s|) == [];
    NonWhitespaceSlice(s, i, e);
    assert s[i..e] == r;
  }

  /** The non-whitespace characters of a slice running to a point from which only whitespace follows. */
  lemma {:induction false} NonWhitespaceSlice(s: string, i: nat, e: nat)
    requires i <= e <= |s|
    ensures NonWhitespace(s[i..e], 0) + NonWhitespace(s, e) == NonWhitespace(s, i)
    decreases e - i
  {
    if i < e {
      var x := s[i..e];
      var head := if IsWhitespace(s[i]) then [] else [s[i]];
      NonWhitespaceSlice(s, i + 1, e);
      NonWhitespaceShift(x);
      assert x[0] == s[i] && x[1..] == s[i + 1..e];
      assert NonWhitespace(x, 0) == head + NonWhitespace(s[i + 1..e], 0);
      assert NonWhitespace(s, i) == head + NonWhitespace(s, i + 1);
      calc {
        NonWhitespace(x, 0) + NonWhitespace(s, e);
        head + NonWhitespace(s[i + 1..e], 0) + NonWhitespace(s, e);
        head + (NonWhitespace(s[i + 1..e], 0) + NonWhitespace(s, e));
        NonWhitespace(s, i);
      }
    } else {
      assert s[i..e] == [];
    }
  }

  /** NonWhitespace from index 1 is NonWhitespace of the tail. */
  lemma {:induction false} NonWhitespaceShift(s: string)
    requires s != []
    ensures NonWhitespace(s, 0) == (if IsWhitespace(s[0]) then [] else [s[0]]) + NonWhitespace(s[1..], 0)
  {
    NonWhitespaceTail(s, 1);
  }

  /** NonWhitespace of s from k is NonWhitespace of s[1..] from k - 1. */
  lemma {:induction false} NonWhitespaceTail(s: string, k: nat)
    requires 1 <= k <= |s|
    ensures NonWhitespace(s, k) == NonWhitespace(s[1..], k - 1)
    decreases |s| - k
  {
    if k < |s| {
      NonWhitespaceTail(s, k + 1);
      assert s[1..][k - 1] == s[k];
    }
  }

  /** A typed line with surrounding blanks: `" ls a\n"` becomes the program name, "ls" and "a". */
  lemma ListCommandLine()
    ensures GetCmd("bom", " ls a\n") == Ok(["bom", "ls", "a"])
  {
    var s := " ls a\n";
    assert SkipBlank(s, 1) == 1;
    assert ContentEnd(s, 5) == 5;
    var t := Trim(s);
    assert t == s[1..5] == "ls a";
    assert WordEnd(t, 2) == 2;
    assert WordEnd(t, 0) == 2;
    assert SkipBlank(t, 2) == 3 && WordEnd(t, 3) == 4;
    assert SplitFrom(t, 4) == [];
    assert t[3..4] == "a" && t[0..2] == "ls";
    assert SplitFrom(t, 2) == ["a"];
    assert SplitFrom(t, 0) == ["ls", "a"];
    assert SplitWhitespace(t) == ["ls", "a"];
    assert ["bom"] + ["ls", "a"] == ["bom", "ls", "a"];
    assert GetCmd("bom", s) == Ok(["bom"] + SplitWhitespace(t));
  }
}
