/**
 * The parts of Rust's `str` that the modelled programs rely on: Unicode
 * whitespace as `char::is_whitespace` defines it, `trim`,
 * `split_whitespace`, `lines` and `contains`.
 */
module RustText {

  /** `char::is_whitespace`: the characters with the Unicode White_Space property. */
  predicate IsWhitespace(c: char)
  {
    || ('\t' <= c <= '\r')
    || c == ' '
    || c == '\U{85}'
    || c == '\U{A0}'
    || c == '\U{1680}'
    || ('\U{2000}' <= c <= '\U{200A}')
    || c == '\U{2028}'
    || c == '\U{2029}'
    || c == '\U{202F}'
    || c == '\U{205F}'
    || c == '\U{3000}'
  }

  predicate AllWhitespace(s: seq<char>)
  {
    forall i :: 0 <= i < |s| ==> IsWhitespace(s[i])
  }

  predicate NoWhitespace(s: seq<char>)
  {
    forall i :: 0 <= i < |s| ==> !IsWhitespace(s[i])
  }

  lemma AllWhitespaceAppend(a: seq<char>, b: seq<char>)
    ensures AllWhitespace(a + b) <==> AllWhitespace(a) && AllWhitespace(b)
  {
    if AllWhitespace(a) && AllWhitespace(b) {
      forall i | 0 <= i < |a + b| ensures IsWhitespace((a + b)[i]) {
        if i >= |a| { assert (a + b)[i] == b[i - |a|]; }
      }
    }
    if AllWhitespace(a + b) {
      forall i | 0 <= i < |a| ensures IsWhitespace(a[i]) {
        assert (a + b)[i] == a[i];
      }
      forall i | 0 <= i < |b| ensures IsWhitespace(b[i]) {
        assert (a + b)[|a| + i] == b[i];
      }
    }
  }

  /** Index of the first character at or after i that is not whitespace, or |s|. */
  function SkipBlank(s: seq<char>, i: nat): (j: nat)
    requires i <= |s|
    ensures i <= j <= |s|
    ensures j < |s| ==> !IsWhitespace(s[j])
    decreases |s| - i
  {
    if i == |s| || !IsWhitespace(s[i]) then i else SkipBlank(s, i + 1)
  }

  /** Everything SkipBlank skips is whitespace. */
  lemma {:induction false} SkipBlankSkipsWhitespace(s: seq<char>, i: nat)
    requires i <= |s|
    ensures forall k :: i <= k < SkipBlank(s, i) ==> IsWhitespace(s[k])
    decreases |s| - i
  {
    if i < |s| && IsWhitespace(s[i]) { SkipBlankSkipsWhitespace(s, i + 1); }
  }

  /** Index just past the last character before j that is not whitespace, or 0. */
  function ContentEnd(s: seq<char>, j: nat): (e: nat)
    requires j <= |s|
    ensures e <= j
    ensures e > 0 ==> !IsWhitespace(s[e - 1])
  {
    if j == 0 || !IsWhitespace(s[j - 1]) then j else ContentEnd(s, j - 1)
  }

  /** Everything ContentEnd cuts off is whitespace. */
  lemma {:induction false} ContentEndCutsWhitespace(s: seq<char>, j: nat)
    requires j <= |s|
    ensures forall k :: ContentEnd(s, j) <= k < j ==> IsWhitespace(s[k])
  {
    if j > 0 && IsWhitespace(s[j - 1]) { ContentEndCutsWhitespace(s, j - 1); }
  }

  /** ContentEnd keeps every character up to one that is not whitespace. */
  lemma {:induction false} ContentEndKeeps(s: seq<char>, j: nat, i: nat)
    requires i < j <= |s| && !IsWhitespace(s[i])
    ensures i < ContentEnd(s, j)
  {
    if IsWhitespace(s[j - 1]) { ContentEndKeeps(s, j - 1, i); }
  }

  /** Index of the first whitespace character at or after i, or |s|. */
  function WordEnd(s: seq<char>, i: nat): (e: nat)
    requires i <= |s|
    ensures i <= e <= |s|
    ensures e < |s| ==> IsWhitespace(s[e])
    decreases |s| - i
  {
    if i == |s| || IsWhitespace(s[i]) then i else WordEnd(s, i + 1)
  }

  /** A word holds no whitespace. */
  lemma {:induction false} WordEndSpansWord(s: seq<char>, i: nat)
    requires i <= |s|
    ensures forall k :: i <= k < WordEnd(s, i) ==> !IsWhitespace(s[k])
    decreases |s| - i
  {
    if i < |s| && !IsWhitespace(s[i]) { WordEndSpansWord(s, i + 1); }
  }

  /** A run of non-whitespace characters from i that stops at whitespace or the end is the word WordEnd finds. */
  lemma {:induction false} WordEndAt(s: seq<char>, i: nat, e: nat)
    requires i <= e <= |s|
    requires forall k :: i <= k < e ==> !IsWhitespace(s[k])
    requires e == |s| || IsWhitespace(s[e])
    ensures WordEnd(s, i) == e
    decreases e - i
  {
    if i < e { WordEndAt(s, i + 1, e); }
  }

  /** q occurs in s at offset i. */
  predicate OccursAt(s: seq<char>, q: seq<char>, i: nat)
  {
    i + |q| <= |s| && s[i..i + |q|] == q
  }

  /** `trim`: s without its leading and trailing whitespace. */
  function Trim(s: seq<char>): seq<char>
  {
    var i := SkipBlank(s, 0);
    if i == |s| then []
    else
      ContentEndKeeps(s, |s|, i);
      s[i..ContentEnd(s, |s|)]
  }

  /** Trim keeps the slice of s from its first to just past its last non-whitespace character. */
  lemma TrimSlice(s: seq<char>)
    ensures var i := SkipBlank(s, 0);
      && OccursAt(s, Trim(s), i)
      && (forall k :: 0 <= k < i ==> IsWhitespace(s[k]))
      && (forall k :: i + |Trim(s)| <= k < |s| ==> IsWhitespace(s[k]))
      && (Trim(s) == [] || (!IsWhitespace(Trim(s)[0]) && !IsWhitespace(Trim(s)[|Trim(s)| - 1])))
  {
    SkipBlankSkipsWhitespace(s, 0);
    if SkipBlank(s, 0) < |s| {
      TrimNonBlank(s);
    } else {
      assert Trim(s) == [];
      assert OccursAt(s, [], |s|);
    }
  }

  /** Trim of a text with a non-whitespace character: the slice from the first to just past the last one. */
  lemma TrimNonBlank(s: seq<char>)
    requires SkipBlank(s, 0) < |s|
    ensures var i := SkipBlank(s, 0);
      && i < ContentEnd(s, |s|) && Trim(s) == s[i..ContentEnd(s, |s|)]
      && (forall k :: ContentEnd(s, |s|) <= k < |s| ==> IsWhitespace(s[k]))
      && !IsWhitespace(Trim(s)[0]) && !IsWhitespace(Trim(s)[|Trim(s)| - 1])
  {
    var i := SkipBlank(s, 0);
    var e := ContentEnd(s, |s|);
    ContentEndCutsWhitespace(s, |s|);
    ContentEndKeeps(s, |s|, i);
    var r := s[i..e];
    assert r[0] == s[i] && r[|r| - 1] == s[e - 1];
  }

  /**
   * The trimmed text is a slice of s that neither starts nor ends with
   * whitespace, everything cut off is whitespace, and it is empty exactly
   * when s is all whitespace.
   */
  lemma TrimIsCore(s: seq<char>)
    ensures var r := Trim(s);
      && (exists i: nat :: (OccursAt(s, r, i) &&
           (forall k :: 0 <= k < i ==> IsWhitespace(s[k])) &&
           (forall k :: i + |r| <= k < |s| ==> IsWhitespace(s[k]))))
      && (r == [] || (!IsWhitespace(r[0]) && !IsWhitespace(r[|r| - 1])))
      && (r == [] <==> AllWhitespace(s))
  {
    TrimSlice(s);
    TrimEmpty(s);
    var i := SkipBlank(s, 0);
    assert OccursAt(s, Trim(s), i);
  }

  /** The trimmed text is empty exactly when s is all whitespace. */
  lemma TrimEmpty(s: seq<char>)
    ensures Trim(s) == [] <==> AllWhitespace(s)
  {
    var i := SkipBlank(s, 0);
    SkipBlankSkipsWhitespace(s, 0);
    if i < |s| {
      ContentEndKeeps(s, |s|, i);
    }
  }

  /** The characters of s from index i on that are not whitespace, in order. */
  function NonWhitespace(s: seq<char>, i: nat): seq<char>
    requires i <= |s|
    decreases |s| - i
  {
    if i == |s| then []
    else if IsWhitespace(s[i]) then NonWhitespace(s, i + 1)
    else [s[i]] + NonWhitespace(s, i + 1)
  }

  /** Concatenation of a sequence of strings. */
  function Concat(ts: seq<seq<char>>): seq<char>
  {
    if ts == [] then [] else ts[0] + Concat(ts[1..])
  }

  lemma {:induction false} NonWhitespaceSkip(s: seq<char>, i: nat, j: nat)
    requires i <= j <= |s|
    requires forall k :: i <= k < j ==> IsWhitespace(s[k])
    ensures NonWhitespace(s, i) == NonWhitespace(s, j)
    decreases j - i
  {
    if i < j { NonWhitespaceSkip(s, i + 1, j); }
  }

  lemma {:induction false} NonWhitespaceWord(s: seq<char>, i: nat, e: nat)
    requires i <= e <= |s|
    requires forall k :: i <= k < e ==> !IsWhitespace(s[k])
    ensures NonWhitespace(s, i) == s[i..e] + NonWhitespace(s, e)
    decreases e - i
  {
    if i < e {
      NonWhitespaceWord(s, i + 1, e);
      calc {
        NonWhitespace(s, i);
        [s[i]] + NonWhitespace(s, i + 1);
        [s[i]] + (s[i + 1..e] + NonWhitespace(s, e));
        ([s[i]] + s[i + 1..e]) + NonWhitespace(s, e);
        { assert s[i..e] == [s[i]] + s[i + 1..e]; }
        s[i..e] + NonWhitespace(s, e);
      }
    }
  }

  /** `split_whitespace` of s from index i on: the maximal runs of non-whitespace characters, in order. */
  function SplitFrom(s: seq<char>, i: nat): seq<seq<char>>
    requires i <= |s|
    decreases |s| - i
  {
    var j := SkipBlank(s, i);
    if j == |s| then []
    else
      var e := WordEnd(s, j);
      [s[j..e]] + SplitFrom(s, e)
  }

  /**
   * Every token is non-empty and free of whitespace, together they hold
   * exactly the non-whitespace characters, and there are none exactly when
   * the text is all whitespace.
   */
  lemma {:induction false} SplitFromTokens(s: seq<char>, i: nat)
    requires i <= |s|
    ensures var ts := SplitFrom(s, i);
      && (forall t :: 0 <= t < |ts| ==> ts[t] != [] && NoWhitespace(ts[t]))
      && Concat(ts) == NonWhitespace(s, i)
      && (ts == [] <==> forall k :: i <= k < |s| ==> IsWhitespace(s[k]))
    decreases |s| - i
  {
    var j := SkipBlank(s, i);
    SkipBlankSkipsWhitespace(s, i);
    NonWhitespaceSkip(s, i, j);
    if j < |s| {
      var e := WordEnd(s, j);
      WordEndSpansWord(s, j);
      var rest := SplitFrom(s, e);
      SplitFromTokens(s, e);
      NonWhitespaceWord(s, j, e);
      var ts := SplitFrom(s, i);
      assert ts == [s[j..e]] + rest;
      assert ts[1..] == rest;
      assert Concat(ts) == s[j..e] + Concat(rest);
      assert forall t :: 0 < t < |ts| ==> ts[t] == rest[t - 1];
      assert s[j..e][0] == s[j];
    }
  }

  /** `split_whitespace`. */
  function SplitWhitespace(s: seq<char>): (ts: seq<seq<char>>)
    ensures forall t :: 0 <= t < |ts| ==> ts[t] != [] && NoWhitespace(ts[t])
    ensures Concat(ts) == NonWhitespace(s, 0)
    ensures ts == [] <==> AllWhitespace(s)
  {
    SplitFromTokens(s, 0);
    SplitFrom(s, 0)
  }

  /** Skipping blanks in b behind a prefix a lands |a| further on. */
  lemma {:induction false} SkipBlankShift(a: seq<char>, b: seq<char>, i: nat)
    requires i <= |b|
    ensures SkipBlank(a + b, |a| + i) == |a| + SkipBlank(b, i)
    decreases |b| - i
  {
    if i < |b| {
      assert (a + b)[|a| + i] == b[i];
      SkipBlankShift(a, b, i + 1);
    }
  }

  /** Finding the end of a word in b behind a prefix a lands |a| further on. */
  lemma {:induction false} WordEndShift(a: seq<char>, b: seq<char>, i: nat)
    requires i <= |b|
    ensures WordEnd(a + b, |a| + i) == |a| + WordEnd(b, i)
    decreases |b| - i
  {
    if i < |b| {
      assert (a + b)[|a| + i] == b[i];
      WordEndShift(a, b, i + 1);
    }
  }

  /** One step of SplitFrom: skip the blanks up to j, then take the word up to e. */
  lemma SplitFromStep(s: seq<char>, k: nat, j: nat, e: nat)
    requires k <= |s| && SkipBlank(s, k) == j
    requires j < |s| && WordEnd(s, j) == e
    ensures SplitFrom(s, k) == [s[j..e]] + SplitFrom(s, e)
  {
  }

  /** Splitting b behind a prefix a, from the end of a on, splits b alone. */
  lemma {:induction false} SplitFromShift(a: seq<char>, b: seq<char>, i: nat)
    requires i <= |b|
    ensures SplitFrom(a + b, |a| + i) == SplitFrom(b, i)
    decreases |b| - i
  {
    var s := a + b;
    SkipBlankShift(a, b, i);
    var j := SkipBlank(b, i);
    if j == |b| {
      assert SplitFrom(s, |a| + i) == [];
    } else {
      WordEndShift(a, b, j);
      var e := WordEnd(b, j);
      assert s[|a| + j..|a| + e] == b[j..e];
      SplitFromShift(a, b, e);
      SplitFromStep(s, |a| + i, |a| + j, |a| + e);
      SplitFromStep(b, i, j, e);
    }
  }

  /**
   * A word followed by a blank: `split_whitespace` yields the word, then the
   * words of what follows.
   */
  lemma SplitLeadingWord(w: seq<char>, rest: seq<char>)
    requires w != [] && NoWhitespace(w)
    ensures SplitWhitespace(w + " " + rest) == [w] + SplitWhitespace(rest)
  {
    var s := w + " " + rest;
    assert s == w + (" " + rest);
    assert s[|w|] == ' ';
    assert SkipBlank(s, 0) == 0;
    WordEndAt(s, 0, |w|);
    assert s[..|w|] == w;
    assert SkipBlank(s, |w|) == SkipBlank(s, |w| + 1);
    assert SplitFrom(s, |w|) == SplitFrom(s, |w| + 1);
    assert s == (w + " ") + rest;
    SplitFromShift(w + " ", rest, 0);
  }

  /** A single word is split into itself. */
  lemma SplitSingleWord(w: seq<char>)
    requires w != [] && NoWhitespace(w)
    ensures SplitWhitespace(w) == [w]
  {
    assert SkipBlank(w, 0) == 0;
    WordEndAt(w, 0, |w|);
    assert w[0..|w|] == w;
    assert SplitFrom(w, |w|) == [];
  }

  /** SkipBlank passes a whitespace run that ends at a non-whitespace character or at the end. */
  lemma {:induction false} SkipBlankAt(s: seq<char>, i: nat, j: nat)
    requires i <= j <= |s|
    requires forall k :: i <= k < j ==> IsWhitespace(s[k])
    requires j == |s| || !IsWhitespace(s[j])
    ensures SkipBlank(s, i) == j
    decreases j - i
  {
    if i < j { SkipBlankAt(s, i + 1, j); }
  }

  /**
   * Where `split_whitespace` cuts: leading whitespace, then a word that ends
   * at whitespace or at the end of the text, gives that word followed by the
   * words of the rest.
   */
  lemma SplitAfterBlanks(ws: seq<char>, w: seq<char>, rest: seq<char>)
    requires AllWhitespace(ws) && w != [] && NoWhitespace(w)
    requires rest == [] || IsWhitespace(rest[0])
    ensures SplitWhitespace(ws + w + rest) == [w] + SplitWhitespace(rest)
  {
    assert ws + w + rest == ws + (w + rest);
    SplitLeadingBlanks(ws, w + rest);
    SplitWordThenRest(w, rest);
  }

  /** A word at the very start that ends at whitespace or at the end of the text is the first word. */
  lemma SplitWordThenRest(w: seq<char>, rest: seq<char>)
    requires w != [] && NoWhitespace(w)
    requires rest == [] || IsWhitespace(rest[0])
    ensures SplitFrom(w + rest, 0) == [w] + SplitFrom(rest, 0)
  {
    var s := w + rest;
    var e := |w|;
    assert s[0] == w[0];
    forall k | 0 <= k < e ensures !IsWhitespace(s[k]) {
      assert s[k] == w[k];
    }
    if rest != [] {
      assert s[e] == rest[0];
    }
    WordEndAt(s, 0, e);
    SplitFromStep(s, 0, 0, e);
    assert s[0..e] == w;
    SplitFromShift(w, rest, 0);
  }

  /** SkipBlank from anywhere inside a whitespace run gives the same result. */
  lemma {:induction false} SkipBlankOver(s: seq<char>, i: nat, j: nat)
    requires i <= j <= |s|
    requires forall k :: i <= k < j ==> IsWhitespace(s[k])
    ensures SkipBlank(s, i) == SkipBlank(s, j)
    decreases j - i
  {
    if i < j { SkipBlankOver(s, i + 1, j); }
  }

  /** Leading whitespace yields no word. */
  lemma SplitLeadingBlanks(ws: seq<char>, t: seq<char>)
    requires AllWhitespace(ws)
    ensures SplitWhitespace(ws + t) == SplitWhitespace(t)
  {
    var s := ws + t;
    forall k | 0 <= k < |ws| ensures IsWhitespace(s[k]) {
      assert s[k] == ws[k];
    }
    SkipBlankOver(s, 0, |ws|);
    assert SplitFrom(s, 0) == SplitFrom(s, |ws|);
    SplitFromShift(ws, t, 0);
  }

  /** Splitting t followed by whitespace, from i within t, splits t alone. */
  lemma {:induction false} SplitFromBeforeBlanks(t: seq<char>, ws: seq<char>, i: nat)
    requires AllWhitespace(ws) && i <= |t|
    ensures SplitFrom(t + ws, i) == SplitFrom(t, i)
    decreases |t| - i
  {
    var j := SkipBlank(t, i);
    if j == |t| {
      BlanksBeforeBlanks(t, ws, i);
    } else {
      var e := WordBeforeBlanks(t, ws, i);
      SplitFromBeforeBlanks(t, ws, e);
    }
  }

  /** From where t has only whitespace left, neither t nor t followed by whitespace has a word. */
  lemma BlanksBeforeBlanks(t: seq<char>, ws: seq<char>, i: nat)
    requires AllWhitespace(ws) && i <= |t| && SkipBlank(t, i) == |t|
    ensures SplitFrom(t + ws, i) == [] && SplitFrom(t, i) == []
  {
    var s := t + ws;
    SkipBlankSkipsWhitespace(t, i);
    forall k | i <= k < |s| ensures IsWhitespace(s[k]) {
      if k < |t| { assert s[k] == t[k]; } else { assert s[k] == ws[k - |t|]; }
    }
    SkipBlankAt(s, i, |s|);
  }

  /** From where t has a word left, t and t followed by whitespace both split off that word first; e is where it ends. */
  lemma WordBeforeBlanks(t: seq<char>, ws: seq<char>, i: nat) returns (e: nat)
    requires AllWhitespace(ws) && i <= |t| && SkipBlank(t, i) < |t|
    ensures i <= SkipBlank(t, i) < e <= |t|
    ensures var w := t[SkipBlank(t, i)..e];
      SplitFrom(t + ws, i) == [w] + SplitFrom(t + ws, e) && SplitFrom(t, i) == [w] + SplitFrom(t, e)
  {
    var s := t + ws;
    var j := SkipBlank(t, i);
    SkipBlankSkipsWhitespace(t, i);
    forall k | i <= k < j ensures IsWhitespace(s[k]) {
      assert s[k] == t[k];
    }
    assert s[j] == t[j];
    SkipBlankAt(s, i, j);
    e := WordEnd(t, j);
    WordEndSpansWord(t, j);
    forall k | j <= k < e ensures !IsWhitespace(s[k]) {
      assert s[k] == t[k];
    }
    if e < |s| {
      if e < |t| { assert s[e] == t[e]; } else { assert s[e] == ws[0]; }
    }
    WordEndAt(s, j, e);
    SplitFromStep(s, i, j, e);
    SplitFromStep(t, i, j, e);
    assert s[j..e] == t[j..e];
  }

  /** Trailing whitespace yields no word. */
  lemma SplitTrailingBlanks(t: seq<char>, ws: seq<char>)
    requires AllWhitespace(ws)
    ensures SplitWhitespace(t + ws) == SplitWhitespace(t)
  {
    SplitFromBeforeBlanks(t, ws, 0);
  }

  /** `split_whitespace` of the trimmed text gives the same words as of the text itself. */
  lemma SplitIgnoresTrim(s: seq<char>)
    ensures SplitWhitespace(Trim(s)) == SplitWhitespace(s)
  {
    TrimSlice(s);
    var i := SkipBlank(s, 0);
    var r := Trim(s);
    var pre := s[..i];
    var post := s[i + |r|..];
    assert s == pre + (r + post);
    assert AllWhitespace(pre) by {
      forall k | 0 <= k < |pre| ensures IsWhitespace(pre[k]) { assert pre[k] == s[k]; }
    }
    assert AllWhitespace(post) by {
      forall k | 0 <= k < |post| ensures IsWhitespace(post[k]) { assert post[k] == s[i + |r| + k]; }
    }
    SplitLeadingBlanks(pre, r + post);
    SplitTrailingBlanks(r, post);
  }

  /** Index of the first '\n' in s, or |s| when there is none. */
  function LineBreak(s: seq<char>): (k: nat)
    ensures k <= |s|
    ensures k < |s| ==> s[k] == '\n'
  {
    if s == [] || s[0] == '\n' then 0 else 1 + LineBreak(s[1..])
  }

  /** No '\n' comes before the one LineBreak finds. */
  lemma {:induction false} LineBreakIsFirst(s: seq<char>)
    ensures forall i :: 0 <= i < LineBreak(s) ==> s[i] != '\n'
    decreases |s|
  {
    if s != [] && s[0] != '\n' {
      LineBreakIsFirst(s[1..]);
      forall i | 0 < i < LineBreak(s) ensures s[i] != '\n' {
        assert s[1..][i - 1] == s[i];
      }
    }
  }

  /** One line as `lines` yields it: a '\r' is dropped only in front of the '\n' that ends the line. */
  function LineBody(s: seq<char>, k: nat): seq<char>
    requires k <= |s|
  {
    if k < |s| && k > 0 && s[k - 1] == '\r' then s[..k - 1] else s[..k]
  }

  /**
   * `str::lines`: the text split at each '\n', a "\r\n" ending counting as
   * one; a final line ending does not start another, empty, line.
   */
  function Lines(s: seq<char>): (ls: seq<seq<char>>)
    ensures |ls| <= |s|
    ensures s != [] ==> ls != []
    ensures forall i :: 0 <= i < |ls| ==> '\n' !in ls[i]
    decreases |s|
  {
    if s == [] then []
    else
      var k := LineBreak(s);
      var line := LineBody(s, k);
      LineBreakIsFirst(s);
      assert '\n' !in line by {
        assert forall i :: 0 <= i < |line| ==> line[i] == s[i];
      }
      if k == |s| then [line] else [line] + Lines(s[k + 1..])
  }

  /** LineBreak finds a '\n' at k with none before it, or the end of a text without one. */
  lemma {:induction false} LineBreakAt(s: seq<char>, k: nat)
    requires k <= |s| && (k == |s| || s[k] == '\n')
    requires forall i :: 0 <= i < k ==> s[i] != '\n'
    ensures LineBreak(s) == k
    decreases |s|
  {
    if k > 0 {
      assert s[0] != '\n';
      assert forall i :: 0 <= i < k - 1 ==> s[1..][i] == s[i + 1];
      LineBreakAt(s[1..], k - 1);
    }
  }

  /**
   * Where `lines` cuts: a stretch without '\n' followed by '\n' is one line,
   * less a '\r' right before the '\n', and the lines of the rest follow.
   */
  lemma LinesAtNewline(a: seq<char>, rest: seq<char>)
    requires '\n' !in a
    ensures Lines(a + "\n" + rest) ==
      [if a != [] && a[|a| - 1] == '\r' then a[..|a| - 1] else a] + Lines(rest)
  {
    var s := a + "\n" + rest;
    assert forall i :: 0 <= i < |a| ==> s[i] == a[i];
    assert s[|a|] == '\n';
    LineBreakAt(s, |a|);
    assert s[|a| + 1..] == rest;
    assert s[..|a|] == a;
    if a != [] {
      assert s[|a| - 1] == a[|a| - 1];
      assert s[..|a| - 1] == a[..|a| - 1];
    }
  }

  /** A last line without '\n' is yielded whole, a final '\r' included. */
  lemma LinesOfLastLine(a: seq<char>)
    requires a != [] && '\n' !in a
    ensures Lines(a) == [a]
  {
    LineBreakAt(a, |a|);
    assert a[..|a|] == a;
  }

  /** The lines joined with '\n' between them. */
  function JoinLines(ls: seq<seq<char>>): seq<char>
  {
    if ls == [] then [] else if |ls| == 1 then ls[0] else ls[0] + "\n" + JoinLines(ls[1..])
  }

  /** The line ending s finishes with, if any. */
  function FinalNewline(s: seq<char>): seq<char>
  {
    if s != [] && s[|s| - 1] == '\n' then "\n" else []
  }

  /** Joining a line in front of at least one more puts a '\n' between them. */
  lemma JoinLinesCons(a: seq<char>, ls: seq<seq<char>>)
    requires ls != []
    ensures JoinLines([a] + ls) == a + "\n" + JoinLines(ls)
  {
    assert ([a] + ls)[1..] == ls;
  }

  /** A text ends as its last part does once that part is not empty. */
  lemma FinalNewlineOfRest(a: seq<char>, rest: seq<char>)
    requires rest != []
    ensures FinalNewline(a + "\n" + rest) == FinalNewline(rest)
  {
    assert (a + "\n" + rest)[|a + "\n" + rest| - 1] == rest[|rest| - 1];
  }

  /** A text with a '\n' is its first line, that '\n' and the rest. */
  lemma FirstNewlineSplits(s: seq<char>)
    requires LineBreak(s) < |s|
    ensures var k := LineBreak(s);
      s == s[..k] + "\n" + s[k + 1..] && '\n' !in s[..k]
  {
    var k := LineBreak(s);
    LineBreakIsFirst(s);
    AbsentBefore(s, '\n', k);
    SplitAround(s, k);
  }

  /** A character none of the first k elements is, is not in s[..k]. */
  lemma AbsentBefore(s: seq<char>, c: char, k: nat)
    requires k <= |s| && forall i :: 0 <= i < k ==> s[i] != c
    ensures c !in s[..k]
  {
    var a := s[..k];
    forall i | 0 <= i < |a| ensures a[i] != c {
      assert a[i] == s[i];
    }
  }

  /** s is what comes before position k, the element at k, and what follows. */
  lemma SplitAround(s: seq<char>, k: nat)
    requires k < |s|
    ensures s == s[..k] + [s[k]] + s[k + 1..]
  {
    assert s[..k + 1] == s[..k] + [s[k]];
    assert s == s[..k + 1] + s[k + 1..];
  }

  /**
   * For text without '\r', joining the lines with '\n' and restoring a final
   * line ending gives the text back: `lines` cuts at every '\n' and loses
   * nothing else.
   */
  lemma {:induction false} LinesJoinBack(s: seq<char>)
    requires '\r' !in s
    ensures JoinLines(Lines(s)) + FinalNewline(s) == s
    decreases |s|
  {
    if s != [] {
      var k := LineBreak(s);
      if k == |s| {
        LineBreakIsFirst(s);
        LinesOfLastLine(s);
      } else {
        FirstNewlineSplits(s);
        var a := s[..k];
        var rest := s[k + 1..];
        AbsentFromSlice(s, '\r', 0, k);
        AbsentFromSlice(s, '\r', k + 1, |s|);
        if rest == [] {
          JoinBackLastLine(a);
        } else {
          LinesJoinBack(rest);
          JoinBackStep(a, rest);
        }
      }
    }
  }

  /** The induction step of LinesJoinBack: one more line in front. */
  lemma JoinBackStep(a: seq<char>, rest: seq<char>)
    requires '\n' !in a && '\r' !in a && rest != []
    requires JoinLines(Lines(rest)) + FinalNewline(rest) == rest
    ensures JoinLines(Lines(a + "\n" + rest)) + FinalNewline(a + "\n" + rest) == a + "\n" + rest
  {
    var ls := Lines(rest);
    LinesAtNewlineWithoutCr(a, rest);
    JoinLinesCons(a, ls);
    FinalNewlineOfRest(a, rest);
    Reassociate(a, JoinLines(ls), FinalNewline(rest));
  }

  /** (a + "\n" + j) + f == a + "\n" + (j + f). */
  lemma Reassociate(a: seq<char>, j: seq<char>, f: seq<char>)
    ensures a + "\n" + j + f == a + "\n" + (j + f)
  {
  }

  /** The base case of LinesJoinBack ending in '\n'. */
  lemma JoinBackLastLine(a: seq<char>)
    requires '\n' !in a && '\r' !in a
    ensures JoinLines(Lines(a + "\n" + [])) + FinalNewline(a + "\n" + []) == a + "\n" + []
  {
    LinesAtNewlineWithoutCr(a, []);
  }

  /** A character absent from s is absent from every slice of it. */
  lemma AbsentFromSlice(s: seq<char>, c: char, i: nat, j: nat)
    requires c !in s && i <= j <= |s|
    ensures c !in s[i..j]
  {
    assert forall k :: 0 <= k < j - i ==> s[i..j][k] == s[i + k];
  }

  /** A line without '\r' is cut exactly at its '\n'. */
  lemma LinesAtNewlineWithoutCr(a: seq<char>, rest: seq<char>)
    requires '\n' !in a && '\r' !in a
    ensures Lines(a + "\n" + rest) == [a] + Lines(rest)
  {
    LinesAtNewline(a, rest);
    if a != [] {
      assert a[|a| - 1] in a;
    }
  }

  /** `str::contains` for a string pattern: q occurs in s at some offset. */
  predicate Contains(s: seq<char>, q: seq<char>)
  {
    exists i: nat :: i <= |s| - |q| && OccursAt(s, q, i)
  }

  lemma ContainsEmpty(s: seq<char>)
    ensures Contains(s, [])
  {
    assert OccursAt(s, [], 0);
  }
}
