/**
 * learn/hashmap: a map from team names to scores where inserting an existing
 * key overwrites its value, and a word count over `split_whitespace` built
 * with `entry(word).or_insert(0)` followed by `*count += 1`.
 */
module HashmapDemo {
  import opened Wrappers
  import opened RustText

  /** The value stored under k, or 0 when k is absent: what `or_insert(0)` finds. */
  function Get<K>(m: map<K, int>, k: K): int
  {
    if k in m then m[k] else 0
  }

  /** A `HashMap` with integer values, updated in place. */
  class HashMap<K(==)> {
    var entries: map<K, int>

    /** `HashMap::new`. */
    constructor ()
      ensures entries == map[]
    {
      entries := map[];
    }

    /** `insert`: k now maps to v, every other key is untouched, and the value it replaced is returned. */
    method Insert(k: K, v: int) returns (previous: Option<int>)
      modifies this
      ensures entries == old(entries)[k := v]
      ensures previous == if k in old(entries) then Some(old(entries)[k]) else None
    {
      previous := if k in entries then Some(entries[k]) else None;
      entries := entries[k := v];
    }

    /** `*entry(k).or_insert(0) += 1`. */
    method EntryAddOne(k: K)
      modifies this
      ensures entries == old(entries)[k := Get(old(entries), k) + 1]
    {
      var count := if k in entries then entries[k] else 0;
      entries := entries[k := count + 1];
    }
  }

  /** Inserting a key that is present replaces its value and adds no key. */
  lemma InsertExistingKeepsKeys<K>(m: map<K, int>, k: K, v: int)
    requires k in m
    ensures m[k := v].Keys == m.Keys && |m[k := v]| == |m| && m[k := v][k] == v
  {
    assert m[k := v].Keys == m.Keys;
  }

  /** The score table of `main`: "Blue" inserted twice with 10 and then overwritten with 25, "Yellow" with 50. */
  method TeamScores() returns (scores: map<string, int>)
    ensures scores == map["Blue" := 25, "Yellow" := 50] && |scores| == 2
  {
    var table := new HashMap<string>();
    var teamName := "Blue";
    var teamScore := 10;
    var _ := table.Insert("Blue", 10);
    var _ := table.Insert("Yellow", 50);
    var replaced := table.Insert(teamName, teamScore);
    assert replaced == Some(10) && |table.entries| == 2;
    var _ := table.Insert("Blue", 25);
    scores := table.entries;
    assert scores.Keys == {"Blue", "Yellow"};
  }

  /** The counts after the loop has seen the words ws, one `entry` update per word. */
  function Tally(ws: seq<string>): map<string, int>
    decreases |ws|
  {
    if ws == [] then map[]
    else
      var m := Tally(ws[..|ws| - 1]);
      var w := ws[|ws| - 1];
      m[w := Get(m, w) + 1]
  }

  /** The keys are exactly the words seen, and each count is the word's number of occurrences. */
  lemma {:induction false} TallyCountsOccurrences(ws: seq<string>)
    ensures Tally(ws).Keys == set w | w in ws
    ensures forall w :: Get(Tally(ws), w) == multiset(ws)[w]
    decreases |ws|
  {
    if ws != [] {
      var front := ws[..|ws| - 1];
      var w := ws[|ws| - 1];
      TallyCountsOccurrences(front);
      assert ws == front + [w];
      assert multiset(ws) == multiset(front) + multiset{w};
    }
  }

  /** The counts of m over the keys ks. */
  function SumOver(m: map<string, int>, ks: seq<string>): int
  {
    if ks == [] then 0 else Get(m, ks[0]) + SumOver(m, ks[1..])
  }

  /** ks lists no key twice. */
  predicate Distinct(ks: seq<string>)
  {
    forall i, j :: 0 <= i < j < |ks| ==> ks[i] != ks[j]
  }

  /** One more occurrence of w adds one to the sum over a key list that names w once, and nothing when it does not name w. */
  lemma {:induction false} SumOverStep(m: map<string, int>, ks: seq<string>, w: string)
    requires Distinct(ks)
    ensures SumOver(m[w := Get(m, w) + 1], ks) == SumOver(m, ks) + (if w in ks then 1 else 0)
    decreases |ks|
  {
    if ks != [] {
      SumOverStep(m, ks[1..], w);
      assert w in ks <==> w == ks[0] || w in ks[1..];
      if w == ks[0] {
        assert w !in ks[1..] by {
          forall j | 0 <= j < |ks[1..]| ensures ks[1..][j] != w {
            assert ks[1..][j] == ks[j + 1];
          }
        }
      }
    }
  }

  /** The empty map sums to 0 over any key list. */
  lemma {:induction false} SumOverEmpty(ks: seq<string>)
    ensures SumOver(map[], ks) == 0
    decreases |ks|
  {
    if ks != [] { SumOverEmpty(ks[1..]); }
  }

  /** Over a key list that names every word once, the counts add up to the number of words. */
  lemma {:induction false} TallySumsToWordCount(ws: seq<string>, ks: seq<string>)
    requires Distinct(ks) && forall w :: w in ws ==> w in ks
    ensures SumOver(Tally(ws), ks) == |ws|
    decreases |ws|
  {
    if ws == [] {
      SumOverEmpty(ks);
    } else {
      var front := ws[..|ws| - 1];
      var w := ws[|ws| - 1];
      assert forall u :: u in front ==> u in ws;
      TallySumsToWordCount(front, ks);
      SumOverStep(Tally(front), ks, w);
    }
  }

  /** The word-count loop of `main` over `text.split_whitespace()`. */
  method CountWords(text: string) returns (counts: map<string, int>)
    ensures counts == Tally(SplitWhitespace(text))
  {
    var words := SplitWhitespace(text);
    var table := new HashMap<string>();
    for i := 0 to |words|
      invariant table.entries == Tally(words[..i])
    {
      assert words[..i + 1][..i] == words[..i];
      table.EntryAddOne(words[i]);
    }
    assert words[..|words|] == words;
    counts := table.entries;
  }

  /** The text counted in `main`. */
  const GREETING := "hello world helloworld hello world"

  /** A word of lower-case ASCII letters holds no whitespace. */
  lemma LowerCaseWord(w: string)
    requires forall i :: 0 <= i < |w| ==> 'a' <= w[i] <= 'z'
    ensures NoWhitespace(w)
  {
  }

  /** Five words separated by single blanks split into those five words. */
  lemma SplitFiveWords(a: string, b: string, c: string)
    requires a != [] && b != [] && c != [] && NoWhitespace(a) && NoWhitespace(b) && NoWhitespace(c)
    ensures SplitWhitespace(a + " " + (b + " " + (c + " " + (a + " " + b)))) == [a, b, c, a, b]
  {
    SplitSingleWord(b);
    SplitLeadingWord(a, b);
    SplitLeadingWord(c, a + " " + b);
    SplitLeadingWord(b, c + " " + (a + " " + b));
    SplitLeadingWord(a, b + " " + (c + " " + (a + " " + b)));
  }

  /** The text is its five words joined by single blanks. */
  lemma GreetingSpelled()
    ensures GREETING == "hello" + " " + ("world" + " " + ("helloworld" + " " + ("hello" + " " + "world")))
  {
    var joined := "hello" + " " + ("world" + " " + ("helloworld" + " " + ("hello" + " " + "world")));
    assert |GREETING| == |joined|;
    forall k | 0 <= k < |GREETING| ensures GREETING[k] == joined[k] {
    }
  }

  /** `split_whitespace` of the text yields its five words. */
  lemma GreetingWords()
    ensures SplitWhitespace(GREETING) == ["hello", "world", "helloworld", "hello", "world"]
  {
    GreetingSpelled();
    LowerCaseWord("hello");
    LowerCaseWord("world");
    LowerCaseWord("helloworld");
    SplitFiveWords("hello", "world", "helloworld");
  }

  /** Three distinct words, the first two seen twice: two counts of 2 and one of 1. */
  lemma TallyOfTwoRepeats(a: string, b: string, c: string)
    requires a != b && a != c && b != c
    ensures var counts := Tally([a, b, c, a, b]);
      counts.Keys == {a, b, c} && counts[a] == 2 && counts[b] == 2 && counts[c] == 1
  {
    var ws := [a, b, c, a, b];
    assert multiset(ws) == multiset{a, a, b, b, c};
    TallyCountsOccurrences(ws);
    assert Get(Tally(ws), a) == 2 && Get(Tally(ws), b) == 2 && Get(Tally(ws), c) == 1;
  }

  /** For that text the counts are hello = 2, world = 2 and helloworld = 1, and there are no other keys. */
  lemma GreetingCounts()
    ensures var counts := Tally(SplitWhitespace(GREETING));
      && counts.Keys == {"hello", "world", "helloworld"}
      && counts["hello"] == 2 && counts["world"] == 2 && counts["helloworld"] == 1
  {
    GreetingWords();
    var hello, world, both := "hello", "world", "helloworld";
    assert hello != world && hello != both && world != both by {
      assert hello[0] != world[0] && |hello| != |both| && |world| != |both|;
    }
    TallyOfTwoRepeats(hello, world, both);
  }
}
