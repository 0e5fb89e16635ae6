/**
 * learn/iter_test: `iter().map(|x| x + 1).collect()` on a list of numbers,
 * and two `iter().filter(..).collect()` pipelines on a list of shirts. The
 * iterators only read the list, so the model works on values and the source
 * list is unchanged by construction.
 */
module IterDemo {
  import opened SeqFilter

  /** `iter().map(f).collect()`: f applied to each element, in order. */
  function Map<T, U>(s: seq<T>, f: T -> U): (r: seq<U>)
    ensures |r| == |s|
    ensures forall i :: 0 <= i < |s| ==> r[i] == f(s[i])
    decreases |s|
  {
    if s == [] then [] else [f(s[0])] + Map(s[1..], f)
  }

  /** Adding one to each element and then subtracting one gives the list back. */
  lemma {:induction false} AddOneUndone(s: seq<int>)
    ensures Map(Map(s, x => x + 1), x => x - 1) == s
  {
    var r := Map(Map(s, x => x + 1), x => x - 1);
    assert forall i :: 0 <= i < |s| ==> r[i] == s[i];
  }

  /** `map(|x| x + 1)` on `[1, 2, 3]` gives `[2, 3, 4]`. */
  lemma ListPlusOne()
    ensures Map([1, 2, 3], x => x + 1) == [2, 3, 4]
  {
    var r := Map([1, 2, 3], x => x + 1);
    assert r[0] == 2 && r[1] == 3 && r[2] == 4;
  }

  /** A Rust `u32`. */
  type U32 = x: int | 0 <= x < 0x1_0000_0000

  datatype Shirt = Shirt(color: string, size: U32)

  /** The shirts of `main`: blue 10, red 10, blue 20. */
  const SHIRTS := [Shirt("blue", 10), Shirt("red", 10), Shirt("blue", 20)]

  function IsBlue(s: Shirt): bool { s.color == "blue" }

  function IsSizeTen(s: Shirt): bool { s.size == 10 }

  /**
   * Each pipeline keeps an order-preserving subsequence of the shirts, made
   * of exactly the shirts that pass its test.
   */
  lemma FiltersKeepExactlyThePassing()
    ensures SubsequenceOf(Filter(SHIRTS, IsBlue), SHIRTS) && SubsequenceOf(Filter(SHIRTS, IsSizeTen), SHIRTS)
    ensures forall s :: s in Filter(SHIRTS, IsBlue) <==> s in SHIRTS && s.color == "blue"
    ensures forall s :: s in Filter(SHIRTS, IsSizeTen) <==> s in SHIRTS && s.size == 10
  {
    FilterIsSubsequence(SHIRTS, IsBlue);
    FilterIsSubsequence(SHIRTS, IsSizeTen);
    FilterMembership(SHIRTS, IsBlue);
    FilterMembership(SHIRTS, IsSizeTen);
  }

  /** The colour filter keeps the first and the third shirt, the two blue ones. */
  lemma BlueShirts()
    ensures Filter(SHIRTS, IsBlue) == [SHIRTS[0], SHIRTS[2]]
  {
    assert "red" != "blue" by { assert "red"[0] != "blue"[0]; }
    assert SHIRTS[1..][1..] == [SHIRTS[2]];
  }

  /** The size filter keeps the first two shirts, the two of size 10. */
  lemma SizeTenShirts()
    ensures Filter(SHIRTS, IsSizeTen) == [SHIRTS[0], SHIRTS[1]]
  {
    assert SHIRTS[1..][1..] == [SHIRTS[2]];
  }
}
