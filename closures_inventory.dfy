/**
 * The shirt giveaway of learn/closures: an inventory of shirts, from which a
 * customer gets the colour they ask for or, without a preference, the colour
 * most in stock.
 */
module ClosuresInventory {
  import opened Wrappers

  /** `ShirtColor`, discriminants 0 to 5 in declaration order. */
  datatype ShirtColor = NoneColor | Blue | Red | Green | Yellow | Pink

  /** The four colours `get_most_store` counts, in counter order: counter k is colour k + 1. */
  const COUNTED: seq<ShirtColor> := [Blue, Red, Green, Yellow]

  const NO_THIS_COLOR: string := "no this color"

  /** The colours `get_most_store` can count. */
  predicate Countable(c: ShirtColor)
  {
    c in COUNTED
  }

  /** How many shirts of colour c are in s. */
  function Count(s: seq<ShirtColor>, c: ShirtColor): nat
  {
    multiset(s)[c]
  }

  /** Index of the first shirt of colour c. */
  function FirstIndex(s: seq<ShirtColor>, c: ShirtColor): (i: nat)
    requires c in s
    ensures i < |s| && s[i] == c
  {
    if s[0] == c then 0 else 1 + FirstIndex(s[1..], c)
  }

  /** No shirt before the one FirstIndex finds has colour c. */
  lemma {:induction false} FirstIndexIsFirst(s: seq<ShirtColor>, c: ShirtColor)
    requires c in s
    ensures forall j :: 0 <= j < FirstIndex(s, c) ==> s[j] != c
    decreases |s|
  {
    if s[0] != c {
      FirstIndexIsFirst(s[1..], c);
      forall j | 1 <= j < FirstIndex(s, c) ensures s[j] != c {
        assert s[j] == s[1..][j - 1];
      }
    }
  }

  /** s without its first shirt of colour c: `Vec::remove` at the first index holding c. */
  function RemoveFirst(s: seq<ShirtColor>, c: ShirtColor): seq<ShirtColor>
    requires c in s
  {
    var i := FirstIndex(s, c);
    s[..i] + s[i + 1..]
  }

  /** The others keep their order, the stock shrinks by one and only the colour's count drops, by one. */
  lemma RemoveFirstDeletesOne(s: seq<ShirtColor>, c: ShirtColor)
    requires c in s
    ensures |RemoveFirst(s, c)| == |s| - 1
    ensures multiset(RemoveFirst(s, c)) == multiset(s) - multiset{c}
  {
    var i := FirstIndex(s, c);
    var a, b := s[..i], s[i + 1..];
    assert s == a + [c] + b;
    assert multiset(s) == multiset(a) + multiset{c} + multiset(b);
    assert multiset(a + b) == multiset(a) + multiset(b);
  }

  /** The first counted colour whose count beats `max`, scanning counters k.. in order; `give` so far. */
  function PickFrom(counts: seq<nat>, k: nat, max: nat, give: ShirtColor): ShirtColor
    requires |counts| == 4 && k <= 4
    decreases 4 - k
  {
    if k == 4 then give
    else if counts[k] > max then PickFrom(counts, k + 1, counts[k], COUNTED[k])
    else PickFrom(counts, k + 1, max, give)
  }

  /** The four counters of a stock. */
  function Counts(s: seq<ShirtColor>): (counts: seq<nat>)
    ensures |counts| == 4
  {
    [Count(s, Blue), Count(s, Red), Count(s, Green), Count(s, Yellow)]
  }

  /** The colour `get_most_store` picks: a strictly greater count wins, so ties go to the earlier colour. */
  function MostStocked(s: seq<ShirtColor>): ShirtColor
  {
    PickFrom(Counts(s), 0, 0, NoneColor)
  }

  /** Counter index of a counted colour: `color as usize - 1`. */
  function Counter(c: ShirtColor): (k: nat)
    requires Countable(c)
    ensures k < 4 && COUNTED[k] == c
  {
    match c
    case Blue => 0
    case Red => 1
    case Green => 2
    case Yellow => 3
  }

  /** Counter b holds the largest of counters 0..k-1 and every earlier counter is smaller. */
  predicate FirstMaximumUpTo(counts: seq<nat>, b: nat, k: nat)
    requires |counts| == 4 && k <= 4
  {
    b < k && forall j :: 0 <= j < k ==> counts[j] <= counts[b] && (j < b ==> counts[j] < counts[b])
  }

  /** What the scan has kept after counters 0..k-1: nothing while all were 0, otherwise the first of the largest. */
  predicate ScanSoFar(counts: seq<nat>, k: nat, max: nat, give: ShirtColor)
    requires |counts| == 4 && k <= 4
  {
    if give == NoneColor then max == 0 && forall j :: 0 <= j < k ==> counts[j] == 0
    else Countable(give) && FirstMaximumUpTo(counts, Counter(give), k) && max == counts[Counter(give)] && max > 0
  }

  /** The scan ends with nothing exactly when every counter is 0, and otherwise with the first counter at the maximum. */
  lemma {:induction false} PickFromIsFirstMaximum(counts: seq<nat>, k: nat, max: nat, give: ShirtColor)
    requires |counts| == 4 && k <= 4 && ScanSoFar(counts, k, max, give)
    ensures ScanSoFar(counts, 4, 0, NoneColor) <==> PickFrom(counts, k, max, give) == NoneColor
    ensures var r := PickFrom(counts, k, max, give); r != NoneColor ==> Countable(r) && FirstMaximumUpTo(counts, Counter(r), 4)
    decreases 4 - k
  {
    if k < 4 {
      if counts[k] > max {
        PickFromIsFirstMaximum(counts, k + 1, counts[k], COUNTED[k]);
      } else {
        PickFromIsFirstMaximum(counts, k + 1, max, give);
      }
    } else if give != NoneColor {
      assert counts[Counter(give)] > 0;
    }
  }

  /**
   * `get_most_store` on a stock of counted colours: NoneColor exactly when
   * the stock is empty, otherwise a colour in stock whose count no colour
   * beats, with every earlier colour strictly below it.
   */
  lemma MostStockedIsFirstMaximum(s: seq<ShirtColor>)
    requires forall i :: 0 <= i < |s| ==> Countable(s[i])
    ensures var r := MostStocked(s);
      && (r == NoneColor <==> s == [])
      && (r != NoneColor ==> r in s && FirstMaximumUpTo(Counts(s), Counter(r), 4))
  {
    PickFromIsFirstMaximum(Counts(s), 0, 0, NoneColor);
    if s != [] {
      assert Countable(s[0]) && Count(s, s[0]) > 0;
      assert Counts(s)[Counter(s[0])] > 0;
    }
  }

  /** A shirt of colour c at index i with none before it is the first. */
  lemma {:induction false} FirstIndexAt(s: seq<ShirtColor>, c: ShirtColor, i: nat)
    requires i < |s| && s[i] == c && forall j :: 0 <= j < i ==> s[j] != c
    ensures FirstIndex(s, c) == i
    decreases i
  {
    if i > 0 {
      FirstIndexAt(s[1..], c, i - 1);
    }
  }

  /** `get_select_shirtcolor` on values: the answer and the stock left. */
  function Take(s: seq<ShirtColor>, c: ShirtColor): (Result<ShirtColor, string>, seq<ShirtColor>)
  {
    if c in s then (Ok(c), RemoveFirst(s, c)) else (Err(NO_THIS_COLOR), s)
  }

  /** A taken shirt leaves the stock one shorter with one fewer of its colour; a refusal leaves it as it was. */
  lemma TakeGivesOneShirt(s: seq<ShirtColor>, c: ShirtColor)
    ensures var (r, t) := Take(s, c);
      && (r.Ok? <==> c in s)
      && (r.Ok? ==> r.value == c && |t| == |s| - 1 && multiset(t) == multiset(s) - multiset{c})
      && (r.Err? ==> r.error == NO_THIS_COLOR && t == s)
  {
    if c in s {
      RemoveFirstDeletesOne(s, c);
    }
  }

  /** Without a preference a non-empty stock of counted colours always gives a shirt: the most stocked colour. */
  lemma NoPreferenceGivesMostStocked(s: seq<ShirtColor>)
    requires forall i :: 0 <= i < |s| ==> Countable(s[i])
    ensures s != [] ==> Take(s, MostStocked(s)).0 == Ok(MostStocked(s))
    ensures s == [] ==> Take(s, MostStocked(s)) == (Err(NO_THIS_COLOR), [])
  {
    MostStockedIsFirstMaximum(s);
  }

  /** Counting one more shirt of a counted colour adds one to its counter and nothing to the others. */
  lemma CountsStep(s: seq<ShirtColor>, i: nat)
    requires i < |s| && Countable(s[i])
    ensures var k := Counter(s[i]); Counts(s[..i + 1]) == Counts(s[..i])[k := Counts(s[..i])[k] + 1]
  {
    assert s[..i + 1] == s[..i] + [s[i]];
  }

  /** `Inventor`: the shirts in stock, in order. */
  class Inventor {
    var shirt: seq<ShirtColor>

    constructor (shirt: seq<ShirtColor>)
      ensures this.shirt == shirt
    {
      this.shirt := shirt;
    }

    /** `store_have_shirtcolor`. */
    function StoreHaveShirtcolor(color: ShirtColor): bool
      reads this
    {
      color in shirt
    }

    /** `get_select_shirtcolor`: remove the first shirt of the colour and give it, or refuse. */
    method GetSelectShirtcolor(color: ShirtColor) returns (r: Result<ShirtColor, string>)
      modifies this
      ensures (r, shirt) == Take(old(shirt), color)
    {
      if StoreHaveShirtcolor(color) {
        var index := 0;
        while shirt[index] != color
          invariant index < |shirt| && color in shirt[index..]
          invariant forall j :: 0 <= j < index ==> shirt[j] != color
          decreases |shirt| - index
        {
          assert shirt[index..] == [shirt[index]] + shirt[index + 1..];
          index := index + 1;
        }
        FirstIndexAt(shirt, color, index);
        shirt := shirt[..index] + shirt[index + 1..];
        r := Ok(color);
      } else {
        r := Err(NO_THIS_COLOR);
      }
    }

    /**
     * `get_most_store`: count the four colours, then keep the first
     * strictly larger count. None is `process::exit(1)` on a colour it
     * cannot count.
     */
    method GetMostStore() returns (r: Option<ShirtColor>)
      ensures r.None? <==> exists i :: 0 <= i < |shirt| && !Countable(shirt[i])
      ensures r.Some? ==> r.value == MostStocked(shirt)
    {
      var counts := new nat[4](_ => 0);
      for i := 0 to |shirt|
        invariant counts[..] == Counts(shirt[..i])
        invariant forall j :: 0 <= j < i ==> Countable(shirt[j])
      {
        if Countable(shirt[i]) {
          CountsStep(shirt, i);
        }
        match shirt[i]
        case Blue => counts[0] := counts[0] + 1;
        case Red => counts[1] := counts[1] + 1;
        case Green => counts[2] := counts[2] + 1;
        case Yellow => counts[3] := counts[3] + 1;
        case _ => return None;
      }
      assert shirt[..|shirt|] == shirt;
      var max := 0;
      var give := NoneColor;
      for i := 0 to 4
        invariant PickFrom(counts[..], i, max, give) == MostStocked(shirt)
      {
        if counts[i] > max {
          max := counts[i];
          give := COUNTED[i];
        }
      }
      r := Some(give);
    }

    /** `getaway`: the preferred colour, or without one the colour most in stock. */
    method Getaway(usrPref: Option<ShirtColor>) returns (r: Option<Result<ShirtColor, string>>)
      modifies this
      ensures usrPref.Some? ==> r.Some? && (r.value, shirt) == Take(old(shirt), usrPref.value)
      ensures usrPref.None? && (exists i :: 0 <= i < |old(shirt)| && !Countable(old(shirt)[i])) ==> r.None? && shirt == old(shirt)
      ensures usrPref.None? && (forall i :: 0 <= i < |old(shirt)| ==> Countable(old(shirt)[i])) ==>
        r.Some? && (r.value, shirt) == Take(old(shirt), MostStocked(old(shirt)))
    {
      match usrPref
      case Some(color) =>
        var g := GetSelectShirtcolor(color);
        r := Some(g);
      case None =>
        var most := GetMostStore();
        if most.None? {
          r := None;
        } else {
          var g := GetSelectShirtcolor(most.value);
          r := Some(g);
        }
    }
  }
}
