/**
 * `largest` of learn/generic_arg on a list of integers: the reference it
 * returns is given as the index of the element it points to.
 */
module GenericLargest {

  /** `largest`: start from the first element, move to every strictly greater one. */
  method Largest(list: seq<int>) returns (max: nat)
    requires |list| > 0
    ensures max < |list|
    ensures forall i :: 0 <= i < |list| ==> list[i] <= list[max]
    ensures forall i :: 0 <= i < max ==> list[i] < list[max]
  {
    max := 0;
    for i := 0 to |list|
      invariant max < |list| && max <= i
      invariant forall j :: 0 <= j < i ==> list[j] <= list[max]
      invariant forall j :: 0 <= j < max ==> list[j] < list[max]
    {
      if list[i] > list[max] {
        max := i;
      }
    }
  }

  /** The list of `main`. */
  method NumListLargest() returns (largest: int)
    ensures largest == 5
  {
    var numList := [1, 2, 3, 4, 5];
    var i := Largest(numList);
    assert numList[4] <= numList[i];
    assert forall j :: 0 <= j < 5 ==> numList[j] <= 5;
    largest := numList[i];
  }
}
