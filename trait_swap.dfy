/**
 * `swap` of learn/trait_1: exchange the values behind two mutable
 * references, through a temporary copy. A reference is a `Cell` holding the
 * value; Rust's borrow rules make the two references distinct.
 */
module TraitSwap {

  /** A place a `&mut T` points to. */
  class Cell<T> {
    var value: T

    constructor (value: T)
      ensures this.value == value
    {
      this.value := value;
    }
  }

  /** `swap`: each place receives the other's old value; nothing else changes. */
  method Swap<T>(a: Cell<T>, b: Cell<T>)
    requires a != b
    modifies a, b
    ensures a.value == old(b.value) && b.value == old(a.value)
  {
    var temp := a.value;
    a.value := b.value;
    b.value := temp;
  }

  /** Swapping twice restores both places. */
  method SwapTwice<T>(a: Cell<T>, b: Cell<T>)
    requires a != b
    modifies a, b
    ensures a.value == old(a.value) && b.value == old(b.value)
  {
    Swap(a, b);
    Swap(a, b);
  }

  /** The swap in `main`: `a = 1.1` and `b = 2.2` come out exchanged. */
  method SwapFloats() returns (a: real, b: real)
    ensures a == 2.2 && b == 1.1
  {
    var ca := new Cell(1.1);
    var cb := new Cell(2.2);
    Swap(ca, cb);
    a, b := ca.value, cb.value;
  }
}
