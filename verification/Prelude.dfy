/** Optional values, the outcome of a call that may panic, and the integers of Go and of math.Int. */
module Prelude {
  datatype Option<+T> = None | Some(value: T)

  /** How a Go call ends. */
  datatype Outcome<+T> = Returned(value: T) | Panicked {
    predicate IsFailure() {
      Panicked?
    }

    function PropagateFailure<U>(): Outcome<U>
      requires Panicked?
    {
      Panicked
    }

    function Extract(): T
      requires Returned?
    {
      value
    }
  }

  const TWO_63: int := 0x8000_0000_0000_0000
  const TWO_64: int := 0x1_0000_0000_0000_0000

  type uint64 = x: int | 0 <= x < TWO_64

  /** Go's sum of two unsigned 64-bit integers, which wraps. */
  function Add64(x: uint64, y: uint64): uint64 {
    if x + y < TWO_64 then x + y else x + y - TWO_64
  }

  /** The bound of math.Int, which holds 256 bits beside the sign. */
  const INT_LIMIT: int := 0x1_0000000000000000_0000000000000000_0000000000000000_0000000000000000

  // ---------- the greatest of a set ----------

  lemma {:induction false} GreatestElement(xs: set<uint64>) returns (m: uint64)
    requires xs != {}
    ensures m in xs && forall x :: x in xs ==> x <= m
    decreases |xs|
  {
    m :| m in xs;
    var rest := xs - {m};
    assert forall x :: x in xs ==> x == m || x in rest;
    if rest == {} {
    } else {
      var n := GreatestElement(rest);
      if n > m { m := n; }
    }
  }

  lemma GreatestElementExists(xs: set<uint64>)
    requires xs != {}
    ensures exists m: uint64 :: m in xs && forall x :: x in xs ==> x <= m
  {
    var m := GreatestElement(xs);
  }

  ghost function MaxOf(xs: set<uint64>): (m: uint64)
    requires xs != {}
    ensures m in xs && forall x :: x in xs ==> x <= m
  {
    GreatestElementExists(xs);
    var m: uint64 :| m in xs && forall x :: x in xs ==> x <= m;
    m
  }
}
