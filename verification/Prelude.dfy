/** The optional value every nullable column and field of the model uses, and positions in a list. */
module Prelude {
  datatype Option<+T> = None | Some(value: T) {
    predicate IsFailure() {
      None?
    }

    function PropagateFailure<U>(): Option<U>
      requires None?
    {
      None
    }

    function Extract(): T
      requires Some?
    {
      value
    }

    function GetOr(default: T): T {
      if Some? then value else default
    }
  }

  predicate Increasing(at: seq<nat>) {
    forall t, u :: 0 <= t < u < |at| ==> at[t] < at[u]
  }

  /** The positions below n that meet a test, in order. */
  ghost function Picked(n: nat, test: nat -> bool): (at: seq<nat>)
    ensures Increasing(at)
    ensures forall b: nat :: b in at <==> b < n && test(b)
  {
    if n == 0 then []
    else
      var before := Picked(n - 1, test);
      assert forall b: nat :: b in before + [n - 1] <==> b in before || b == n - 1;
      assert forall t :: 0 <= t < |before| ==> before[t] in before;
      if test(n - 1) then before + [n - 1] else before
  }
}
