/** Small things used throughout. */
module Basics {

  datatype Option<+T> = None | Some(value: T)

  function Abs(i: int): nat {
    if i < 0 then -i else i
  }

  /** A condition counted as a number. */
  function One(b: bool): nat {
    if b then 1 else 0
  }

  lemma MulMonotone(p: nat, x: int, y: int)
    requires x <= y
    ensures p * x <= p * y
  {
    assert p * (y - x) >= 0;
  }
}
