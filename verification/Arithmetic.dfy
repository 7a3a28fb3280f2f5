/** C++ integer division. */
module Arithmetic {
  function Abs(a: int): nat { if a < 0 then -a else a }

  /** Towards zero. */
  function TruncDiv(a: int, b: int): int
    requires b != 0
  {
    if (a >= 0) == (b > 0) then Abs(a) / Abs(b) else -(Abs(a) / Abs(b))
  }

  /** The quotient of a non-negative number, rounded down; of its negative, the negative. */
  lemma TruncDivIsQuotient(a: nat, b: int)
    requires b > 0
    ensures 0 <= TruncDiv(a, b)
    ensures TruncDiv(a, b) * b <= a < TruncDiv(a, b) * b + b
    ensures TruncDiv(0 - a, b) == 0 - TruncDiv(a, b)
  {
    assert a == (a / b) * b + a % b;
  }
}
