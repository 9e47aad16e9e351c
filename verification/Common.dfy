/** What the other modules share. */
module Common {
  datatype Option<+T> = None | Some(value: T)

  function Quot(a: nat, b: nat): (q: int)
    requires b >= 2
    ensures 0 <= q <= a && (a > 0 ==> q < a) && (q == 0 <==> a < b)
  {
    a / b
  }

  /** C division rounds towards zero. */
  function TruncDiv(a: int, b: nat): int
    requires b >= 2
  {
    if a < 0 then -Quot(-a, b) else Quot(a, b)
  }
}
