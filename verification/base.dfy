/** Types and functions that several models share. */
module Base {

  /** An unsigned char. */
  type byte = x: int | 0 <= x < 0x100

  /** A C unsigned int. Arithmetic on it must be shown not to wrap. */
  newtype uint32 = x: int | 0 <= x < 0x1_0000_0000

  datatype Option<+T> = None | Some(value: T)

  function Min(a: int, b: int): (r: int) {
    if a <= b then a else b
  }

  function Abs(x: real): (r: real)
    ensures r >= 0.0
  {
    if x < 0.0 then -x else x
  }

  function Power(b: nat, n: nat): (r: nat)
    ensures b > 0 ==> r > 0
  {
    if n == 0 then 1 else b * Power(b, n - 1)
  }

  lemma {:induction false} PowerGrows(b: nat, n: nat, m: nat)
    requires b > 0 && n <= m
    ensures Power(b, n) <= Power(b, m)
  {
    if n < m {
      PowerGrows(b, n, m - 1);
      assert (b - 1) * Power(b, m - 1) >= 0;
    }
  }
}
