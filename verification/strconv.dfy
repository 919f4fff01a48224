/** Decimal rendering of integers, as Go's `%d` verb and `strconv.Itoa` produce it. */
module Strconv {

  function Digits(n: nat): (s: string)
    decreases n
  {
    if n < 10 then ["0123456789"[n]] else Digits(n / 10) + ["0123456789"[n % 10]]
  }

  function Itoa(i: int): string
  {
    if i < 0 then "-" + Digits(-i) else Digits(i)
  }
}
