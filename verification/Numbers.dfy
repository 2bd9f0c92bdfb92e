/** Integer helpers shared by the index-keeping modules. */
module Numbers {

  function Abs(x: int): (r: int)
    ensures r >= 0
  {
    if x < 0 then -x else x
  }

  function Min(a: int, b: int): int {
    if a < b then a else b
  }
}
