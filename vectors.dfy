/** The integer vector `glam::IVec2`, as an unbounded pair of integers. */
module Vectors {

  datatype IVec2 = IVec2(x: int, y: int) {
    function Add(o: IVec2): IVec2 { IVec2(x + o.x, y + o.y) }
    function Sub(o: IVec2): IVec2 { IVec2(x - o.x, y - o.y) }
    function Neg(): IVec2 { IVec2(-x, -y) }
    function Scale(k: int): IVec2 { IVec2(k * x, k * y) }
    function MinElement(): int { if x <= y then x else y }
  }

  function Abs(n: int): nat { if n < 0 then -n else n }

  /** `(a - b).abs().max_element()`: the Chebyshev distance. */
  function ChebyshevDistance(a: IVec2, b: IVec2): (r: nat)
    ensures r == 0 <==> a == b
  {
    var dx := Abs(a.x - b.x);
    var dy := Abs(a.y - b.y);
    if dx >= dy then dx else dy
  }

  /** `IVec2::min` and `IVec2::max` work component by component. */
  function ComponentMin(a: IVec2, b: IVec2): IVec2 {
    IVec2(if a.x <= b.x then a.x else b.x, if a.y <= b.y then a.y else b.y)
  }

  function ComponentMax(a: IVec2, b: IVec2): IVec2 {
    IVec2(if a.x >= b.x then a.x else b.x, if a.y >= b.y then a.y else b.y)
  }

  /** One more step: `(k + 1)·d` is `d` beyond `k·d`. */
  lemma ScaleSucc(d: IVec2, k: int)
    ensures d.Scale(k + 1) == d.Add(d.Scale(k))
  {
    assert (k + 1) * d.x == d.x + k * d.x;
    assert (k + 1) * d.y == d.y + k * d.y;
  }
}
