/** What several modules share: bytes, division and concatenation. */
module Basics {

  type Byte = b: int | 0 <= b < 256

  lemma DivisionIs(a: int, b: int, q: int, r: int)
    requires b > 0 && a == q * b + r && 0 <= r < b
    ensures a / b == q && a % b == r
  {
    var d := a / b - q;
    assert d * b == r - a % b;
    assert d >= 1 ==> d * b >= b;
    assert d <= -1 ==> d * b <= -b;
  }

  lemma Associate<T>(a: seq<T>, b: seq<T>, c: seq<T>)
    ensures a + (b + c) == (a + b) + c
    ensures b == [] ==> a + (b + c) == a + c
    ensures c == [] ==> a + (b + c) == a + b
  {
  }

  // The parts end to end.
  ghost function Joined<T>(parts: seq<seq<T>>): seq<T> {
    if parts == [] then [] else parts[0] + Joined(parts[1..])
  }
}
