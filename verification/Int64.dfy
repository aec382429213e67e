/** Go's 64-bit signed arithmetic: results are taken modulo 2^64 into [-2^63, 2^63). */
module Int64 {
  const TWO63: int := 0x8000_0000_0000_0000
  const MAX: int := TWO63 - 1

  predicate Fits64(x: int) {
    -TWO63 <= x < TWO63
  }

  function Wrap(x: int): (r: int)
    ensures Fits64(r)
    ensures Fits64(x) ==> r == x
  {
    (x + TWO63) % (2 * TWO63) - TWO63
  }

  lemma WrapPeriod(x: int, k: int)
    ensures Wrap(x + 2 * TWO63 * k) == Wrap(x)
  {
  }

  lemma WrapOnce(x: int)
    requires TWO63 <= x < 3 * TWO63
    ensures Wrap(x) == x - 2 * TWO63
  {
    WrapPeriod(x - 2 * TWO63, 1);
  }

  /** Wrapping early does not matter to a multiply-and-add. */
  lemma WrapMulAdd(a: int, m: int, d: int)
    ensures Wrap(Wrap(Wrap(a) * m) + d) == Wrap(a * m + d)
  {
    var q := (a + TWO63) / (2 * TWO63);
    assert Wrap(a) == a - 2 * TWO63 * q;
    var p := Wrap(a) * m;
    assert p == a * m + 2 * TWO63 * (-q * m);
    var t := (p + TWO63) / (2 * TWO63);
    assert Wrap(p) == p - 2 * TWO63 * t;
    WrapPeriod(a * m + d, -q * m - t);
    assert Wrap(p) + d == a * m + d + 2 * TWO63 * (-q * m - t);
  }
}
