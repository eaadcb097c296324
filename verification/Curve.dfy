/** The bilinear groups, written through the exponents of fixed generators.

    A point of G1 or G2 and an element of GT is the integer exponent it has to its
    generator, taken modulo the prime group order n. The pairing multiplies exponents.
    The hash to the curve is an arbitrary function, and `strict` says whether the
    pairing refuses points at infinity, which the library behind it decides. */
module Curve {
  import opened Bytes
  import opened Modular

  datatype Groups = Groups(n: int, strict: bool, hash: ByteString -> int)

  type Curve = c: Groups | Prime(c.n) ghost witness Groups(2, false, _ => 0)

  type G1 = int
  type G2 = int
  type GT = int

  function Add(c: Curve, p: int, q: int): int {
    (p + q) % c.n
  }

  function Mul(c: Curve, k: int, p: int): int {
    (k * p) % c.n
  }

  predicate AtInfinity(c: Curve, p: int) {
    p % c.n == 0
  }

  predicate Pairs(c: Curve, p: G1, q: G2) {
    !c.strict || (!AtInfinity(c, p) && !AtInfinity(c, q))
  }

  function Pairing(c: Curve, p: G1, q: G2): Option<GT> {
    if Pairs(c, p, q) then Some((p * q) % c.n) else None
  }

  function HashToCurve(c: Curve, data: ByteString): G1 {
    c.hash(data) % c.n
  }
}
