/** Fixed-width C and Swift integer types used by the socket layer, and the
    division facts the byte-level proofs rest on. */
module CTypes {

  type uint8 = x: int | 0 <= x < 0x100
  type int8 = x: int | -0x80 <= x < 0x80
  type uint16 = x: int | 0 <= x < 0x1_0000
  type uint32 = x: int | 0 <= x < 0x1_0000_0000
  type int32 = x: int | -0x8000_0000 <= x < 0x8000_0000

  /** Euclidean division is unique: whoever exhibits a quotient and an
      in-range remainder has found `a / m` and `a % m`. */
  lemma DivModUnique(a: int, m: int, q: int, r: int)
    requires 0 < m && 0 <= r < m && a == q * m + r
    ensures a / m == q && a % m == r
  {
    var q0, r0 := a / m, a % m;
    assert q0 * m + r0 == q * m + r;
    var d := q - q0;
    assert d * m == q * m - q0 * m;
    assert d * m == r0 - r;
    assert 1 <= d ==> m <= d * m;
    assert d <= -1 ==> d * m <= -m;
  }
}
