/** Little-endian fields and fixed-width integers, as the drivers read them from sector buffers. */
module Bytes {

  type byte = b: int | 0 <= b < 0x100

  const SECTOR: nat := 512
  const PAGINA: nat := 4096
  const DOS16: nat := 0x1_0000
  const DOS32: nat := 0x1_0000_0000
  const DOS64: nat := 0x1_0000_0000_0000_0000

  function U16(s: seq<byte>, k: nat): (r: nat)
    requires k + 2 <= |s|
    ensures r < DOS16
  {
    s[k] as int + 0x100 * (s[k + 1] as int)
  }

  function U32(s: seq<byte>, k: nat): (r: nat)
    requires k + 4 <= |s|
    ensures r < DOS32
  {
    U16(s, k) + DOS16 * U16(s, k + 2)
  }

  function U64(s: seq<byte>, k: nat): (r: nat)
    requires k + 8 <= |s|
    ensures r < DOS64
  {
    U32(s, k) + DOS32 * U32(s, k + 4)
  }

  function Min(a: int, b: int): int {
    if a < b then a else b
  }

  function Max(a: int, b: int): int {
    if a < b then b else a
  }

  /** `a * k`, written as a recursion so that only the lemmas that need products reason about them. */
  function Por(a: nat, k: nat): nat {
    if a == 0 then 0 else Por(a - 1, k) + k
  }

  lemma {:induction false} PorIsProduct(a: nat, k: nat)
    ensures Por(a, k) == a * k
  {
    if a > 0 {
      PorIsProduct(a - 1, k);
      assert a * k == (a - 1) * k + k;
    }
  }

  lemma {:induction false} PorAdds(a: nat, b: nat, k: nat)
    ensures Por(a + b, k) == Por(a, k) + Por(b, k)
    decreases b
  {
    if b > 0 {
      PorAdds(a, b - 1, k);
    }
  }

  lemma {:induction false} PorScales(a: nat, k: nat)
    ensures Por(a, k * SECTOR) == Por(a, k) * SECTOR
  {
    if a > 0 {
      PorScales(a - 1, k);
    }
  }

  lemma PorMonotone(a: nat, b: nat, k: nat)
    requires a <= b
    ensures Por(a, k) <= Por(b, k)
  {
    PorAdds(a, b - a, k);
  }

  lemma MulMonotone(a: nat, b: nat, k: nat)
    requires a <= b
    ensures a * k <= b * k
  {
    assert b * k == a * k + (b - a) * k;
  }

  lemma DivModUnique(x: nat, k: nat, q: nat, r: nat)
    requires k > 0 && r < k && x == q * k + r
    ensures x / k == q && x % k == r
  {
    var q', r' := x / k, x % k;
    assert q' * k + r' == x;
    if q' < q {
      MulMonotone(q' + 1, q, k);
    } else if q < q' {
      MulMonotone(q + 1, q', k);
    }
  }

  lemma DivModShift(p: nat, j: nat, k: nat)
    requires k > 0
    ensures (p + j) / k == p / k + (p % k + j) / k
    ensures (p + j) % k == (p % k + j) % k
  {
    var e := p % k + j;
    assert (p / k + e / k) * k == (p / k) * k + (e / k) * k;
    DivModUnique(p + j, k, p / k + e / k, e % k);
  }

  lemma U32OfSlice(s: seq<byte>, a: nat, b: nat, k: nat)
    requires a <= b <= |s| && a + k + 4 <= b
    ensures U32(s[a..b], k) == U32(s, a + k)
  {
  }

  /** `x / k` and `x % k`, as recursions, for the same reason as `Por`. */
  function Cociente(x: nat, k: nat): nat
    requires k > 0
  {
    if x < k then 0 else 1 + Cociente(x - k, k)
  }

  function Resto(x: nat, k: nat): (r: nat)
    requires k > 0
    ensures r < k
  {
    if x < k then x else Resto(x - k, k)
  }

  lemma {:induction false} CocienteAndResto(x: nat, k: nat)
    requires k > 0
    ensures Por(Cociente(x, k), k) + Resto(x, k) == x
  {
    if x >= k {
      CocienteAndResto(x - k, k);
    }
  }
}
