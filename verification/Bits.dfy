/** Bitmaps kept in bytes, lowest bit first. */
module Bits {
  import opened Bytes

  /** Bit `k` of a number. */
  predicate BitDe(b: nat, k: nat) {
    if k == 0 then b % 2 == 1 else BitDe(b / 2, k - 1)
  }

  /** The number with bit `k` set. */
  function ConBit(b: nat, k: nat): (r: nat) {
    if k == 0 then b / 2 * 2 + 1 else ConBit(b / 2, k - 1) * 2 + b % 2
  }

  lemma {:induction false} SetChangesOneBit(b: nat, k: nat, j: nat)
    ensures BitDe(ConBit(b, k), j) <==> j == k || BitDe(b, j)
  {
    if k == 0 {
      assert j > 0 ==> ConBit(b, 0) / 2 == b / 2;
    } else {
      assert ConBit(b, k) / 2 == ConBit(b / 2, k - 1) && ConBit(b, k) % 2 == b % 2;
      if j > 0 {
        SetChangesOneBit(b / 2, k - 1, j - 1);
      }
    }
  }

  /** The number with bit `k` clear. */
  function SinBit(b: nat, k: nat): (r: nat) {
    if k == 0 then b / 2 * 2 else SinBit(b / 2, k - 1) * 2 + b % 2
  }

  lemma {:induction false} ClearChangesOneBit(b: nat, k: nat, j: nat)
    ensures BitDe(SinBit(b, k), j) <==> j != k && BitDe(b, j)
  {
    if k == 0 {
      assert j > 0 ==> SinBit(b, 0) / 2 == b / 2;
    } else {
      assert SinBit(b, k) / 2 == SinBit(b / 2, k - 1) && SinBit(b, k) % 2 == b % 2;
      if j > 0 {
        ClearChangesOneBit(b / 2, k - 1, j - 1);
      }
    }
  }

  lemma SetStaysInByte(b: byte, k: nat)
    requires k < 8
    ensures ConBit(b, k) < 256
  {
    assert Doble(8) == 256;
    SetStaysBelow(b, k, 8);
  }

  /** 2 to the `n`. */
  function Doble(n: nat): (p: nat)
    ensures p >= 1
  {
    if n == 0 then 1 else 2 * Doble(n - 1)
  }

  /** The powers that a byte's bits are worth. */
  const POTENCIAS: seq<nat> := [1, 2, 4, 8, 16, 32, 64, 128]

  /** The eight bits of a byte, lowest first, and what each is worth. */
  lemma BitsAreWorth(b: nat, k: nat)
    requires k < 8
    ensures Doble(k) == POTENCIAS[k]
    ensures BitDe(b, k) <==> b / POTENCIAS[k] % 2 == 1
  {
    BitIsShift(b, k);
    assert Doble(3) == 8;
    assert Doble(6) == 64;
  }

  lemma {:induction false} BitIsShift(b: nat, k: nat)
    ensures BitDe(b, k) <==> b / Doble(k) % 2 == 1
  {
    if k > 0 {
      BitIsShift(b / 2, k - 1);
      HalveThenDivide(b, Doble(k - 1));
    }
  }

  lemma HalveThenDivide(b: nat, p: nat)
    requires p > 0
    ensures b / 2 / p == b / (2 * p)
  {
    var q, r := b / 2 / p, b / 2 % p;
    assert b / 2 == q * p + r;
    assert q * (2 * p) == 2 * (q * p);
    DivModUnique(b, 2 * p, q, 2 * r + b % 2);
  }

  lemma {:induction false} SetStaysBelow(b: nat, k: nat, n: nat)
    requires k < n && b < Doble(n)
    ensures ConBit(b, k) < Doble(n)
  {
    var h := Doble(n - 1);
    assert Doble(n) == 2 * h;
    hide Doble;
    assert b / 2 < h;
    if k > 0 {
      SetStaysBelow(b / 2, k - 1, n - 1);
    }
  }

  /** A number below 2^n is determined by its first n bits. */
  lemma {:induction false} BitsDetermine(a: nat, b: nat, n: nat)
    requires a < Doble(n) && b < Doble(n) && forall k: nat :: k < n ==> BitDe(a, k) == BitDe(b, k)
    ensures a == b
  {
    if n > 0 {
      assert BitDe(a, 0) == BitDe(b, 0);
      forall k: nat | k < n - 1 ensures BitDe(a / 2, k) == BitDe(b / 2, k) {
        assert BitDe(a, k + 1) == BitDe(b, k + 1);
      }
      BitsDetermine(a / 2, b / 2, n - 1);
    }
  }

  // ----- Bitmaps -----

  predicate Bit(s: seq<byte>, n: nat) {
    n / 8 < |s| && BitDe(s[n / 8], n % 8)
  }

  function Marcar(s: seq<byte>, n: nat): (r: seq<byte>)
    requires n / 8 < |s|
    ensures |r| == |s|
  {
    SetStaysInByte(s[n / 8], n % 8);
    s[n / 8 := ConBit(s[n / 8], n % 8)]
  }

  lemma MarkChangesOneBit(s: seq<byte>, n: nat, m: nat)
    requires n / 8 < |s|
    ensures Bit(Marcar(s, n), m) <==> m == n || Bit(s, m)
  {
    hide BitDe, ConBit;
    if m / 8 == n / 8 {
      SetChangesOneBit(s[n / 8], n % 8, m % 8);
    }
  }
}
