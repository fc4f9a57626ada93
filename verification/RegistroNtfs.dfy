/** The update sequence of an MFT record: the last two bytes of each sector are kept in an array and
    replaced by a number that every sector of one write shares. */
module RegistroNtfs {
  import opened Bytes

  const MAGIA: nat := 0x454c_4946   // "FILE"

  function Cola(s: nat): nat {
    s * SECTOR + 510
  }

  /** The array has the number first, then two bytes for each sector. */
  predicate ConArreglo(b: seq<byte>, u: nat, n: nat) {
    n * SECTOR <= |b| && u + 2 + 2 * n <= |b|
  }

  predicate Firmado(b: seq<byte>, u: nat, s: nat)
    requires u + 2 <= |b| && Cola(s) + 2 <= |b|
  {
    b[Cola(s)] == b[u] && b[Cola(s) + 1] == b[u + 1]
  }

  /** How many sectors, from the first on, end with the number. */
  function Firmados(b: seq<byte>, u: nat, n: nat): (f: nat)
    requires ConArreglo(b, u, n)
    ensures f <= n
  {
    if n == 0 then 0
    else
      var f := Firmados(b, u, n - 1);
      if f == n - 1 && Firmado(b, u, n - 1) then n else f
  }

  /** The record with the ends of its first `n` sectors put back, one after another in place. */
  function Corregido(b: seq<byte>, u: nat, n: nat): (r: seq<byte>)
    requires ConArreglo(b, u, n)
    ensures |r| == |b|
  {
    if n == 0 then b
    else
      var p := Corregido(b, u, n - 1);
      p[Cola(n - 1) := p[u + 2 * n]][Cola(n - 1) + 1 := p[u + 2 * n + 1]]
  }

  predicate EsCola(k: nat, n: nat) {
    k / SECTOR < n && k % SECTOR >= 510
  }

  /** The array covers no sector end. */
  predicate Aparte(u: nat, n: nat) {
    forall k: nat :: u <= k < u + 2 + 2 * n ==> !EsCola(k, n)
  }

  function Devuelto(b: seq<byte>, u: nat, n: nat, k: nat): byte
    requires ConArreglo(b, u, n) && k < |b|
  {
    if EsCola(k, n) then b[u + 2 + 2 * (k / SECTOR) + (k % SECTOR - 510)] else b[k]
  }

  lemma EndOfOne(k: nat, n: nat)
    requires n > 0
    ensures EsCola(k, n) <==> EsCola(k, n - 1) || k == Cola(n - 1) || k == Cola(n - 1) + 1
    ensures k == Cola(n - 1) || k == Cola(n - 1) + 1 ==> k / SECTOR == n - 1 && k % SECTOR == k - Cola(n - 1) + 510
  {
  }

  lemma {:induction false} PutBackEverywhere(b: seq<byte>, u: nat, n: nat, total: nat)
    requires ConArreglo(b, u, total) && n <= total && Aparte(u, total)
    ensures forall k: nat :: k < |b| ==> Corregido(b, u, n)[k] == Devuelto(b, u, n, k)
  {
    if n > 0 {
      PutBackEverywhere(b, u, n - 1, total);
      hide Corregido, EsCola;
      var p := Corregido(b, u, n - 1);
      CorrectedStep(b, u, n);
      KeptApart(u, n - 1, total, u + 2 * n);
      KeptApart(u, n - 1, total, u + 2 * n + 1);
      forall k: nat | k < |b| ensures Corregido(b, u, n)[k] == Devuelto(b, u, n, k) {
        EndOfOne(k, n);
        assert p[k] == Devuelto(b, u, n - 1, k);
      }
    }
  }

  lemma KeptApart(u: nat, n: nat, total: nat, k: nat)
    requires Aparte(u, total) && n <= total && u <= k < u + 2 + 2 * total
    ensures !EsCola(k, n)
  {
    assert !EsCola(k, total);
  }

  lemma CorrectedStep(b: seq<byte>, u: nat, n: nat)
    requires ConArreglo(b, u, n) && n > 0
    ensures var p := Corregido(b, u, n - 1);
            Corregido(b, u, n) == p[Cola(n - 1) := p[u + 2 * n]][Cola(n - 1) + 1 := p[u + 2 * n + 1]]
  {
  }

  // ----- The writer's side, as the format lays it down -----

  function ByteProtegido(b: seq<byte>, u: nat, n: nat, x: byte, y: byte, k: nat): byte
    requires ConArreglo(b, u, n) && k < |b|
  {
    if k == u then x
    else if k == u + 1 then y
    else if u + 2 <= k < u + 2 + 2 * n then b[Cola((k - u - 2) / 2) + (k - u - 2) % 2]
    else if EsCola(k, n) then (if k % SECTOR == 510 then x else y)
    else b[k]
  }

  function Protegido(b: seq<byte>, u: nat, n: nat, x: byte, y: byte): (r: seq<byte>)
    requires ConArreglo(b, u, n)
    ensures |r| == |b| && forall k :: 0 <= k < |b| ==> r[k] == ByteProtegido(b, u, n, x, y, k)
  {
    seq(|b|, k requires 0 <= k < |b| => ByteProtegido(b, u, n, x, y, k))
  }

  lemma EndIsEnd(s: nat, n: nat)
    requires s < n
    ensures EsCola(Cola(s), n) && EsCola(Cola(s) + 1, n)
    ensures Cola(s) % SECTOR == 510 && (Cola(s) + 1) % SECTOR == 511
  {
  }

  lemma ProtectedIsSigned(b: seq<byte>, u: nat, n: nat, x: byte, y: byte, s: nat)
    requires ConArreglo(b, u, n) && Aparte(u, n) && s < n
    ensures Firmado(Protegido(b, u, n, x, y), u, s)
  {
    hide EsCola, Cola;
    EndIsEnd(s, n);
    assert !EsCola(u, n);
  }

  /** Checking and putting back inverts the writer's protection everywhere but in the array. */
  lemma FixupRoundTrip(b: seq<byte>, u: nat, n: nat, x: byte, y: byte)
    requires ConArreglo(b, u, n) && Aparte(u, n)
    ensures Firmados(Protegido(b, u, n, x, y), u, n) == n
    ensures forall k: nat :: k < |b| && !(u <= k < u + 2 + 2 * n) ==>
              Corregido(Protegido(b, u, n, x, y), u, n)[k] == b[k]
  {
    var p := Protegido(b, u, n, x, y);
    forall s: nat | s < n ensures Firmado(p, u, s) {
      ProtectedIsSigned(b, u, n, x, y, s);
    }
    AllSigned(p, u, n);
    PutBackEverywhere(p, u, n, n);
    hide Corregido, Firmados, Protegido, Devuelto;
    forall k: nat | k < |b| && !(u <= k < u + 2 + 2 * n) ensures Corregido(p, u, n)[k] == b[k] {
      GivenBack(b, u, n, x, y, k);
    }
  }

  lemma GivenBack(b: seq<byte>, u: nat, n: nat, x: byte, y: byte, k: nat)
    requires ConArreglo(b, u, n) && k < |b| && !(u <= k < u + 2 + 2 * n)
    ensures Devuelto(Protegido(b, u, n, x, y), u, n, k) == b[k]
  {
    if EsCola(k, n) {
      var j := u + 2 + 2 * (k / SECTOR) + (k % SECTOR - 510);
      assert Protegido(b, u, n, x, y)[j] == ByteProtegido(b, u, n, x, y, j);
    }
  }

  lemma {:induction false} AllSigned(b: seq<byte>, u: nat, n: nat)
    requires ConArreglo(b, u, n)
    ensures Firmados(b, u, n) == n <==> forall s: nat :: s < n ==> Firmado(b, u, s)
  {
    hide Firmado;
    if n > 0 {
      AllSigned(b, u, n - 1);
    }
  }

  /** A record put together from two writes, with the number of one and a sector of the other, is
      refused. */
  lemma TornRecordIsRefused(a: seq<byte>, b: seq<byte>, t: seq<byte>, u: nat, n: nat, x: byte, y: byte,
                            x': byte, y': byte, s: nat)
    requires ConArreglo(a, u, n) && |a| == |b| == |t| && Aparte(u, n) && s < n && (x != x' || y != y')
    requires forall k :: u <= k < u + 2 ==> t[k] == Protegido(a, u, n, x, y)[k]
    requires forall k :: Cola(s) <= k < Cola(s) + 2 ==> t[k] == Protegido(b, u, n, x', y')[k]
    ensures Firmados(t, u, n) < n
  {
    hide Firmados, EsCola;
    AllSigned(t, u, n);
    ProtectedIsSigned(b, u, n, x', y', s);
    assert t[Cola(s)] == x' && t[Cola(s) + 1] == y';
    assert t[u] == x && t[u + 1] == y;
    assert !Firmado(t, u, s);
  }

  // ----- The loop -----

  function Veredicto(b: seq<byte>, tamano: nat): int
    requires tamano <= |b|
  {
    if tamano < SECTOR then -1
    else if U32(b, 0) != MAGIA then -1
    else if U16(b, 4) < 40 || U16(b, 4) + 2 * U16(b, 6) > tamano then -2
    else if U16(b, 6) < tamano / SECTOR + 1 then -2
    else if Firmados(b, U16(b, 4), tamano / SECTOR) < tamano / SECTOR then -3
    else 0
  }

  lemma {:induction false} EndsOutsideUntouched(b: seq<byte>, u: nat, n: nat, k: nat)
    requires ConArreglo(b, u, n) && k < |b| && !EsCola(k, n)
    ensures Corregido(b, u, n)[k] == b[k]
  {
    if n > 0 {
      EndsOutsideUntouched(b, u, n - 1, k);
    }
  }

  lemma OneMoreSector(b: seq<byte>, u: nat, s: nat)
    requires ConArreglo(b, u, s + 1)
    ensures var p := Corregido(b, u, s);
            p[Cola(s)] == b[Cola(s)] && p[Cola(s) + 1] == b[Cola(s) + 1]
    ensures Firmados(b, u, s) == s ==> Firmados(b, u, s + 1) == if Firmado(b, u, s) then s + 1 else s
  {
    hide Corregido;
    EndsOutsideUntouched(b, u, s, Cola(s));
    EndsOutsideUntouched(b, u, s, Cola(s) + 1);
  }

  lemma {:induction false} StopsAt(b: seq<byte>, u: nat, s: nat, n: nat)
    requires ConArreglo(b, u, n) && s < n && Firmados(b, u, s + 1) == s
    ensures Firmados(b, u, n) == s
    decreases n
  {
    if s + 1 < n {
      StopsAt(b, u, s, n - 1);
    }
  }

  /** Puts the sector ends of a record back in place, up to the first that was not written with the
      others. */
  method AplicarFixups(buffer: array<byte>, tamano: nat) returns (r: int)
    requires tamano <= buffer.Length
    modifies buffer
    ensures r == Veredicto(old(buffer[..]), tamano)
    ensures var b := old(buffer[..]);
            buffer[..] == if r == 0 || r == -3
              then Corregido(b, U16(b, 4), Firmados(b, U16(b, 4), tamano / SECTOR)) else b
  {
    hide Corregido, Firmados, U16, U32;
    ghost var b := buffer[..];
    if tamano < SECTOR {
      return -1;
    }
    if U32(buffer[..], 0) != MAGIA {
      return -1;
    }
    var u, cuenta := U16(buffer[..], 4), U16(buffer[..], 6);
    if u < 40 || u + 2 * cuenta > tamano {
      return -2;
    }
    var n := tamano / SECTOR;
    if cuenta < n + 1 {
      return -2;
    }
    var x, y := buffer[u], buffer[u + 1];
    NothingFixed(b, u);
    for s: nat := 0 to n
      invariant buffer[..] == Corregido(b, u, s) && Firmados(b, u, s) == s
    {
      OneMoreSector(b, u, s);
      var fin := Cola(s);
      if buffer[fin] != x || buffer[fin + 1] != y {
        StopsAt(b, u, s, n);
        return -3;
      }
      CorrectedStep(b, u, s + 1);
      buffer[fin], buffer[fin + 1] := buffer[u + 2 + 2 * s], buffer[u + 2 + 2 * s + 1];
    }
    return 0;
  }

  lemma NothingFixed(b: seq<byte>, u: nat)
    requires u + 2 <= |b|
    ensures Corregido(b, u, 0) == b && Firmados(b, u, 0) == 0
  {
  }

  /** A record as the format wants it, protected by its writer, is accepted: "FILE", where the array is
      and how many entries it has, and the array after the header and before the first sector end. */
  lemma WrittenRecordIsAccepted(b: seq<byte>, u: nat, n: nat, x: byte, y: byte)
    requires n >= 1 && |b| == 512 * n && b[..4] == [0x46, 0x49, 0x4c, 0x45]
    requires b[4] + 256 * b[5] as int == u && b[6] + 256 * b[7] as int == n + 1
    requires 40 <= u && u + 2 + 2 * n <= 510
    ensures ConArreglo(b, u, n) && Veredicto(Protegido(b, u, n, x, y), 512 * n) == 0
  {
    hide Corregido, Firmados, Protegido;
    var p := Protegido(b, u, n, x, y);
    forall k: nat | u <= k < u + 2 + 2 * n ensures !EsCola(k, n) {
      assert k / SECTOR == 0 && k % SECTOR == k;
    }
    FixupRoundTrip(b, u, n, x, y);
    forall k: nat | k < 8 ensures p[k] == b[k] {
      assert k % SECTOR == k;
    }
    assert b[..4][0] == b[0] && b[..4][1] == b[1] && b[..4][2] == b[2] && b[..4][3] == b[3];
  }
}
