/** Slices of a file whose blocks lie here and there on a medium. */
module Trozos {
  import opened Bytes

  /** The medium, block by block: a block is known by its first sector. */
  datatype Medio = Medio(bpc: nat, bloque: nat -> seq<byte>)

  ghost predicate MedioValido(m: Medio) {
    m.bpc > 0 && forall l: nat :: |m.bloque(l)| == m.bpc
  }

  /** Where a block of the file lies, if the driver can get to it. */
  datatype Lugar = NoHay | Lugar(bloque: nat)

  predicate Legible(m: Medio, lugar: nat -> Lugar, p: nat)
    requires m.bpc > 0
  {
    lugar(p / m.bpc).Lugar?
  }

  /** The byte of the file at a position. */
  ghost function ByteDe(m: Medio, lugar: nat -> Lugar, p: nat): byte
    requires MedioValido(m) && Legible(m, lugar, p)
  {
    m.bloque(lugar(p / m.bpc).bloque)[p % m.bpc]
  }

  /** `datos` is the slice of the file from position `p`. */
  ghost predicate EsTrozo(m: Medio, lugar: nat -> Lugar, p: nat, datos: seq<byte>)
    requires MedioValido(m)
  {
    forall q: nat :: p <= q < p + |datos| ==> Legible(m, lugar, q) && datos[q - p] == ByteDe(m, lugar, q)
  }

  /** Positions of one block read the same disk block. */
  lemma SameBlock(bpc: nat, p: nat, q: nat)
    requires bpc > 0 && p <= q < p + (bpc - p % bpc)
    ensures q / bpc == p / bpc && q % bpc == p % bpc + (q - p)
  {
    DivModShift(p, q - p, bpc);
    DivModUnique(p % bpc + (q - p), bpc, 0, p % bpc + (q - p));
  }

  lemma ChunkIsSlice(m: Medio, lugar: nat -> Lugar, p: nat, n: nat, b: nat)
    requires MedioValido(m) && b == p / m.bpc && n <= m.bpc - p % m.bpc && lugar(b).Lugar?
    ensures EsTrozo(m, lugar, p, m.bloque(lugar(b).bloque)[p % m.bpc..p % m.bpc + n])
  {
    var datos := m.bloque(lugar(b).bloque)[p % m.bpc..p % m.bpc + n];
    forall q: nat | p <= q < p + |datos| ensures Legible(m, lugar, q) && datos[q - p] == ByteDe(m, lugar, q) {
      SameBlock(m.bpc, p, q);
    }
  }

  lemma SlicesJoin(m: Medio, lugar: nat -> Lugar, p: nat, a: seq<byte>, b: seq<byte>)
    requires MedioValido(m) && EsTrozo(m, lugar, p, a) && EsTrozo(m, lugar, p + |a|, b)
    ensures EsTrozo(m, lugar, p, a + b)
  {
    hide Legible, ByteDe;
    forall q: nat | p <= q < p + |a + b| ensures Legible(m, lugar, q) && (a + b)[q - p] == ByteDe(m, lugar, q) {
      if q >= p + |a| {
        assert (a + b)[q - p] == b[q - (p + |a|)];
      }
    }
  }

  /** Two placements that agree on the blocks of a file give the same slices of it. */
  lemma SamePlaces(m: Medio, a: nat -> Lugar, b: nat -> Lugar, tamano: nat, p: nat, datos: seq<byte>)
    requires MedioValido(m) && p + |datos| <= tamano
    requires forall v: nat :: v * m.bpc < tamano ==> a(v) == b(v)
    ensures EsTrozo(m, a, p, datos) <==> EsTrozo(m, b, p, datos)
    ensures forall q: nat :: q < tamano ==> (Legible(m, a, q) <==> Legible(m, b, q))
  {
    forall q: nat | q < tamano
      ensures Legible(m, a, q) <==> Legible(m, b, q)
      ensures Legible(m, a, q) ==> ByteDe(m, a, q) == ByteDe(m, b, q)
    {
      assert q / m.bpc * m.bpc <= q;
      assert a(q / m.bpc) == b(q / m.bpc);
    }
  }

  lemma EmptySlice(m: Medio, lugar: nat -> Lugar, p: nat)
    requires MedioValido(m)
    ensures EsTrozo(m, lugar, p, [])
  {
  }

  // ----- On the bytes of a device -----

  /** The medium is this device: a block is so many bytes from its first sector on. */
  ghost predicate SobreDisco(m: Medio, disco: seq<byte>) {
    forall l: nat :: l * SECTOR + m.bpc <= |disco| ==> m.bloque(l) == disco[l * SECTOR..l * SECTOR + m.bpc]
  }

  /** Blocks from `v0` on that lie one after the other from sector `s0` on are one run of bytes. */
  lemma RunOfBytes(m: Medio, disco: seq<byte>, lugar: nat -> Lugar, spc: nat, v0: nat, s0: nat, p: nat)
    requires MedioValido(m) && SobreDisco(m, disco) && m.bpc == SECTOR * spc && v0 * m.bpc <= p
    requires p / m.bpc >= v0 ==> lugar(p / m.bpc) == Lugar(s0 + (p / m.bpc - v0) * spc)
    requires s0 * SECTOR + (p - v0 * m.bpc) + (m.bpc - p % m.bpc) <= |disco|
    ensures Legible(m, lugar, p) && ByteDe(m, lugar, p) == disco[s0 * SECTOR + (p - v0 * m.bpc)]
  {
    var v, d := p / m.bpc, p % m.bpc;
    assert v * m.bpc + d == p;
    QuotientAtLeast(v0, m.bpc, p);
    BlocksAdvance(v - v0, v0, m.bpc, spc);
    var l := s0 + (v - v0) * spc;
    assert l * SECTOR + d == s0 * SECTOR + (p - v0 * m.bpc);
    assert m.bloque(l) == disco[l * SECTOR..l * SECTOR + m.bpc];
  }

  lemma QuotientAtLeast(v: nat, k: nat, p: nat)
    requires k > 0 && v * k <= p
    ensures p / k >= v
  {
    var q := p / k;
    assert q * k + p % k == p && (q + 1) * k == q * k + k;
    if q < v {
      MulMonotone(q + 1, v, k);
    }
  }

  lemma BlocksAdvance(k: nat, v0: nat, bpc: nat, spc: nat)
    requires bpc == SECTOR * spc
    ensures k * spc * SECTOR == k * bpc && (v0 + k) * bpc == v0 * bpc + k * bpc
  {
  }

  /** A position in `n` blocks from `v0` on, and the rest of its block. */
  lemma PositionInRun(v0: nat, n: nat, bpc: nat, p: nat)
    requires bpc > 0 && v0 * bpc <= p < (v0 + n) * bpc
    ensures v0 <= p / bpc < v0 + n
    ensures p - v0 * bpc + (bpc - p % bpc) <= n * bpc
  {
    var v, d := p / bpc, p % bpc;
    assert v * bpc + d == p && (v + 1) * bpc == v * bpc + bpc;
    assert (v0 + n) * bpc == v0 * bpc + n * bpc;
    if v < v0 {
      MulMonotone(v + 1, v0, bpc);
    } else if v >= v0 + n {
      MulMonotone(v0 + n, v, bpc);
    } else {
      MulMonotone(v + 1, v0 + n, bpc);
    }
  }
}
