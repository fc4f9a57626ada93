/** What a file on a FAT volume is, byte by byte, independently of cursors and caches. */
module ArchivoFat {
  import opened Bytes
  import opened Bits
  import opened CadenaFat
  import opened MedioFat

  /** The part of a directory entry that the data path uses. */
  datatype Nodo = Nodo(longitud: nat, valida: nat, cluster: nat, contiguo: bool)

  /** The allocation bitmap that reads are checked against, if any. */
  datatype Mapa = SinMapa | ConMapa(nodo: Nodo)

  /** The cluster that holds index `i` of a node, as a fresh cursor finds it. */
  function Ubicar(m: Medio, n: Nodo, i: nat): (e: Enlace)
    requires m.GeometriaValida()
    ensures e.Sigue? ==> m.Valido(e.cluster) && i < m.clusters
  {
    if i >= m.clusters then Roto
    else if n.contiguo then
      if m.Valido(n.cluster + i) then Sigue(n.cluster + i) else Roto
    else
      var w := Rastro(m, n.cluster, i);
      if w.EnMarcha? then
        CursorStateIsFunctionOfIndex(Enlaces(m), Inicio(m, n.cluster), i);
        ClustersAreValid(m, n.cluster, i);
        Sigue(w.l.cluster)
      else w.fin
  }

  /** The device byte at offset `d` of a cluster. */
  function Direccion(m: Medio, c: nat, d: nat): nat
    requires c >= 2
  {
    (m.inicio + m.datos + Por(c - 2, m.sectoresCluster)) * SECTOR + d
  }

  lemma ClusterFitsInHeap(m: Medio, c: nat)
    requires m.GeometriaValida() && m.Valido(c)
    ensures Por(c - 2, m.sectoresCluster) + m.sectoresCluster <= Por(m.clusters, m.sectoresCluster)
  {
    PorMonotone(c - 1, m.clusters, m.sectoresCluster);
  }

  /** Every byte of a valid cluster lies inside the partition. */
  lemma DireccionInsidePartition(m: Medio, c: nat, d: nat)
    requires m.GeometriaValida() && m.Valido(c) && d < m.bytesCluster
    ensures Direccion(m, c, d) < (m.inicio + m.sectores) * SECTOR <= |m.disco|
  {
    ClusterFitsInHeap(m, c);
  }

  /** Byte `b` of a file: the chain's disk byte while `b < valida`, zero after that. */
  function ByteDe(m: Medio, n: Nodo, b: nat): byte
    requires m.GeometriaValida()
  {
    if b >= n.valida then 0
    else
      var e := Ubicar(m, n, m.Indice(b));
      if e.Sigue? then
        DireccionInsidePartition(m, e.cluster, m.Dentro(b));
        m.disco[Direccion(m, e.cluster, m.Dentro(b))]
      else 0
  }

  /** Whether the bitmap file marks the cluster as in use. */
  predicate MarcaOcupado(m: Medio, bm: Nodo, c: nat)
    requires m.GeometriaValida() && c >= 2
  {
    BitDe(ByteDe(m, bm, (c - 2) / 8), (c - 2) % 8)
  }

  /** Index `i` of the node can be read: its cluster exists and the bitmap does not deny it. */
  predicate Legible(m: Medio, n: Nodo, mapa: Mapa, i: nat)
    requires m.GeometriaValida()
  {
    && Ubicar(m, n, i).Sigue?
    && (mapa.ConMapa? ==> MarcaOcupado(m, mapa.nodo, Ubicar(m, n, i).cluster))
  }

  /** Every byte of `off .. off + cant` lies at a readable index. */
  predicate TodoLegible(m: Medio, n: Nodo, mapa: Mapa, off: nat, cant: nat)
    requires m.GeometriaValida()
  {
    forall b: nat :: off <= b < off + cant ==> Legible(m, n, mapa, m.Indice(b))
  }

  /** How many bytes a read of `cantidad` bytes at `off` has to deliver. */
  function Alcance(n: Nodo, off: nat, cantidad: nat): nat {
    if off >= n.longitud then 0 else Min(cantidad, n.longitud - off)
  }

  /** A bitmap that mounting has validated: long enough, and readable from end to end. */
  predicate MapaMontado(m: Medio, bm: Nodo)
    requires m.GeometriaValida()
  {
    && m.clusters <= 8 * bm.longitud
    && bm.valida == bm.longitud
    && forall b: nat :: b < bm.longitud ==> Ubicar(m, bm, m.Indice(b)).Sigue?
  }

  function CantidadClusters(m: Medio, n: Nodo): nat
    requires m.bytesCluster > 0
  {
    (n.longitud + m.bytesCluster - 1) / m.bytesCluster
  }

  /** The chain of a linked node has exactly as many clusters as its length needs. */
  predicate CadenaExacta(m: Medio, n: Nodo)
    requires m.GeometriaValida()
  {
    n.longitud > 0 && Termina(Enlaces(m), Inicio(m, n.cluster), CantidadClusters(m, n))
  }

  /** A chain of exact length is readable at every index, and never visits a cluster twice. */
  lemma ExactChainIsReadable(m: Medio, n: Nodo)
    requires m.GeometriaValida() && !n.contiguo && CadenaExacta(m, n)
    ensures CantidadClusters(m, n) <= m.clusters
    ensures forall i: nat :: i < CantidadClusters(m, n) ==> Ubicar(m, n, i).Sigue?
    ensures forall i: nat, j: nat :: i < j < CantidadClusters(m, n) ==> Ubicar(m, n, i) != Ubicar(m, n, j)
  {
    var f, ini, cant := Enlaces(m), Inicio(m, n.cluster), CantidadClusters(m, n);
    EndingChainIsDistinct(f, ini, cant);
    FatIsBounded(m, n.cluster);
    DistinctChainFits(f, ini, cant, m.clusters);
    hide Siguiente, Distintos, Termina, CantidadClusters;
    forall i: nat | i < cant
      ensures Ubicar(m, n, i).Sigue? && Ubicar(m, n, i) == Seguir(f, ini, i)
    {
      DistinctPrefix(f, ini, i + 1, cant);
      DistinctWalkNeverRefused(f, ini, i);
    }
    forall i: nat, j: nat | i < j < cant ensures Ubicar(m, n, i) != Ubicar(m, n, j) {
      DistinctPair(f, ini, cant, i, j);
    }
  }

  /** The two questions that decide it: is the last index there, and does the chain end after it? */
  lemma ExactChainIff(m: Medio, n: Nodo)
    requires m.GeometriaValida() && !n.contiguo
    ensures var cant := CantidadClusters(m, n);
            CadenaExacta(m, n) <==>
            cant > 0 && Ubicar(m, n, cant - 1).Sigue? && Enlaces(m)(Ubicar(m, n, cant - 1).cluster) == Fin
  {
    var cant := CantidadClusters(m, n);
    CountIsZeroOnlyForEmpty(n.longitud, m.bytesCluster);
    if cant > 0 && Ubicar(m, n, cant - 1).Sigue? {
      LocatedIsLastOfChain(m, n, cant);
    }
    if CadenaExacta(m, n) {
      ExactChainIsReadable(m, n);
      LocatedIsLastOfChain(m, n, cant);
    }
  }

  lemma CountIsZeroOnlyForEmpty(longitud: nat, k: nat)
    requires k > 0
    ensures (longitud + k - 1) / k == 0 <==> longitud == 0
  {
    if longitud > 0 {
      IndexBelowCount(0, longitud, k);
    } else {
      DivModUnique(k - 1, k, 0, k - 1);
    }
  }

  lemma LocatedIsLastOfChain(m: Medio, n: Nodo, cantidad: nat)
    requires m.GeometriaValida() && !n.contiguo && cantidad >= 1
    requires Ubicar(m, n, cantidad - 1).Sigue?
    ensures Seguir(Enlaces(m), Inicio(m, n.cluster), cantidad - 1) == Ubicar(m, n, cantidad - 1)
    ensures Seguir(Enlaces(m), Inicio(m, n.cluster), cantidad) == Enlaces(m)(Ubicar(m, n, cantidad - 1).cluster)
  {
    hide Siguiente;
    CursorStateIsFunctionOfIndex(Enlaces(m), Inicio(m, n.cluster), cantidad - 1);
  }

  /** What mounting needs from the bitmap file, for a node whose chain was validated. */
  lemma ValidatedBitmapIsMounted(m: Medio, bm: Nodo)
    requires m.GeometriaValida() && !bm.contiguo && CadenaExacta(m, bm)
    requires bm.valida == bm.longitud && m.clusters <= 8 * bm.longitud
    ensures MapaMontado(m, bm)
  {
    ExactChainIsReadable(m, bm);
    hide Ubicar, CadenaExacta;
    forall b: nat | b < bm.longitud ensures Ubicar(m, bm, m.Indice(b)).Sigue? {
      IndexBelowCount(b, bm.longitud, m.bytesCluster);
    }
  }

  lemma IndexBelowCount(b: nat, longitud: nat, k: nat)
    requires k > 0 && b < longitud
    ensures b / k < (longitud + k - 1) / k
  {
    DivModShift(b, longitud + k - 1 - b, k);
    var e := b % k + (longitud + k - 1 - b);
    if e / k == 0 {
      DivModUnique(e, k, 0, e % k);
    }
  }

  // ----- Runs of adjacent clusters are runs of adjacent bytes -----

  lemma AdjacentClustersAdjacentBytes(m: Medio, c: nat, x: nat)
    requires m.GeometriaValida() && c >= 2
    ensures Direccion(m, c + m.Indice(x), m.Dentro(x)) == Direccion(m, c, x)
  {
    var t := m.Indice(x);
    PorAdds(c - 2, t, m.sectoresCluster);
    PorIsProduct(t, m.sectoresCluster);
    DivModSplit(x, m.sectoresCluster, m.bytesCluster);
  }

  lemma DivModSplit(x: nat, spc: nat, bytes: nat)
    requires spc > 0 && bytes == spc * SECTOR
    ensures (x / bytes) * spc * SECTOR + x % bytes == x
  {
    assert (x / bytes) * bytes + x % bytes == x;
    assert (x / bytes) * bytes == (x / bytes) * spc * SECTOR;
  }

  /** From position `p`, the next `g + 1` clusters of the node are `c, c + 1, ...`. */
  predicate Corrido(m: Medio, n: Nodo, q: nat, c: nat, g: nat)
    requires m.GeometriaValida()
  {
    forall t: nat :: q <= t <= q + g ==> Ubicar(m, n, t) == Sigue(c + t - q)
  }

  lemma IndexInRun(x: nat, k: nat, g: nat)
    requires k > 0 && x < Por(g + 1, k)
    ensures x / k <= g
  {
    if x / k > g {
      PorMonotone(g + 1, x / k, k);
      PorIsProduct(x / k, k);
    }
  }

  /** Within such a run, file byte `p + j` is the device byte `j` places further on. */
  lemma RunIsContiguousOnDisk(m: Medio, n: Nodo, p: nat, c: nat, g: nat, j: nat)
    requires m.GeometriaValida() && c >= 2
    requires Corrido(m, n, m.Indice(p), c, g)
    requires m.Dentro(p) + j < Por(g + 1, m.bytesCluster)
    ensures m.Indice(p) <= m.Indice(p + j) <= m.Indice(p) + g
    ensures Direccion(m, c, m.Dentro(p) + j) < |m.disco|
    ensures p + j < n.valida ==> ByteDe(m, n, p + j) == m.disco[Direccion(m, c, m.Dentro(p) + j)]
  {
    hide Por, Ubicar;
    var k := m.bytesCluster;
    var x := p % k + j;
    var t := x / k;
    IndexInRun(x, k, g);
    DivModShift(p, j, k);
    AdjacentClustersAdjacentBytes(m, c, x);
    assert Ubicar(m, n, p / k + t) == Sigue(c + t);
    DireccionInsidePartition(m, c + t, x % k);
  }

  /** Every index of the run is readable. */
  predicate CorridoLegible(m: Medio, n: Nodo, mapa: Mapa, q: nat, g: nat)
    requires m.GeometriaValida()
  {
    forall t: nat :: q <= t <= q + g ==> Legible(m, n, mapa, t)
  }

  lemma LocatedIndexIsValid(m: Medio, n: Nodo, i: nat)
    requires m.GeometriaValida()
    ensures Ubicar(m, n, i).Sigue? ==> m.Valido(Ubicar(m, n, i).cluster) && i < m.clusters
  {
  }

  lemma UnreadableByte(m: Medio, n: Nodo, mapa: Mapa, off: nat, cant: nat, b: nat)
    requires m.GeometriaValida() && off <= b < off + cant && !Legible(m, n, mapa, m.Indice(b))
    ensures !TodoLegible(m, n, mapa, off, cant)
  {
  }

  lemma ReadableRangesJoin(m: Medio, n: Nodo, mapa: Mapa, off: nat, a: nat, b: nat)
    requires m.GeometriaValida() && TodoLegible(m, n, mapa, off, a)
    ensures TodoLegible(m, n, mapa, off, a + b) <==> TodoLegible(m, n, mapa, off + a, b)
  {
    hide Legible, Medio.Indice;
    if TodoLegible(m, n, mapa, off, a + b) {
      forall x: nat | off + a <= x < off + a + b ensures Legible(m, n, mapa, m.Indice(x)) {
        assert off <= x < off + (a + b);
      }
    }
  }

  lemma ReadablePrefix(m: Medio, n: Nodo, mapa: Mapa, off: nat, a: nat, b: nat)
    requires m.GeometriaValida() && TodoLegible(m, n, mapa, off, b) && a <= b
    ensures TodoLegible(m, n, mapa, off, a)
  {
    hide Legible, Medio.Indice;
  }

  lemma UnreadableIndex(m: Medio, n: Nodo, mapa: Mapa, i: nat)
    requires m.GeometriaValida()
    requires Ubicar(m, n, i).Sigue? && mapa.ConMapa? ==> !MarcaOcupado(m, mapa.nodo, Ubicar(m, n, i).cluster)
    requires Ubicar(m, n, i).Sigue? ==> mapa.ConMapa?
    ensures !Legible(m, n, mapa, i)
  {
  }

  lemma RunStarts(m: Medio, n: Nodo, mapa: Mapa, q: nat, c: nat)
    requires m.GeometriaValida() && Ubicar(m, n, q) == Sigue(c) && Legible(m, n, mapa, q)
    ensures Corrido(m, n, q, c, 0) && CorridoLegible(m, n, mapa, q, 0)
    ensures Por(1, m.bytesCluster) == m.bytesCluster
  {
    hide Ubicar, Legible;
    assert Por(0, m.bytesCluster) == 0;
  }

  lemma RunGrows(m: Medio, n: Nodo, mapa: Mapa, q: nat, c: nat, g: nat)
    requires m.GeometriaValida()
    requires Corrido(m, n, q, c, g) && CorridoLegible(m, n, mapa, q, g)
    requires Ubicar(m, n, q + g + 1) == Sigue(c + g + 1)
    requires mapa.ConMapa? ==> MarcaOcupado(m, mapa.nodo, c + g + 1)
    ensures Corrido(m, n, q, c, g + 1) && CorridoLegible(m, n, mapa, q, g + 1)
  {
    hide Ubicar, MarcaOcupado;
  }

  lemma IndexStaysInRun(m: Medio, p: nat, j: nat, g: nat)
    requires m.GeometriaValida() && m.Dentro(p) + j < Por(g + 1, m.bytesCluster)
    ensures m.Indice(p) <= m.Indice(p + j) <= m.Indice(p) + g
  {
    hide Por, Medio.GeometriaValida;
    ShiftInRun(p, j, m.bytesCluster, g);
  }

  lemma ShiftInRun(p: nat, j: nat, k: nat, g: nat)
    requires k > 0 && p % k + j < Por(g + 1, k)
    ensures p / k <= (p + j) / k <= p / k + g
  {
    DivModShift(p, j, k);
    IndexInRun(p % k + j, k, g);
  }

  lemma RunIsReadable(m: Medio, n: Nodo, mapa: Mapa, p: nat, g: nat, cant: nat)
    requires m.GeometriaValida() && CorridoLegible(m, n, mapa, m.Indice(p), g)
    requires m.Dentro(p) + cant <= Por(g + 1, m.bytesCluster)
    ensures TodoLegible(m, n, mapa, p, cant)
  {
    hide Legible, Por;
    forall b: nat | p <= b < p + cant ensures Legible(m, n, mapa, m.Indice(b)) {
      IndexStaysInRun(m, p, b - p, g);
    }
  }

  /** When the bytes so far end on a cluster boundary, the next byte starts the next index. */
  lemma NextByteNextIndex(m: Medio, p: nat, cant: nat, g: nat)
    requires m.GeometriaValida() && m.Dentro(p) + cant == Por(g + 1, m.bytesCluster)
    ensures m.Indice(p + cant) == m.Indice(p) + g + 1
  {
    DivModShift(p, cant, m.bytesCluster);
    PorIsProduct(g + 1, m.bytesCluster);
    DivModUnique(m.Dentro(p) + cant, m.bytesCluster, g + 1, 0);
  }

  /** A run of `g + 1` clusters stays inside the cluster heap. */
  lemma RunFitsInHeap(m: Medio, n: Nodo, q: nat, c: nat, g: nat)
    requires m.GeometriaValida() && c >= 2 && Corrido(m, n, q, c, g)
    ensures Por(c - 2, m.sectoresCluster) + Por(g + 1, m.sectoresCluster) <= Por(m.clusters, m.sectoresCluster)
    ensures Por(g + 1, m.bytesCluster) == Por(g + 1, m.sectoresCluster) * SECTOR
  {
    assert Ubicar(m, n, q + g) == Sigue(c + g);
    PorAdds(c - 2, g + 1, m.sectoresCluster);
    PorMonotone(c - 2 + (g + 1), m.clusters, m.sectoresCluster);
    PorScales(g + 1, m.sectoresCluster);
  }

  lemma BitmapIsReadable(m: Medio, bm: Nodo, off: nat, cant: nat)
    requires m.GeometriaValida() && MapaMontado(m, bm) && off + cant <= bm.longitud
    ensures TodoLegible(m, bm, SinMapa, off, cant)
  {
  }
}
