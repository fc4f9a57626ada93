/** The reader against the bytes of the device: a chain spelled in the FAT, entry by entry and byte
    by byte, is the chain that is walked, validated and read. */
module FatEscrita {
  import opened Bytes
  import opened Bits
  import opened CadenaFat
  import opened MedioFat
  import opened ArchivoFat
  import opened Particiones
  import opened FatLector

  /** The number that the four bytes of FAT entry `c` spell, lowest byte first. On FAT32 the upper
      four bits of the last byte mean nothing. */
  function Dicho(m: Medio, c: nat): nat
    requires m.GeometriaValida() && m.Valido(c)
  {
    var p := (m.inicio + m.fat) * 512 + 4 * c;
    var b0: nat, b1: nat, b2: nat, b3: nat := m.disco[p], m.disco[p + 1], m.disco[p + 2], m.disco[p + 3];
    b0 + 0x100 * b1 + 0x1_0000 * b2 + 0x100_0000 * if m.exfat then b3 else b3 % 16
  }

  /** The numbers that mark the end of a chain. */
  predicate DiceFin(m: Medio, v: nat) {
    if m.exfat then v == 0xffff_ffff else 0x0fff_fff8 <= v <= 0x0fff_ffff
  }

  predicate Enlaza(m: Medio, a: nat, b: nat)
    requires m.GeometriaValida() && m.Valido(a)
  {
    Dicho(m, a) == b && !DiceFin(m, b)
  }

  /** The FAT leads from each of these clusters to the next. */
  predicate Escrita(m: Medio, cs: seq<nat>)
    requires m.GeometriaValida()
  {
    && |cs| >= 1
    && (forall k: nat :: k < |cs| ==> m.Valido(cs[k]))
    && forall k: nat, j: nat :: k < |cs| && j == k + 1 && j < |cs| ==> Enlaza(m, cs[k], cs[j])
  }

  function Ultimo(cs: seq<nat>): nat
    requires |cs| >= 1
  {
    cs[|cs| - 1]
  }

  /** The FAT leads through these clusters and then no further. */
  predicate Acaba(m: Medio, cs: seq<nat>)
    requires m.GeometriaValida()
  {
    && Escrita(m, cs)
    && var v := Dicho(m, Ultimo(cs)); DiceFin(m, v) || v < 2 || v >= m.clusters + 2
  }

  /** What the FAT says, decided on the bytes alone: an end mark, a cluster, or anything else, which
      is corruption: 0 is a free entry, 1 is reserved, and so is what lies past the last cluster. */
  lemma LinkIsSpelled(m: Medio, c: nat)
    requires m.GeometriaValida() && m.Valido(c)
    ensures var v := Dicho(m, c);
            Enlaces(m)(c) == if DiceFin(m, v) then Fin else if 2 <= v < m.clusters + 2 then Sigue(v) else Roto
  {
    hide Por;
    var p := (m.inicio + m.fat) * 512 + 4 * c;
    LowBits(m.disco[p], m.disco[p + 1], m.disco[p + 2], m.disco[p + 3]);
  }

  lemma LowBits(b0: nat, b1: nat, b2: nat, b3: nat)
    requires b0 < 256 && b1 < 256 && b2 < 256 && b3 < 256
    ensures (b0 + 0x100 * b1 + 0x1_0000 * b2 + 0x100_0000 * b3) % 0x1000_0000 ==
            b0 + 0x100 * b1 + 0x1_0000 * b2 + 0x100_0000 * (b3 % 16) < 0x1000_0000
  {
  }

  // ----- The walk -----

  lemma {:induction false} WrittenChainIsWalked(m: Medio, cs: seq<nat>, k: nat)
    requires m.GeometriaValida() && Escrita(m, cs) && k < |cs|
    ensures Seguir(Enlaces(m), Inicio(m, cs[0]), k) == Sigue(cs[k])
    decreases k
  {
    hide Dicho, DiceFin, Enlaces;
    if k > 0 {
      WrittenChainIsWalked(m, cs, k - 1);
      assert Enlaza(m, cs[k - 1], cs[k]);
      LinkIsSpelled(m, cs[k - 1]);
    }
  }

  /** After its last cluster the walk finds what that cluster's entry says. */
  lemma WalkAfterWrittenChain(m: Medio, cs: seq<nat>)
    requires m.GeometriaValida() && Escrita(m, cs)
    ensures var v := Dicho(m, Ultimo(cs));
            Seguir(Enlaces(m), Inicio(m, cs[0]), |cs|) ==
            if DiceFin(m, v) then Fin else if 2 <= v < m.clusters + 2 then Sigue(v) else Roto
  {
    hide Enlaza, Dicho, DiceFin, Enlaces;
    WrittenChainIsWalked(m, cs, |cs| - 1);
    WrittenIsValid(m, cs, |cs| - 1);
    LinkIsSpelled(m, Ultimo(cs));
  }

  lemma WrittenIsValid(m: Medio, cs: seq<nat>, k: nat)
    requires m.GeometriaValida() && Escrita(m, cs) && k < |cs|
    ensures m.Valido(cs[k])
  {
    hide Enlaza;
  }

  /** A chain that the FAT spells up to an end mark ends there and nowhere else; any other entry
      ends nothing. */
  lemma WrittenChainEnds(m: Medio, cs: seq<nat>, n: nat)
    requires m.GeometriaValida() && Acaba(m, cs)
    ensures Termina(Enlaces(m), Inicio(m, cs[0]), n) <==> n == |cs| && DiceFin(m, Dicho(m, Ultimo(cs)))
  {
    hide Enlaza, Dicho, DiceFin, Enlaces, Seguir;
    WalkAfterWrittenChain(m, cs);
    WrittenChainIsWalked(m, cs, |cs| - 1);
    if n < |cs| {
      WrittenChainIsWalked(m, cs, n);
    } else if n > |cs| {
      if Seguir(Enlaces(m), Inicio(m, cs[0]), n - 1).Sigue? {
        SeguirPrefix(Enlaces(m), Inicio(m, cs[0]), |cs|, n - 1);
        assert false;
      }
    }
  }

  /** How many clusters a length needs, without a division. */
  lemma CountIs(longitud: nat, k: nat, n: nat)
    requires k > 0 && n >= 1
    ensures (longitud + k - 1) / k == n <==> (n - 1) * k < longitud <= n * k
  {
    var q, r := (longitud + k - 1) / k, (longitud + k - 1) % k;
    assert q * k + r == longitud + k - 1 && n * k == (n - 1) * k + k;
    if (n - 1) * k < longitud <= n * k {
      DivModUnique(longitud + k - 1, k, n, longitud - (n - 1) * k - 1);
    }
  }

  lemma CountAtMost(longitud: nat, k: nat, n: nat)
    requires k > 0 && longitud <= n * k
    ensures (longitud + k - 1) / k <= n
  {
    var q := (longitud + k - 1) / k;
    assert (n + 1) * k == n * k + k;
    if q > n {
      MulMonotone(n + 1, q, k);
    }
  }

  /** Accepted are exactly the chains up to an end mark, and the lengths that end in their last
      cluster. */
  lemma WrittenChainIsExactIff(m: Medio, n: Nodo, cs: seq<nat>)
    requires m.GeometriaValida() && Acaba(m, cs) && n.cluster == cs[0]
    ensures CadenaExacta(m, n) <==>
            DiceFin(m, Dicho(m, Ultimo(cs))) && (|cs| - 1) * m.bytesCluster < n.longitud <= |cs| * m.bytesCluster
  {
    hide Enlaces, Termina, Dicho, DiceFin, Enlaza;
    WrittenChainEnds(m, cs, CantidadClusters(m, n));
    CountIs(n.longitud, m.bytesCluster, |cs|);
    if |cs| == 1 {
      assert (|cs| - 1) * m.bytesCluster == 0;
    }
  }

  // ----- Where the bytes are -----

  lemma WrittenChainIsLocated(m: Medio, n: Nodo, cs: seq<nat>, i: nat)
    requires m.GeometriaValida() && Acaba(m, cs) && !n.contiguo && n.cluster == cs[0]
    ensures |cs| <= m.clusters
    ensures if i < |cs| then Ubicar(m, n, i) == Sigue(cs[i]) else !Ubicar(m, n, i).Sigue?
  {
    hide Enlaza, Dicho, DiceFin, Enlaces, Seguir, Caminar, Distintos;
    var f, ini := Enlaces(m), Inicio(m, cs[0]);
    WalkAfterWrittenChain(m, cs);
    WrittenChainIsWalked(m, cs, |cs| - 1);
    HaltingChainIsDistinct(f, ini, |cs|);
    FatIsBounded(m, cs[0]);
    DistinctChainFits(f, ini, |cs|, m.clusters);
    if i < |cs| {
      WrittenChainIsWalked(m, cs, i);
      DistinctPrefix(f, ini, i + 1, |cs|);
      DistinctWalkNeverRefused(f, ini, i);
    } else if Ubicar(m, n, i).Sigue? {
      CursorStateIsFunctionOfIndex(f, ini, i);
      SeguirPrefix(f, ini, |cs|, i);
      assert false;
    }
  }

  /** The first device byte of a cluster: clusters are numbered from 2. */
  function Principio(m: Medio, c: nat): nat
    requires c >= 2
  {
    (m.inicio + m.datos + (c - 2) * m.sectoresCluster) * 512
  }

  /** The bytes of a cluster on the device. */
  function ClusterEnDisco(m: Medio, c: nat): (s: seq<byte>)
    requires m.GeometriaValida() && m.Valido(c)
    ensures |s| == m.bytesCluster
  {
    ClusterInside(m, c);
    m.disco[Principio(m, c)..Principio(m, c) + m.sectoresCluster * 512]
  }

  lemma ClusterInside(m: Medio, c: nat)
    requires m.GeometriaValida() && m.Valido(c)
    ensures Principio(m, c) == Direccion(m, c, 0)
    ensures Principio(m, c) + m.sectoresCluster * 512 <= |m.disco|
  {
    hide Por;
    PorIsProduct(c - 2, m.sectoresCluster);
    DireccionInsidePartition(m, c, m.bytesCluster - 1);
  }

  /** The clusters' bytes, laid end to end. */
  function Contenido(m: Medio, cs: seq<nat>): (s: seq<byte>)
    requires m.GeometriaValida() && forall k: nat :: k < |cs| ==> m.Valido(cs[k])
  {
    if cs == [] then []
    else Contenido(m, cs[..|cs| - 1]) + ClusterEnDisco(m, Ultimo(cs))
  }

  lemma {:induction false} ContentLength(m: Medio, cs: seq<nat>)
    requires m.GeometriaValida() && forall k: nat :: k < |cs| ==> m.Valido(cs[k])
    ensures |Contenido(m, cs)| == |cs| * m.bytesCluster
  {
    hide Medio.GeometriaValida, ClusterEnDisco;
    if cs != [] {
      ContentLength(m, cs[..|cs| - 1]);
      assert |cs| * m.bytesCluster == (|cs| - 1) * m.bytesCluster + m.bytesCluster;
    }
  }

  lemma {:induction false} ContentByte(m: Medio, cs: seq<nat>, q: nat, d: nat)
    requires m.GeometriaValida() && forall k: nat :: k < |cs| ==> m.Valido(cs[k])
    requires q < |cs| && d < m.bytesCluster
    ensures q * m.bytesCluster + d < |Contenido(m, cs)|
    ensures Direccion(m, cs[q], d) < |m.disco|
    ensures Contenido(m, cs)[q * m.bytesCluster + d] == m.disco[Direccion(m, cs[q], d)]
    decreases |cs|
  {
    hide Por;
    var u := |cs| - 1;
    ContentLength(m, cs[..u]);
    if q < u {
      ContentByte(m, cs[..u], q, d);
    } else {
      ClusterInside(m, cs[u]);
    }
  }

  /** A file's bytes are its clusters' bytes, laid end to end. */
  lemma FileIsItsClusters(m: Medio, n: Nodo, cs: seq<nat>, b: nat)
    requires m.GeometriaValida() && Acaba(m, cs) && !n.contiguo && n.cluster == cs[0]
    requires b < n.valida && b < |Contenido(m, cs)|
    ensures ByteDe(m, n, b) == Contenido(m, cs)[b]
  {
    hide Enlaza, Dicho, DiceFin, Ubicar, Direccion, Contenido, ByteDe, Medio.ParticionEnDisco;
    ContentLength(m, cs);
    var q, d := m.Indice(b), m.Dentro(b);
    IndexInside(b, m.bytesCluster, |cs|);
    WrittenChainIsLocated(m, n, cs, q);
    ContentByte(m, cs, q, d);
    LocatedByte(m, n, b, cs[q]);
  }

  lemma LocatedByte(m: Medio, n: Nodo, b: nat, c: nat)
    requires m.GeometriaValida() && b < n.valida && Ubicar(m, n, m.Indice(b)) == Sigue(c)
    ensures c >= 2 && Direccion(m, c, m.Dentro(b)) < |m.disco|
    ensures ByteDe(m, n, b) == m.disco[Direccion(m, c, m.Dentro(b))]
  {
    hide Ubicar, Direccion, Medio.Indice, Medio.Dentro;
    DireccionInsidePartition(m, c, m.Dentro(b));
  }

  lemma IndexInside(b: nat, k: nat, n: nat)
    requires k > 0 && b < n * k
    ensures b / k < n && b / k * k + b % k == b
  {
    if b / k >= n {
      MulMonotone(n, b / k, k);
    }
  }

  /** Of a file marked contiguous the FAT is not asked: its bytes follow one another on the device. */
  lemma ContiguousFileIsOneRun(m: Medio, n: Nodo, b: nat)
    requires m.GeometriaValida() && n.contiguo && b < n.valida && m.Valido(n.cluster)
    requires b < (m.clusters + 2 - n.cluster) * m.bytesCluster
    ensures Principio(m, n.cluster) + b < |m.disco|
    ensures ByteDe(m, n, b) == m.disco[Principio(m, n.cluster) + b]
  {
    hide Direccion, Medio.Indice, Medio.Dentro, ByteDe, Ubicar;
    ClusterInside(m, n.cluster);
    var q := IndexInHeap(m, n, b);
    LocatedByte(m, n, b, n.cluster + q);
    AdjacentClustersAdjacentBytes(m, n.cluster, b);
    AddressesAdd(m, n.cluster, b);
  }

  lemma AddressesAdd(m: Medio, c: nat, b: nat)
    requires c >= 2
    ensures Direccion(m, c, b) == Direccion(m, c, 0) + b
  {
    hide Por;
  }

  lemma IndexInHeap(m: Medio, n: Nodo, b: nat) returns (q: nat)
    requires m.GeometriaValida() && n.contiguo && m.Valido(n.cluster)
    requires b < (m.clusters + 2 - n.cluster) * m.bytesCluster
    ensures q == m.Indice(b) && Ubicar(m, n, q) == Sigue(n.cluster + q)
  {
    hide Medio.ParticionEnDisco, Rastro, Por;
    q := m.Indice(b);
    IndexInside(b, m.bytesCluster, m.clusters + 2 - n.cluster);
  }

  /** Cluster `c` is in use: its bit is set in the bytes of the bitmap, which begin with cluster 2. */
  predicate EnUso(mapa: seq<byte>, c: nat) {
    c >= 2 && (c - 2) / 8 < |mapa| && mapa[(c - 2) / 8] / POTENCIAS[(c - 2) % 8] % 2 == 1
  }

  lemma BitmapIsOnDisk(m: Medio, bm: Nodo, bs: seq<nat>, c: nat)
    requires m.GeometriaValida() && Acaba(m, bs) && !bm.contiguo && bm.cluster == bs[0] && m.Valido(c)
    requires (c - 2) / 8 < bm.valida && (c - 2) / 8 < |Contenido(m, bs)|
    ensures MarcaOcupado(m, bm, c) <==> EnUso(Contenido(m, bs), c)
  {
    hide Enlaza, Dicho, DiceFin, ByteDe, Contenido, BitDe;
    FileIsItsClusters(m, bm, bs, (c - 2) / 8);
    BitsAreWorth(Contenido(m, bs)[(c - 2) / 8], (c - 2) % 8);
  }

  /** A mounted bitmap whose clusters are `bs` has a bit for every cluster. */
  lemma BitmapReaches(m: Medio, bm: Nodo, bs: seq<nat>, c: nat)
    requires m.GeometriaValida() && Acaba(m, bs) && !bm.contiguo && bm.cluster == bs[0] && m.Valido(c)
    requires MapaMontado(m, bm)
    ensures (c - 2) / 8 < bm.valida && (c - 2) / 8 < |Contenido(m, bs)|
  {
    hide Enlaza, Dicho, DiceFin, Ubicar, Contenido, Medio.ParticionEnDisco;
    var b := (c - 2) / 8;
    assert b < bm.longitud;
    WrittenChainIsLocated(m, bm, bs, m.Indice(b));
    ContentLength(m, bs);
    IndexReaches(b, m.bytesCluster, |bs|);
  }

  lemma IndexReaches(b: nat, k: nat, n: nat)
    requires k > 0 && b / k < n
    ensures b < n * k
  {
    MulMonotone(b / k + 1, n, k);
  }

  /** The bytes from `off` up to `fin` touch the cluster at index `q`. */
  predicate Toca(m: Medio, q: nat, off: nat, fin: nat) {
    off < fin && off < (q + 1) * m.bytesCluster && q * m.bytesCluster < fin
  }

  predicate Marcados(m: Medio, mapa: seq<byte>, cs: seq<nat>, off: nat, fin: nat) {
    forall q: nat :: q < |cs| && Toca(m, q, off, fin) ==> EnUso(mapa, cs[q])
  }

  /** The mounted bitmap, as clusters on the device. */
  predicate MapaEscrito(m: Medio, mapa: Mapa, bs: seq<nat>)
    requires m.GeometriaValida()
  {
    mapa.ConMapa? ==>
      && Acaba(m, bs) && !mapa.nodo.contiguo && mapa.nodo.cluster == bs[0]
      && MapaMontado(m, mapa.nodo)
  }

  lemma LocatedIsAllowedIff(m: Medio, n: Nodo, mapa: Mapa, cs: seq<nat>, bs: seq<nat>, q: nat)
    requires m.GeometriaValida() && Acaba(m, cs) && !n.contiguo && n.cluster == cs[0] && q < |cs|
    requires MapaEscrito(m, mapa, bs)
    ensures Legible(m, n, mapa, q) <==> mapa.SinMapa? || EnUso(Contenido(m, bs), cs[q])
  {
    hide Enlaza, Dicho, DiceFin, Ubicar, Contenido, MarcaOcupado, MapaMontado, Medio.GeometriaValida, EnUso;
    WrittenChainIsLocated(m, n, cs, q);
    if mapa.ConMapa? {
      BitmapReaches(m, mapa.nodo, bs, cs[q]);
      BitmapIsOnDisk(m, mapa.nodo, bs, cs[q]);
    }
  }

  /** What the bitmap decides about a read, told by the bits of the clusters that the read touches. */
  lemma ReadableIff(m: Medio, n: Nodo, mapa: Mapa, cs: seq<nat>, bs: seq<nat>, off: nat, cant: nat)
    requires m.GeometriaValida() && Acaba(m, cs) && !n.contiguo && n.cluster == cs[0]
    requires MapaEscrito(m, mapa, bs) && off + cant <= |Contenido(m, cs)|
    ensures TodoLegible(m, n, mapa, off, cant) <==>
            mapa.SinMapa? || Marcados(m, Contenido(m, bs), cs, off, off + cant)
  {
    hide Dicho, Enlaza, DiceFin, MapaMontado, Legible, Contenido, Toca, EnUso, Medio.ParticionEnDisco;
    if mapa.SinMapa? || Marcados(m, Contenido(m, bs), cs, off, off + cant) {
      forall b: nat | off <= b < off + cant ensures Legible(m, n, mapa, m.Indice(b)) {
        ByteTouches(m, cs, off, off + cant, b);
        LocatedIsAllowedIff(m, n, mapa, cs, bs, m.Indice(b));
      }
    }
    if TodoLegible(m, n, mapa, off, cant) && mapa.ConMapa? {
      forall q: nat | q < |cs| && Toca(m, q, off, off + cant) ensures EnUso(Contenido(m, bs), cs[q]) {
        var b := TouchedByte(m, q, off, off + cant);
        LocatedIsAllowedIff(m, n, mapa, cs, bs, q);
      }
    }
  }

  lemma ByteTouches(m: Medio, cs: seq<nat>, off: nat, fin: nat, b: nat)
    requires m.GeometriaValida() && Acaba(m, cs) && off <= b < fin <= |Contenido(m, cs)|
    ensures m.Indice(b) < |cs| && Toca(m, m.Indice(b), off, fin)
  {
    hide Enlaza, Dicho, DiceFin, Contenido, Medio.ParticionEnDisco;
    ContentLength(m, cs);
    IndexInside(b, m.bytesCluster, |cs|);
    assert (b / m.bytesCluster + 1) * m.bytesCluster == b / m.bytesCluster * m.bytesCluster + m.bytesCluster;
  }

  lemma TouchedByte(m: Medio, q: nat, off: nat, fin: nat) returns (b: nat)
    requires m.GeometriaValida() && Toca(m, q, off, fin)
    ensures off <= b < fin && m.Indice(b) == q
  {
    hide Medio.ParticionEnDisco;
    assert (q + 1) * m.bytesCluster == q * m.bytesCluster + m.bytesCluster;
    b := Max(off, q * m.bytesCluster);
    DivModUnique(b, m.bytesCluster, q, b - q * m.bytesCluster);
  }

  lemma LengthFits(m: Medio, n: Nodo)
    requires m.GeometriaValida() && n.longitud <= DOS32 * m.bytesCluster
    ensures CantidadClusters(m, n) <= DOS32
  {
    CountAtMost(n.longitud, m.bytesCluster, DOS32);
  }

  lemma AcceptedIsCovered(m: Medio, n: Nodo, cs: seq<nat>)
    requires m.GeometriaValida() && Acaba(m, cs) && n.longitud <= |cs| * m.bytesCluster
    ensures n.longitud <= |Contenido(m, cs)|
  {
    hide Enlaza, Dicho, DiceFin, Contenido, Medio.GeometriaValida;
    ContentLength(m, cs);
  }

  /** Reads from a linked node of known clusters. */
  method LeerEncadenado(v: Volumen, n: Nodo, off: nat, dst: array<byte>, pedido: nat,
                        ghost cs: seq<nat>, ghost bs: seq<nat>)
    returns (leidos: int)
    requires v.Valid() && !n.contiguo && Acaba(v.m, cs) && n.cluster == cs[0]
    requires MapaEscrito(v.m, v.Montado(), bs) && n.longitud <= |Contenido(v.m, cs)|
    requires pedido <= dst.Length && dst != v.bitmapCache
    modifies v`ranuras, v`pedidos, v`bitmapPagina, v.bitmap, v.bitmapCache, dst
    ensures v.Valid()
    ensures var fin := Min(off + pedido, n.longitud);
            leidos == if fin <= off then 0
                      else if pedido <= INT64_MAX
                              && (v.conMapa ==> Marcados(v.m, Contenido(v.m, bs), cs, off, fin)) then fin - off
                      else VOLUMEN_CORRUPTO
    ensures forall k :: 0 <= k < leidos ==>
              dst[k] == if off + k < n.valida then Contenido(v.m, cs)[off + k] else 0
  {
    hide Contenido, Dicho, DiceFin, Enlaza, Marcados, TodoLegible, ByteDe, Medio.ParticionEnDisco;
    hide Volumen.CacheFiel, Cursor.Valid, Volumen.PaginaFiel, MapaMontado;
    var c := new Cursor(n);
    if off < n.longitud {
      ReadableIff(v.m, n, v.Montado(), cs, bs, off, Alcance(n, off, pedido));
    }
    leidos := v.Leer(c, off, dst, pedido);
    forall k: nat | k < leidos
      ensures dst[k] == if off + k < n.valida then Contenido(v.m, cs)[off + k] else 0
    {
      ReadByte(v.m, n, cs, off + k);
    }
  }

  lemma ReadByte(m: Medio, n: Nodo, cs: seq<nat>, b: nat)
    requires m.GeometriaValida() && Acaba(m, cs) && !n.contiguo && n.cluster == cs[0]
    requires b < |Contenido(m, cs)|
    ensures ByteDe(m, n, b) == if b < n.valida then Contenido(m, cs)[b] else 0
  {
    hide Contenido, Dicho, DiceFin, Enlaza, Ubicar;
    if b < n.valida {
      FileIsItsClusters(m, n, cs, b);
    }
  }

  /** The chain ends in an end mark, and the length ends in its last cluster. */
  predicate Justa(m: Medio, n: Nodo, cs: seq<nat>)
    requires m.GeometriaValida() && Escrita(m, cs)
  {
    && DiceFin(m, Dicho(m, Ultimo(cs)))
    && (|cs| - 1) * m.bytesCluster < n.longitud <= |cs| * m.bytesCluster
  }

  /** Validates a linked node, then reads from it: what the FAT and the device hold decides it all. */
  method ValidarYLeer(v: Volumen, n: Nodo, off: nat, dst: array<byte>, pedido: nat,
                      ghost cs: seq<nat>, ghost bs: seq<nat>)
    returns (validada: int, leidos: int)
    requires v.Valid() && !n.contiguo && n.longitud <= DOS32 * v.m.bytesCluster
    requires Acaba(v.m, cs) && n.cluster == cs[0] && MapaEscrito(v.m, v.Montado(), bs)
    requires pedido <= dst.Length && dst != v.bitmapCache
    modifies v`ranuras, v`pedidos, v`bitmapPagina, v.bitmap, v.bitmapCache, dst
    ensures v.Valid()
    ensures validada == if Justa(v.m, n, cs) then 0 else VOLUMEN_CORRUPTO
    ensures validada != 0 ==> leidos == validada && dst[..] == old(dst[..])
    ensures validada == 0 ==> n.longitud <= |Contenido(v.m, cs)|
    ensures var fin := Min(off + pedido, n.longitud);
            validada == 0 ==>
              leidos == if fin <= off then 0
                        else if pedido <= INT64_MAX
                                && (v.conMapa ==> Marcados(v.m, Contenido(v.m, bs), cs, off, fin)) then fin - off
                        else VOLUMEN_CORRUPTO
    ensures validada == 0 ==> forall k :: 0 <= k < leidos ==>
              dst[k] == if off + k < n.valida then Contenido(v.m, cs)[off + k] else 0
  {
    hide Contenido, Dicho, DiceFin, Enlaza, Marcados, CadenaExacta, CantidadClusters, Medio.ParticionEnDisco;
    hide Volumen.CacheFiel, Cursor.Valid, Volumen.PaginaFiel, MapaMontado;
    WrittenChainIsExactIff(v.m, n, cs);
    LengthFits(v.m, n);
    validada := v.ValidarCadena(n);
    if validada != 0 {
      return validada, validada;
    }
    AcceptedIsCovered(v.m, n, cs);
    leidos := LeerEncadenado(v, n, off, dst, pedido, cs, bs);
  }
}
