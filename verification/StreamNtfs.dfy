/** Reading an NTFS file by position: extents, a cache of one cluster, the label that says which, and
    sector addresses that are summed in 64 bits. */
module StreamNtfs {
  import opened Bytes
  import opened CorridasNtfs
  import opened Trozos

  const SIN_CLUSTER: nat := 0xFFFF_FFFF

  /** Where the partition starts and how many sectors a cluster has: what makes a sector address. */
  datatype Trazado = Trazado(inicio: nat, sectoresCluster: nat)

  predicate Contiene(e: Extent, vcn: nat) {
    e.vcn <= vcn < e.vcn + e.conteo
  }

  /** The first extent that holds a cluster, or the number of extents. */
  function Buscar(es: seq<Extent>, vcn: nat): (i: nat)
    ensures i <= |es| && (i < |es| ==> Contiene(es[i], vcn)) && forall k :: 0 <= k < i ==> !Contiene(es[k], vcn)
  {
    if es == [] then 0
    else if Contiene(es[0], vcn) then 0
    else
      var i := Buscar(es[1..], vcn);
      assert forall k :: 0 < k < i + 1 ==> es[k] == es[1..][k - 1];
      i + 1
  }

  // ----- Places, as they should be and as they are computed -----

  /** The first sector of a cluster of the file, when it has one the driver can address. */
  function LugarDe(t: Trazado, es: seq<Extent>, vcn: nat): (u: Lugar) {
    var i := Buscar(es, vcn);
    if i == |es| then NoHay
    else
      var lcn := es[i].lcn + (vcn - es[i].vcn);
      if lcn < 0 || t.inicio + lcn * t.sectoresCluster > SIN_CLUSTER then NoHay
      else Lugar(t.inicio + lcn * t.sectoresCluster)
  }

  function ConSigno64(x: int): int {
    var y := x % DOS64;
    if y <= MAX63 then y else y - DOS64
  }

  /** The disk cluster, as a signed 64-bit sum. */
  function Lcn64(e: Extent, vcn: nat): int {
    ConSigno64(e.lcn + (vcn - e.vcn))
  }

  /** The sector address, as an unsigned 64-bit sum. */
  function Lba64(t: Trazado, lcn: nat): nat {
    (t.inicio + lcn * t.sectoresCluster) % DOS64
  }

  /** The sector the driver reads from. */
  function LugarLeido(t: Trazado, es: seq<Extent>, vcn: nat): (u: Lugar) {
    var i := Buscar(es, vcn);
    if i == |es| then NoHay
    else
      var lcn := Lcn64(es[i], vcn);
      if lcn < 0 || Lba64(t, lcn) > SIN_CLUSTER then NoHay else Lugar(Lba64(t, lcn))
  }

  /** The file has an extent for a cluster, with a place on disk by its number. */
  predicate ConExtent(es: seq<Extent>, vcn: nat) {
    Buscar(es, vcn) < |es| && Lcn64(es[Buscar(es, vcn)], vcn) >= 0
  }

  /** A cluster whose sector address is past 64 bits and comes round to one that passes the check. */
  predicate DaLaVuelta(t: Trazado, es: seq<Extent>, vcn: nat) {
    var i := Buscar(es, vcn);
    i < |es| &&
      var lcn := es[i].lcn + (vcn - es[i].vcn);
      0 <= lcn <= MAX63 && t.inicio + lcn * t.sectoresCluster >= DOS64 && Lba64(t, lcn) <= SIN_CLUSTER
  }

  /** What opening gives: extents in 64 bits, a partition in 32, clusters of 1 to 128 sectors. */
  predicate Abribles(t: Trazado, es: seq<Extent>) {
    && t.inicio < DOS32 && 1 <= t.sectoresCluster <= 128
    && forall i :: 0 <= i < |es| ==> es[i].vcn + es[i].conteo <= TOPE64 && MIN63 <= es[i].lcn <= MAX63
  }

  /** Whatever the decoder accepts can be opened. */
  lemma AcceptedIsOpenable(s: seq<byte>, t: Trazado)
    requires Decodificar(s, 0, 0, 0).Buena? && t.inicio < DOS32 && 1 <= t.sectoresCluster <= 128
    ensures Abribles(t, Decodificar(s, 0, 0, 0).extents)
  {
    hide Decodificar;
    var es := Decodificar(s, 0, 0, 0).extents;
    forall i | 0 <= i < |es| ensures es[i].vcn + es[i].conteo <= TOPE64 && MIN63 <= es[i].lcn <= MAX63 {
      AcceptedExtentsTile(s, 0, 0, 0, i);
    }
  }

  lemma SignedIsSame(x: int)
    requires MIN63 <= x < DOS64
    ensures x <= MAX63 ==> ConSigno64(x) == x
    ensures x > MAX63 ==> ConSigno64(x) < 0
  {
  }

  lemma AddressGrows(t: Trazado, lcn: nat)
    requires t.sectoresCluster >= 1
    ensures t.inicio + lcn * t.sectoresCluster >= lcn
  {
    MulMonotone(1, t.sectoresCluster, lcn);
  }

  /** The driver goes to the right place, or to none when there is none, if and only if the address
      does not come round. No file has more clusters than `vcn` may be here. */
  lemma RightPlaceIff(t: Trazado, es: seq<Extent>, vcn: nat)
    requires Abribles(t, es) && vcn <= MAX63
    ensures LugarLeido(t, es, vcn) == LugarDe(t, es, vcn) <==> !DaLaVuelta(t, es, vcn)
  {
    var i := Buscar(es, vcn);
    hide Buscar, ConSigno64;
    if i < |es| {
      var lcn := es[i].lcn + (vcn - es[i].vcn);
      SignedIsSame(lcn);
      if lcn >= 0 {
        AddressGrows(t, lcn);
      }
    }
  }

  /** It never does when all the clusters are numbered below some `n` at which addresses still fit,
      such as the number of clusters of the volume, or 2^56. */
  lemma SmallNumbersStayStraight(t: Trazado, es: seq<Extent>, n: nat, vcn: nat)
    requires t.sectoresCluster >= 1 && t.inicio + n * t.sectoresCluster <= DOS64
    requires forall i :: 0 <= i < |es| ==> es[i].lcn + es[i].conteo <= n
    ensures !DaLaVuelta(t, es, vcn)
  {
    var i := Buscar(es, vcn);
    hide Buscar;
    if i < |es| {
      var lcn := es[i].lcn + (vcn - es[i].vcn);
      if lcn >= 0 {
        MulMonotone(lcn + 1, n, t.sectoresCluster);
      }
    }
  }

  /** It does: cluster 2^61 of a volume at sector 2048 with 8 sectors a cluster is read at sector
      2048, where the boot sector is. The decoder accepts the run. */
  lemma AddressComesRound()
    ensures var t, run := Trazado(2048, 8), Corrida(1, 8, 1, 0x2000_0000_0000_0000);
            && Empaquetable(run) && Decodificar(Empaquetar(run) + [0], 0, 0, 0) == Buena([Extent(0, 1, 0x2000_0000_0000_0000)])
            && LugarDe(t, [Extent(0, 1, 0x2000_0000_0000_0000)], 0).NoHay?
            && LugarLeido(t, [Extent(0, 1, 0x2000_0000_0000_0000)], 0) == Lugar(2048)
  {
    var run := Corrida(1, 8, 1, 0x2000_0000_0000_0000);
    PowersOf256();
    DecodeOne(run, [0], 0, 0, 0);
    EndOfRuns([], 1, 1, 0x2000_0000_0000_0000);
    assert [0] + [] == [0];
  }

  lemma PowersOf256()
    ensures Pot256(1) == 256 && Pot256(8) == DOS64
  {
    assert Pot256(4) == DOS32;
  }

  /** A file as it is opened. */
  ghost predicate Abierto(m: Medio, t: Trazado, es: seq<Extent>, tamano: nat) {
    MedioValido(m) && m.bpc == SECTOR * t.sectoresCluster && Abribles(t, es) && tamano < DOS64
  }

  lemma FewClusters(bpc: nat, v: nat, tamano: nat)
    requires bpc >= SECTOR && v * bpc < tamano < DOS64
    ensures v <= MAX63
  {
    MulMonotone(SECTOR, bpc, v);
  }

  class Stream {
    const m: Medio
    const t: Trazado
    const extents: seq<Extent>
    const tamano: nat
    var posicion: nat
    var cache: seq<byte>
    var etiqueta: nat                 // 32 bits
    ghost var enCache: int            // the cluster of the file in the cache, or -1

    ghost predicate Valid()
      reads this
    {
      && Abierto(m, t, extents, tamano) && |cache| == m.bpc && etiqueta < DOS32 && posicion <= tamano
      && (enCache < 0 ==> etiqueta == SIN_CLUSTER)
      && (enCache >= 0 ==> etiqueta == enCache % DOS32 && LugarLeido(t, extents, enCache).Lugar?
                           && cache == m.bloque(LugarLeido(t, extents, enCache).bloque))
      && (enCache >= 0 ==> DelFichero(enCache))
    }

    /** As opening leaves it: the buffer holds whatever was there. */
    constructor (medio: Medio, tr: Trazado, es: seq<Extent>, n: nat, basura: seq<byte>)
      requires Abierto(medio, tr, es, n) && |basura| == medio.bpc
      ensures Valid() && posicion == 0 && m == medio && t == tr && extents == es && tamano == n && cache == basura
      ensures etiqueta == SIN_CLUSTER
    {
      m, t, extents, tamano, posicion, cache, etiqueta, enCache := medio, tr, es, n, 0, basura, SIN_CLUSTER, -1;
    }

    /** Where the clusters lie. */
    ghost function Lugares(): nat -> Lugar {
      (v: nat) => LugarDe(t, extents, v)
    }

    /** Where the driver looks for them. */
    ghost function Leidos(): nat -> Lugar {
      (v: nat) => LugarLeido(t, extents, v)
    }

    /** No cluster of the file has an address that comes round. */
    ghost predicate Directo() {
      forall v: nat :: v * m.bpc < tamano ==> !DaLaVuelta(t, extents, v)
    }

    /** Exactly then the driver looks where each cluster lies. */
    lemma DirectIff()
      requires Abierto(m, t, extents, tamano)
      ensures Directo() <==> forall v: nat :: v * m.bpc < tamano ==> Leidos()(v) == Lugares()(v)
    {
      hide LugarDe, LugarLeido, DaLaVuelta, Abribles;
      forall v: nat | v * m.bpc < tamano ensures Leidos()(v) == Lugares()(v) <==> !DaLaVuelta(t, extents, v) {
        FewClusters(m.bpc, v, tamano);
        RightPlaceIff(t, extents, v);
      }
    }

    /** The labels tell apart the clusters that can be asked for: none has the label of an empty cache,
        and none that of another cluster that can be in the cache. */
    ghost predicate EtiquetasSinChoque() {
      && (forall v: nat :: DelFichero(v) && ConExtent(extents, v) ==> v % DOS32 != SIN_CLUSTER)
      && forall u: nat, v: nat :: Chocan(u, v) ==> u == v
    }

    predicate DelFichero(v: nat) {
      v * m.bpc < tamano
    }

    /** With `u` in the cache, its label is taken for that of `v`. */
    ghost predicate Chocan(u: nat, v: nat) {
      DelFichero(u) && DelFichero(v) && LugarLeido(t, extents, u).Lugar? && ConExtent(extents, v) && u % DOS32 == v % DOS32
    }

    /** So they do in a file of fewer clusters than there are labels. */
    lemma FewClustersAreToldApart()
      requires m.bpc > 0 && tamano <= SIN_CLUSTER * m.bpc
      ensures EtiquetasSinChoque()
    {
      hide ConExtent, LugarLeido;
      forall v: nat | DelFichero(v) ensures v < SIN_CLUSTER {
        if v >= SIN_CLUSTER {
          MulMonotone(SIN_CLUSTER, v, m.bpc);
        }
      }
    }

    /** A label that is right for a cluster of the file is that of the cluster in the cache. */
    lemma LabelTellsCluster(v: nat)
      requires Valid() && DelFichero(v) && ConExtent(extents, v) && etiqueta == v % DOS32 && EtiquetasSinChoque()
      ensures enCache == v
    {
      hide ConExtent, LugarLeido, Abierto;
      assert enCache >= 0 ==> Chocan(enCache, v);
    }

    /** Brings a cluster of the file into the cache, unless the label says it is there. */
    method Cargar(vcn: nat) returns (r: int)
      requires Valid() && vcn * m.bpc < tamano
      modifies `cache, `etiqueta, `enCache
      ensures Valid() && (r == 0 || r == -4)
      ensures EtiquetasSinChoque() && r == 0 ==> enCache == vcn
      ensures r != 0 ==> LugarLeido(t, extents, vcn).NoHay?
      ensures old(etiqueta) == vcn % DOS32 && ConExtent(extents, vcn) ==> r == 0
      ensures old(etiqueta) == vcn % DOS32 ==> cache == old(cache)
      ensures r == 0 && old(etiqueta) != vcn % DOS32 ==> RecienLeido(vcn)
    {
      hide Buscar, Abribles, ConSigno64, Lba64, EtiquetasSinChoque;
      var i := 0;
      while i < |extents| && !Contiene(extents[i], vcn)
        invariant i <= |extents| && forall k :: 0 <= k < i ==> !Contiene(extents[k], vcn)
      {
        i := i + 1;
      }
      if i == |extents| {
        return -4;
      }
      var lcn := Lcn64(extents[i], vcn);
      if lcn < 0 {
        return -4;
      }
      if etiqueta != vcn % DOS32 {
        var lba := Lba64(t, lcn);
        if lba > SIN_CLUSTER {
          return -4;
        }
        cache, etiqueta, enCache := m.bloque(lba), vcn % DOS32, vcn;
      } else if EtiquetasSinChoque() {
        LabelTellsCluster(vcn);
      }
      r := 0;
    }

    /** The cache holds what lies where the driver looks for a cluster, under its label. */
    ghost predicate RecienLeido(v: nat)
      reads this
    {
      LugarLeido(t, extents, v).Lugar? && cache == m.bloque(LugarLeido(t, extents, v).bloque) && etiqueta == v % DOS32
    }

    function Vcn(p: nat): nat
      requires m.bpc > 0
    {
      p / m.bpc
    }

    /** One turn of the reading loop: what the cache holds, from the position to the end of the cluster. */
    method LeerDelCluster(cantidad: nat) returns (r: int, trozo: seq<byte>)
      requires Valid() && 0 < cantidad <= tamano - posicion
      modifies `posicion, `cache, `etiqueta, `enCache
      ensures Valid() && (r == 0 || r == -4)
      ensures r == 0 ==> 0 < |trozo| <= cantidad && posicion == old(posicion) + |trozo|
      ensures r == 0 ==> old(posicion) % m.bpc + |trozo| <= m.bpc
      ensures r == 0 ==> trozo == cache[old(posicion) % m.bpc..old(posicion) % m.bpc + |trozo|]
      ensures r != 0 ==> posicion == old(posicion) && trozo == []
      ensures EtiquetasSinChoque() ==> (r == 0 <==> Legible(m, Leidos(), old(posicion)))
      ensures EtiquetasSinChoque() && r == 0 ==> EsTrozo(m, Leidos(), old(posicion), trozo)
      ensures r != 0 ==> !Legible(m, Leidos(), old(posicion))
      ensures old(etiqueta) == Vcn(old(posicion)) % DOS32 && ConExtent(extents, Vcn(old(posicion))) ==> r == 0
      ensures old(etiqueta) == Vcn(old(posicion)) % DOS32 ==> cache == old(cache)
      ensures r == 0 && old(etiqueta) != Vcn(old(posicion)) % DOS32 ==> RecienLeido(Vcn(old(posicion)))
    {
      hide LugarDe, LugarLeido, ConExtent, EsTrozo, EtiquetasSinChoque, Abribles;
      var vcn, off := Vcn(posicion), posicion % m.bpc;
      WithinFile(vcn);
      trozo := [];
      r := Cargar(vcn);
      if r != 0 {
        return;
      }
      var n := Min(cantidad, m.bpc - off);
      trozo := cache[off..off + n];
      if enCache == vcn {
        ChunkIsSlice(m, Leidos(), posicion, n, vcn);
      }
      posicion := posicion + n;
    }

    lemma WithinFile(vcn: nat)
      requires MedioValido(m) && posicion < tamano && vcn == posicion / m.bpc
      ensures vcn * m.bpc < tamano
    {
    }

    /** Reads up to `cantidad` bytes from the position. When labels tell the clusters apart
        and no address comes round, what is read is the file's bytes, and reading stops only at
        the end of the file or at a cluster that has no place on disk. In any case it is what lies where
        the driver looks. */
    method Leer(cantidad: nat) returns (r: int, datos: seq<byte>)
      requires Valid()
      modifies `posicion, `cache, `etiqueta, `enCache
      ensures Valid() && posicion == old(posicion) + |datos| && |datos| <= Min(cantidad, tamano - old(posicion))
      ensures r == |datos| || (r == -4 && datos == [])
      ensures EtiquetasSinChoque() ==> Leido(Leidos(), old(posicion), cantidad, r, datos)
      ensures EtiquetasSinChoque() && Directo() ==> Leido(Lugares(), old(posicion), cantidad, r, datos)
    {
      hide LugarDe, LugarLeido, EsTrozo, Legible, Directo, Leido;
      datos := [];
      EmptySlice(m, Leidos(), posicion);
      var quedan: nat := Min(cantidad, tamano - posicion);
      while quedan > 0
        invariant Valid() && posicion == old(posicion) + |datos|
        invariant |datos| + quedan == Min(cantidad, tamano - old(posicion))
        invariant EtiquetasSinChoque() ==> EsTrozo(m, Leidos(), old(posicion), datos)
        invariant EtiquetasSinChoque() && datos != [] ==> Legible(m, Leidos(), old(posicion))
      {
        var e, trozo := LeerDelCluster(quedan);
        if e != 0 {
          r := if datos == [] then -4 else |datos|;
          if EtiquetasSinChoque() {
            Ended(old(posicion), cantidad, r, datos);
          }
          return;
        }
        if EtiquetasSinChoque() {
          SlicesJoin(m, Leidos(), old(posicion), datos, trozo);
        }
        datos := datos + trozo;
        quedan := quedan - |trozo|;
      }
      r := |datos|;
      if EtiquetasSinChoque() {
        Ended(old(posicion), cantidad, r, datos);
      }
    }

    /** A result of a read at `p` that is right for a file placed so: a slice that ends early only at a
        cluster without a place. */
    ghost predicate Leido(lugar: nat -> Lugar, p: nat, cantidad: nat, r: int, datos: seq<byte>)
      requires Abierto(m, t, extents, tamano) && p <= tamano
    {
      var pedidos := Min(cantidad, tamano - p);
      && EsTrozo(m, lugar, p, datos)
      && |datos| <= pedidos
      && (|datos| < pedidos ==> !Legible(m, lugar, p + |datos|))
      && (r == -4 <==> 0 < pedidos && !Legible(m, lugar, p))
      && (r != -4 ==> r == |datos|)
    }

    lemma Ended(p: nat, cantidad: nat, r: int, datos: seq<byte>)
      requires Abierto(m, t, extents, tamano) && p <= tamano && |datos| <= Min(cantidad, tamano - p)
      requires EsTrozo(m, Leidos(), p, datos) && (datos != [] ==> Legible(m, Leidos(), p))
      requires |datos| < Min(cantidad, tamano - p) ==> !Legible(m, Leidos(), p + |datos|)
      requires r == if datos == [] && 0 < Min(cantidad, tamano - p) then -4 else |datos|
      ensures Leido(Leidos(), p, cantidad, r, datos)
      ensures Directo() ==> Leido(Lugares(), p, cantidad, r, datos)
    {
      hide LugarDe, LugarLeido, EsTrozo, Legible, Directo;
      if Directo() {
        DirectIff();
        SamePlaces(m, Leidos(), Lugares(), tamano, p, datos);
      }
    }

    method Situar(p: nat)
      requires Valid() && p <= tamano
      modifies `posicion
      ensures Valid() && posicion == p
    {
      posicion := p;
    }
  }

  /** Both conditions are needed. A first read at a cluster whose address comes round gives what lies at
      the address it comes to, though the cluster has no place. */
  method LecturaDesviada(medio: Medio, tr: Trazado, es: seq<Extent>, tamano: nat, basura: seq<byte>, vcn: nat)
    returns (s: Stream, r: int, datos: seq<byte>)
    requires Abierto(medio, tr, es, tamano) && |basura| == medio.bpc
    requires vcn * medio.bpc < tamano && DaLaVuelta(tr, es, vcn) && tamano <= SIN_CLUSTER * medio.bpc
    ensures s.m == medio && s.t == tr && s.extents == es && s.tamano == tamano
    ensures r == 1 && LugarLeido(tr, es, vcn).Lugar? && datos == [medio.bloque(LugarLeido(tr, es, vcn).bloque)[0]]
    ensures !Legible(medio, s.Lugares(), vcn * medio.bpc) && !s.Leido(s.Lugares(), vcn * medio.bpc, 1, r, datos)
  {
    hide Buscar, EsTrozo, ConSigno64;
    RoundIsRead(tr, es, vcn);
    hide LugarDe, LugarLeido, DaLaVuelta;
    s := new Stream(medio, tr, es, tamano, basura);
    s.FewClustersAreToldApart();
    s.Situar(vcn * medio.bpc);
    DivModUnique(vcn * medio.bpc, medio.bpc, vcn, 0);
    r, datos := s.Leer(1);
    OneByteOf(medio, s.Leidos(), vcn * medio.bpc, datos);
  }

  lemma RoundIsRead(t: Trazado, es: seq<Extent>, vcn: nat)
    requires DaLaVuelta(t, es, vcn)
    ensures LugarLeido(t, es, vcn).Lugar? && LugarDe(t, es, vcn).NoHay?
  {
    hide Buscar, ConSigno64;
    var i := Buscar(es, vcn);
    SignedIsSame(es[i].lcn + (vcn - es[i].vcn));
  }

  lemma OneByteOf(m: Medio, lugar: nat -> Lugar, p: nat, datos: seq<byte>)
    requires MedioValido(m) && EsTrozo(m, lugar, p, datos) && |datos| == 1
    ensures Legible(m, lugar, p) && datos == [ByteDe(m, lugar, p)]
  {
    assert datos[p - p] == datos[0];
  }

  /** The labels must tell the clusters apart. The label of an empty cache is that of cluster 2^32 - 1, and
      of every 2^32nd after it: the first read of such a cluster gives what the buffer held before. */
  method LecturaRancia(medio: Medio, tr: Trazado, es: seq<Extent>, tamano: nat, basura: seq<byte>, v: nat)
    returns (s: Stream, r: int, b: byte)
    requires Abierto(medio, tr, es, tamano) && |basura| == medio.bpc
    requires v * medio.bpc < tamano && v % DOS32 == SIN_CLUSTER && ConExtent(es, v)
    ensures s.m == medio && s.t == tr && s.extents == es && s.tamano == tamano && !s.EtiquetasSinChoque()
    ensures r == 0 && b == basura[0]
  {
    hide ConExtent, LugarDe, LugarLeido, EsTrozo, Abribles;
    s := new Stream(medio, tr, es, tamano, basura);
    s.Situar(v * medio.bpc);
    DivModUnique(v * medio.bpc, medio.bpc, v, 0);
    var trozo;
    r, trozo := s.LeerDelCluster(1);
    b := trozo[0];
    assert s.DelFichero(v);
  }

  /** And of two clusters with one label, the second is read as the first. */
  method LecturaCruzada(medio: Medio, tr: Trazado, es: seq<Extent>, tamano: nat, basura: seq<byte>, u: nat, v: nat)
    returns (s: Stream, r: int, b: byte)
    requires Abierto(medio, tr, es, tamano) && |basura| == medio.bpc
    requires u * medio.bpc < tamano && v * medio.bpc < tamano && u != v && u % DOS32 == v % DOS32 != SIN_CLUSTER
    requires LugarLeido(tr, es, u).Lugar? && ConExtent(es, v)
    ensures s.m == medio && s.t == tr && s.extents == es && s.tamano == tamano && !s.EtiquetasSinChoque()
    ensures r == 0 && b == medio.bloque(LugarLeido(tr, es, u).bloque)[0]
  {
    hide ConExtent, LugarDe, LugarLeido, EsTrozo, Abribles;
    s := new Stream(medio, tr, es, tamano, basura);
    assert s.Chocan(u, v);
    s.Situar(u * medio.bpc);
    DivModUnique(u * medio.bpc, medio.bpc, u, 0);
    var trozo;
    r, trozo := s.LeerDelCluster(1);
    s.Situar(v * medio.bpc);
    DivModUnique(v * medio.bpc, medio.bpc, v, 0);
    r, trozo := s.LeerDelCluster(1);
    b := trozo[0];
  }

  // ----- On the bytes of the device -----

  /** Extents that lie one behind the other in the file. */
  predicate EnFila(es: seq<Extent>) {
    forall i, j :: 0 <= i < j < |es| ==> es[i].vcn + es[i].conteo <= es[j].vcn
  }

  lemma {:induction false} FoundExtent(es: seq<Extent>, i: nat, v: nat)
    requires EnFila(es) && i < |es| && es[i].vcn <= v < es[i].vcn + es[i].conteo
    ensures Buscar(es, v) == i
  {
    assert Contiene(es[i], v);
    var k := Buscar(es, v);
    assert k < |es| && Contiene(es[k], v);
  }

  lemma SectorsOfExtent(t: Trazado, e: Extent, v: nat)
    requires e.vcn <= v < e.vcn + e.conteo && e.lcn >= 0
    requires t.inicio + (e.lcn + e.conteo) * t.sectoresCluster <= DOS32 && t.sectoresCluster >= 1
    ensures t.inicio + (e.lcn + (v - e.vcn)) * t.sectoresCluster ==
            t.inicio + e.lcn * t.sectoresCluster + (v - e.vcn) * t.sectoresCluster <= SIN_CLUSTER
  {
    var k := e.lcn + (v - e.vcn);
    assert (k + 1) * t.sectoresCluster == k * t.sectoresCluster + t.sectoresCluster;
    MulMonotone(k + 1, e.lcn + e.conteo, t.sectoresCluster);
    assert k * t.sectoresCluster == e.lcn * t.sectoresCluster + (v - e.vcn) * t.sectoresCluster;
  }

  lemma ExtentPlace(t: Trazado, es: seq<Extent>, i: nat, v: nat)
    requires EnFila(es) && i < |es| && es[i].vcn <= v < es[i].vcn + es[i].conteo && es[i].lcn >= 0
    requires t.inicio + (es[i].lcn + es[i].conteo) * t.sectoresCluster <= DOS32 && t.sectoresCluster >= 1
    ensures LugarDe(t, es, v) == Lugar(Sector0(t, es[i]) + (v - es[i].vcn) * t.sectoresCluster)
  {
    hide Buscar;
    FoundExtent(es, i, v);
    SectorsOfExtent(t, es[i], v);
  }

  /** The first sector of an extent on the device. */
  function Sector0(t: Trazado, e: Extent): nat
    requires e.lcn >= 0
  {
    t.inicio + e.lcn * t.sectoresCluster
  }

  lemma PositionInExtent(e: Extent, bpc: nat, p: nat)
    requires bpc > 0 && e.vcn * bpc <= p < (e.vcn + e.conteo) * bpc
    ensures e.vcn <= p / bpc < e.vcn + e.conteo
    ensures p - e.vcn * bpc + (bpc - p % bpc) <= e.conteo * bpc
  {
    PositionInRun(e.vcn, e.conteo, bpc, p);
  }

  /** Each run of a file is a run of bytes of the device, from the first sector of its first cluster on. */
  lemma RunBytesOnDisk(m: Medio, disco: seq<byte>, t: Trazado, es: seq<Extent>, lugar: nat -> Lugar, i: nat, p: nat)
    requires MedioValido(m) && SobreDisco(m, disco) && m.bpc == SECTOR * t.sectoresCluster && t.sectoresCluster >= 1
    requires (forall v: nat :: lugar(v) == LugarDe(t, es, v)) && EnFila(es) && i < |es| && es[i].lcn >= 0
    requires t.inicio + (es[i].lcn + es[i].conteo) * t.sectoresCluster <= DOS32
    requires Sector0(t, es[i]) * 512 + es[i].conteo * m.bpc <= |disco|
    requires es[i].vcn * m.bpc <= p < (es[i].vcn + es[i].conteo) * m.bpc
    ensures Legible(m, lugar, p)
    ensures ByteDe(m, lugar, p) == disco[Sector0(t, es[i]) * 512 + (p - es[i].vcn * m.bpc)]
  {
    hide LugarDe, Sector0, Legible, ByteDe, EnFila, SobreDisco;
    PositionInExtent(es[i], m.bpc, p);
    ExtentPlace(t, es, i, p / m.bpc);
    RunOfBytes(m, disco, lugar, t.sectoresCluster, es[i].vcn, Sector0(t, es[i]), p);
  }
}
