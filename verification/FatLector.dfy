/** The FAT/exFAT reader: the file cursor with its checkpoint ring, the FAT sector cache, the
    bitmap page cache, and the grouped read. Every one of these only speeds up `ArchivoFat`. */
module FatLector {
  import opened Bytes
  import opened Bits
  import opened CadenaFat
  import opened MedioFat
  import opened ArchivoFat
  import opened Particiones

  const PUNTOS: nat := 32
  const TOPE_LECTURA: nat := 262144
  const INT64_MAX: nat := 0x7fff_ffff_ffff_ffff
  const SIN_PAGINA: nat := 0xffff_ffff_ffff_ffff

  /** The integer an operation returns for a located, ended or broken chain. */
  function Codigo(e: Enlace): int {
    match e
    case Sigue(_) => 0
    case Fin => 1
    case Roto => VOLUMEN_CORRUPTO
  }

  datatype Punto = Punto(indice: nat, l: Liebre)

  class Cursor {
    const nodo: Nodo
    var indice: nat
    var l: Liebre               // cluster, tortuga, potencia, pasos
    var totalPasos: nat
    var puntos: nat
    var proximo: nat
    var punto: seq<Punto>
    var sectorParcial: nat
    var parcialValido: bool
    var parcial: seq<byte>

    constructor (n: Nodo)
      ensures nodo == n && indice == 0
      ensures forall m: Medio :: m.GeometriaValida() ==> Valid(m)
    {
      nodo := n;
      indice, l, totalPasos := 0, Salida(n.cluster), 0;
      puntos, proximo, punto := 0, 0, seq(PUNTOS, _ => Punto(0, Liebre(0, 0, 0, 0)));
      sectorParcial, parcialValido, parcial := 0, false, seq(SECTOR, _ => 0);
    }

    /** The structure assignment `prueba = *c`. */
    constructor Copia(c: Cursor)
      ensures nodo == c.nodo && indice == c.indice && l == c.l
      ensures forall m: Medio :: m.GeometriaValida() && c.Valid(m) ==> Valid(m)
    {
      nodo := c.nodo;
      indice, l, totalPasos := c.indice, c.l, c.totalPasos;
      puntos, proximo, punto := c.puntos, c.proximo, c.punto;
      sectorParcial, parcialValido, parcial := c.sectorParcial, c.parcialValido, c.parcial;
    }

    /** The cursor, like each of its checkpoints, holds what a fresh cursor would hold at that
        index. Only `totalPasos` can be ahead, and only where the next step is refused anyway. */
    ghost predicate EnCadena(f: Fat, ini: Enlace)
      reads `indice, `l, `totalPasos, `puntos, `proximo, `punto
    {
      && EsEstado(f, ini, indice, l)
      && indice < 0xffff_fff5
      && totalPasos < DOS32
      && (totalPasos == indice || f(l.cluster) == Sigue(l.tortuga))
      && PuntosFieles(f, ini)
    }

    ghost predicate EsEstado(f: Fat, ini: Enlace, i: nat, l: Liebre) {
      (i == 0 && l == Salida(nodo.cluster)) || Caminar(f, ini, i) == EnMarcha(l)
    }

    ghost predicate PuntosFieles(f: Fat, ini: Enlace)
      reads `puntos, `proximo, `punto
    {
      && puntos <= PUNTOS == |punto|
      && (puntos < PUNTOS ==> proximo == puntos)
      && forall k :: 0 <= k < puntos ==>
           0 < punto[k].indice < 0xffff_fff5 && Caminar(f, ini, punto[k].indice) == EnMarcha(punto[k].l)
    }

    ghost predicate ParcialFiel(m: Medio)
      requires m.GeometriaValida()
      reads `parcialValido, `sectorParcial, `parcial
    {
      parcialValido ==> sectorParcial < m.sectores && parcial == Sectores(m, sectorParcial, 1)
    }

    ghost predicate Valid(m: Medio)
      requires m.GeometriaValida()
      reads this
    {
      && ParcialFiel(m)
      && if nodo.contiguo then l.cluster == nodo.cluster + indice
         else EnCadena(Enlaces(m), Inicio(m, nodo.cluster))
    }

    /** Back to the start, or to the furthest checkpoint not past `destino`. */
    method Retroceder(destino: nat, ghost f: Fat, ghost ini: Enlace)
      requires EnCadena(f, ini) && destino < indice
      modifies `indice, `l, `totalPasos
      ensures EnCadena(f, ini) && indice <= destino && totalPasos == indice
    {
      indice, l, totalPasos := 0, Salida(nodo.cluster), 0;
      for i := 0 to puntos
        invariant EnCadena(f, ini) && indice <= destino && totalPasos == indice
      {
        var p := punto[i];
        if p.indice <= destino && p.indice > indice {
          indice, l, totalPasos := p.indice, p.l, p.indice;
        }
      }
    }

    /** Takes the link to `n`, unless the tortoise is there. */
    method Pisar(n: nat, clusters: nat, ghost f: Fat, ghost ini: Enlace) returns (ok: bool)
      requires EnCadena(f, ini) && Caminar(f, ini, indice) == EnMarcha(l)
      requires f(l.cluster) == Sigue(n) && indice + 1 < clusters <= 0xffff_fff5
      modifies `indice, `l, `totalPasos
      ensures EnCadena(f, ini)
      ensures ok ==> indice == old(indice) + 1 && l.cluster == n
      ensures ok ==> Caminar(f, ini, indice) == EnMarcha(l)
      ensures !ok ==> indice == old(indice) && l == old(l) && Paso(f, l) == Alto(Roto)
    {
      assert Caminar(f, ini, indice + 1) == Paso(f, l);
      hide Caminar, Cursor.PuntosFieles;
      totalPasos := (totalPasos + 1) % DOS32;
      if totalPasos >= clusters || n == l.tortuga {
        return false;
      }
      l, indice := l.(pasos := l.pasos + 1, cluster := n), indice + 1;
      if l.pasos == l.potencia {
        l := l.(tortuga := n, pasos := 0);
        if l.potencia <= 0x7fff_ffff {
          l := l.(potencia := l.potencia * 2);
        }
      }
      return true;
    }

    /** Every 256 clusters the state is saved, in place of the oldest of 32 checkpoints. */
    method GuardarPunto(ghost f: Fat, ghost ini: Enlace)
      requires EnCadena(f, ini) && 0 < indice && Caminar(f, ini, indice) == EnMarcha(l)
      modifies `puntos, `proximo, `punto
      ensures EnCadena(f, ini)
    {
      if indice % 256 == 0 {
        var j := proximo % PUNTOS;
        proximo := (proximo + 1) % DOS32;
        punto := punto[j := Punto(indice, l)];
        if puntos < PUNTOS {
          puntos := puntos + 1;
        }
      }
    }
  }

  /** One request to the partition, as the trace of a volume records it. */
  datatype Pedido = Pedido(lba: nat, n: nat)

  /** The request stays inside the active FAT or inside the cluster heap. */
  predicate EnArea(m: Medio, p: Pedido) {
    || (m.fat <= p.lba && p.lba + p.n <= m.fat + m.sectoresFat)
    || (m.datos <= p.lba && p.lba + p.n <= m.datos + Por(m.clusters, m.sectoresCluster))
  }

  /** One slot of the FAT sector cache. */
  datatype Ranura = Ranura(valida: bool, sector: nat, datos: seq<byte>)

  class Volumen {
    const m: Medio
    const lectura: nat
    const conMapa: bool         // exFAT with a bitmap cluster: reads are checked against it
    const bitmap: Cursor
    const bitmapCache: array<byte>
    var bitmapPagina: nat
    var ranuras: seq<Ranura>    // the FAT sector cache
    ghost var pedidos: seq<Pedido>

    constructor (medio: Medio, maximo: nat, mapa: Mapa)
      requires medio.GeometriaValida() && 1 <= maximo
      requires mapa.ConMapa? ==> medio.exfat && MapaMontado(medio, mapa.nodo)
      ensures m == medio && lectura == maximo && fresh(bitmap) && fresh(bitmapCache)
      ensures Valid() && Montado() == mapa && pedidos == []
    {
      m, lectura, conMapa := medio, maximo, mapa.ConMapa?;
      bitmap := new Cursor(if mapa.ConMapa? then mapa.nodo else Nodo(0, 0, 0, false));
      bitmapCache := new byte[SECTOR](_ => 0);
      bitmapPagina := SIN_PAGINA;
      var vacia := Ranura(false, 0, seq(SECTOR, _ => 0));
      ranuras := [vacia, vacia, vacia, vacia];
      pedidos := [];
    }

    function Montado(): Mapa {
      if conMapa then ConMapa(bitmap.nodo) else SinMapa
    }

    /** The bitmap's own reads are not checked against the bitmap. */
    function MapaPara(c: Cursor): Mapa {
      if c == bitmap then SinMapa else Montado()
    }

    ghost predicate FatFiel()
      reads `ranuras, `pedidos
    {
      m.GeometriaValida() && 1 <= lectura && CacheFiel()
    }

    /** The FAT cache agrees with the FAT, and nothing outside the volume was ever requested. */
    ghost predicate CacheFiel()
      requires m.GeometriaValida()
      reads `ranuras, `pedidos
    {
      && |ranuras| == 4
      && (forall k :: 0 <= k < 4 && ranuras[k].valida ==>
            ranuras[k].sector < m.sectores && ranuras[k].datos == Sectores(m, ranuras[k].sector, 1))
      && forall k :: 0 <= k < |pedidos| ==> EnArea(m, pedidos[k])
    }

    ghost predicate BitmapFiel()
      requires m.GeometriaValida()
      reads bitmap, bitmapCache
    {
      && bitmap.Valid(m)
      && bitmapCache.Length == SECTOR
      && (conMapa ==> m.exfat && MapaMontado(m, bitmap.nodo))
    }

    ghost predicate PaginaFiel()
      requires m.GeometriaValida()
      reads `bitmapPagina, bitmapCache
    {
      && bitmapCache.Length == SECTOR
      && (conMapa && bitmapPagina != SIN_PAGINA ==>
           forall k :: 0 <= k < SECTOR && bitmapPagina * SECTOR + k < bitmap.nodo.longitud ==>
             bitmapCache[k] == ByteDe(m, bitmap.nodo, bitmapPagina * SECTOR + k))
    }

    ghost predicate Valid()
      reads this, bitmap, bitmapCache
    {
      FatFiel() && BitmapFiel() && PaginaFiel()
    }

    /** A sector read, recorded. */
    method Pedir(lba: nat, n: nat) returns (r: int, s: seq<byte>)
      requires FatFiel() && EnArea(m, Pedido(lba, n))
      modifies `pedidos
      ensures FatFiel() && r == 0 && lba + n <= m.sectores && s == Sectores(m, lba, n)
      ensures pedidos == old(pedidos) + [Pedido(lba, n)]
    {
      r, s := ParticionLeer(m, lba, n, lectura);
      pedidos := pedidos + [Pedido(lba, n)];
    }

    /** One FAT sector, through the four-slot cache. */
    method SectorFat(lba: nat) returns (r: int, s: seq<byte>)
      requires FatFiel() && EnArea(m, Pedido(lba, 1))
      modifies `ranuras, `pedidos
      ensures FatFiel() && r == 0 && lba < m.sectores && s == Sectores(m, lba, 1)
    {
      var ranura := lba % 4;
      r := 0;
      if !ranuras[ranura].valida || ranuras[ranura].sector != lba {
        r, s := Pedir(lba, 1);
        if r != 0 {
          return;
        }
        ranuras := ranuras[ranura := Ranura(true, lba, s)];
      }
      s := ranuras[ranura].datos;
    }

    /** One FAT link. */
    method SiguienteCluster(c: nat) returns (r: int, salida: nat)
      requires FatFiel()
      modifies `ranuras, `pedidos
      ensures FatFiel()
      ensures r == Codigo(Enlaces(m)(c))
      ensures r == 0 ==> Enlaces(m)(c) == Sigue(salida)
    {
      salida := 0;
      if !m.Valido(c) {
        return VOLUMEN_CORRUPTO, salida;
      }
      FatEntryInItsSector(m, c);
      var s: seq<byte>;
      r, s := SectorFat(m.fat + c * 4 / SECTOR);
      if r != 0 {
        return;
      }
      var n := U32(s, c * 4 % DOS32 % SECTOR);
      assert n == EntradaFat(m, c);
      if !m.exfat {
        n := n % 0x1000_0000;
      }
      if (m.exfat && n == 0xffff_ffff) || (!m.exfat && n >= 0x0fff_fff8) {
        return 1, salida;
      }
      if !m.Valido(n) {
        return VOLUMEN_CORRUPTO, salida;
      }
      return 0, n;
    }

    /** Moves the cursor to cluster index `destino`. The answer depends on the node and the index
        only: not on where the cursor was, nor on checkpoints, caches or earlier failures. */
    method Localizar(c: Cursor, destino: nat) returns (r: int)
      requires FatFiel() && c.Valid(m)
      modifies `ranuras, `pedidos
      modifies c`indice, c`l, c`totalPasos, c`puntos, c`proximo, c`punto
      ensures FatFiel() && c.Valid(m)
      ensures r == Codigo(Ubicar(m, c.nodo, destino))
      ensures r == 0 ==> c.indice == destino && Ubicar(m, c.nodo, destino) == Sigue(c.l.cluster)
    {
      if destino >= m.clusters {
        return VOLUMEN_CORRUPTO;
      }
      if c.nodo.contiguo {
        var fin := c.nodo.cluster + destino;
        if fin > 0xffff_ffff || !m.Valido(fin) {
          return VOLUMEN_CORRUPTO;
        }
        c.l, c.indice := c.l.(cluster := fin), destino;
        return 0;
      }
      r := RecorrerCadena(c, destino);
    }

    /** The linked part of `Localizar`: rewind if needed, then follow links one by one. */
    method RecorrerCadena(c: Cursor, destino: nat) returns (r: int)
      requires FatFiel() && c.Valid(m) && !c.nodo.contiguo && destino < m.clusters
      modifies `ranuras, `pedidos
      modifies c`indice, c`l, c`totalPasos, c`puntos, c`proximo, c`punto
      ensures FatFiel() && c.Valid(m)
      ensures r == Codigo(Ubicar(m, c.nodo, destino))
      ensures r == 0 ==> c.indice == destino && Ubicar(m, c.nodo, destino) == Sigue(c.l.cluster)
    {
      hide CacheFiel, Cursor.PuntosFieles, Cursor.ParcialFiel, Ubicar;
      if destino < c.indice {
        c.Retroceder(destino, Enlaces(m), Inicio(m, c.nodo.cluster));
      }
      if !m.Valido(c.l.cluster) {
        CursorOnInvalidCluster(m, c.nodo, c.indice, destino, c.l);
        return VOLUMEN_CORRUPTO;
      }
      r := AvanzarHasta(c, destino, Enlaces(m), Inicio(m, c.nodo.cluster));
    }

    method AvanzarHasta(c: Cursor, destino: nat, ghost f: Fat, ghost ini: Enlace) returns (r: int)
      requires FatFiel() && f == Enlaces(m) && ini == Inicio(m, c.nodo.cluster) && !c.nodo.contiguo
      requires c.EnCadena(f, ini) && c.indice <= destino < m.clusters
      requires Caminar(f, ini, c.indice) == EnMarcha(c.l)
      modifies `ranuras, `pedidos
      modifies c`indice, c`l, c`totalPasos, c`puntos, c`proximo, c`punto
      ensures FatFiel() && c.EnCadena(f, ini)
      ensures r == Codigo(Ubicar(m, c.nodo, destino))
      ensures r == 0 ==> c.indice == destino && Ubicar(m, c.nodo, destino) == Sigue(c.l.cluster)
    {
      hide CacheFiel, Ubicar, Cursor.EnCadena, Caminar, Enlaces, Inicio;
      while c.indice < destino
        invariant FatFiel() && c.EnCadena(f, ini)
        invariant c.indice <= destino && Caminar(f, ini, c.indice) == EnMarcha(c.l)
        decreases destino - c.indice
      {
        r := SeguirEnlace(c, destino, f, ini);
        if r != 0 {
          return;
        }
      }
      WalkFindsCluster(m, c.nodo, destino);
      return 0;
    }

    /** One link on the way to `destino`. */
    method SeguirEnlace(c: Cursor, ghost destino: nat, ghost f: Fat, ghost ini: Enlace) returns (r: int)
      requires FatFiel() && f == Enlaces(m) && ini == Inicio(m, c.nodo.cluster) && !c.nodo.contiguo
      requires c.EnCadena(f, ini) && c.indice < destino < m.clusters
      requires Caminar(f, ini, c.indice) == EnMarcha(c.l)
      modifies `ranuras, `pedidos
      modifies c`indice, c`l, c`totalPasos, c`puntos, c`proximo, c`punto
      ensures FatFiel() && c.EnCadena(f, ini)
      ensures r == 0 ==> c.indice == old(c.indice) + 1 && Caminar(f, ini, c.indice) == EnMarcha(c.l)
      ensures r != 0 ==> r == Codigo(Ubicar(m, c.nodo, destino)) && !Ubicar(m, c.nodo, destino).Sigue?
    {
      ghost var i := c.indice;
      var codigo, n := SiguienteCluster(c.l.cluster);
      if codigo != 0 {
        HaltIsFinal(m, c.nodo, i, destino);
        return codigo;
      }
      var ok := c.Pisar(n, m.clusters, f, ini);
      if !ok {
        HaltIsFinal(m, c.nodo, i, destino);
        return VOLUMEN_CORRUPTO;
      }
      c.GuardarPunto(f, ini);
      return 0;
    }
  
    /** Whether the bitmap lets `c` be read, through the cached bitmap page. The bitmap's own
        pages are read without this check. */
    method Asignado(c: nat) returns (r: int)
      requires Valid() && m.Valido(c)
      modifies `ranuras, `pedidos, `bitmapPagina
      modifies bitmap, bitmapCache
      ensures Valid()
      ensures r == if conMapa && !MarcaOcupado(m, bitmap.nodo, c) then VOLUMEN_CORRUPTO else 0
      decreases 1
    {
      hide Ubicar, ByteDe, CacheFiel, Cursor.Valid;
      if !conMapa {
        return 0;
      }
      var b := (c - 2) / 8;
      var pagina := b / SECTOR;
      if pagina != bitmapPagina {
        forall k | 0 <= k < bitmapCache.Length {
          bitmapCache[k] := 0;
        }
        var n := Min(bitmap.nodo.longitud - pagina * SECTOR, SECTOR);
        BitmapIsReadable(m, bitmap.nodo, pagina * SECTOR, n);
        r := Leer(bitmap, pagina * SECTOR, bitmapCache, n);
        if r != n {
          return if r < 0 then r else VOLUMEN_CORRUPTO;
        }
        bitmapPagina := pagina;
      }
      assert b == bitmapPagina * SECTOR + b % SECTOR;
      r := if BitDe(bitmapCache[b % SECTOR], (c - 2) % 8) then 0 else VOLUMEN_CORRUPTO;
    }

    /** Reads up to `pedido` bytes of the node from offset `off` into `dst`. */
    method Leer(c: Cursor, off: nat, dst: array<byte>, pedido: nat) returns (r: int)
      requires FatFiel() && BitmapFiel() && c.Valid(m) && pedido <= dst.Length
      requires c != bitmap ==> PaginaFiel() && dst != bitmapCache
      modifies `ranuras, `pedidos, `bitmapPagina
      modifies bitmap, bitmapCache, c, dst
      ensures FatFiel() && BitmapFiel() && c.Valid(m)
      ensures c != bitmap ==> PaginaFiel()
      ensures var n := Alcance(c.nodo, off, pedido);
              r == if n == 0 then 0
                   else if pedido <= INT64_MAX && TodoLegible(m, c.nodo, MapaPara(c), off, n) then n
                   else VOLUMEN_CORRUPTO
      ensures forall k :: 0 <= k < r ==> dst[k] == ByteDe(m, c.nodo, off + k)
      ensures forall k :: Alcance(c.nodo, off, pedido) <= k < dst.Length ==> dst[k] == old(dst[k])
      decreases if c == bitmap then 0 else 2
    {
      hide Ubicar, ByteDe, Legible, PaginaFiel, CacheFiel, Cursor.Valid;
      if off >= c.nodo.longitud || pedido == 0 {
        return 0;
      }
      if pedido > INT64_MAX {
        return VOLUMEN_CORRUPTO;
      }
      var cantidad: nat := Min(pedido, c.nodo.longitud - off);
      var hechos: nat := 0;
      while hechos < cantidad
        invariant hechos <= cantidad == Alcance(c.nodo, off, pedido)
        invariant FatFiel() && BitmapFiel() && c.Valid(m)
        invariant c != bitmap ==> PaginaFiel()
        invariant TodoLegible(m, c.nodo, MapaPara(c), off, hechos)
        invariant forall k :: 0 <= k < hechos ==> dst[k] == ByteDe(m, c.nodo, off + k)
        invariant forall k :: cantidad <= k < dst.Length ==> dst[k] == old(dst[k])
      {
        var n: nat;
        r, n := LeerTramo(c, off + hechos, dst, hechos, cantidad - hechos);
        ReadableRangesJoin(m, c.nodo, MapaPara(c), off, hechos, cantidad - hechos);
        if r != 0 {
          return VOLUMEN_CORRUPTO;
        }
        ReadableRangesJoin(m, c.nodo, MapaPara(c), off, hechos, n);
        hechos := hechos + n;
      }
      return hechos;
    }

    /** The chain and bitmap check that precedes every byte delivered. */
    method Comprobar(c: Cursor, indice: nat) returns (r: int)
      requires FatFiel() && BitmapFiel() && c.Valid(m) && (c != bitmap ==> PaginaFiel())
      modifies `ranuras, `pedidos, `bitmapPagina
      modifies bitmap, bitmapCache
      modifies c`indice, c`l, c`totalPasos, c`puntos, c`proximo, c`punto
      ensures FatFiel() && BitmapFiel() && c.Valid(m) && (c != bitmap ==> PaginaFiel())
      ensures c == bitmap ==> bitmapCache[..] == old(bitmapCache[..])
      ensures r == 0 ==> Ubicar(m, c.nodo, indice) == Sigue(c.l.cluster) && c.indice == indice
      ensures r == if Legible(m, c.nodo, MapaPara(c), indice) then 0 else VOLUMEN_CORRUPTO
      decreases if c == bitmap then 0 else 2, 0, 0
    {
      hide Ubicar, ByteDe, MarcaOcupado, PaginaFiel, CacheFiel, Cursor.Valid;
      LocatedIndexIsValid(m, c.nodo, indice);
      if indice >= m.clusters {
        return VOLUMEN_CORRUPTO;
      }
      r := Localizar(c, indice);
      if r != 0 {
        return VOLUMEN_CORRUPTO;
      }
      if c != bitmap {
        r := Asignado(c.l.cluster);
      }
    }

    /** One round of the read loop: some bytes from position `p`, stored at `dst[hechos..]`. */
    method LeerTramo(c: Cursor, p: nat, dst: array<byte>, hechos: nat, quedan: nat) returns (r: int, n: nat)
      requires FatFiel() && BitmapFiel() && c.Valid(m)
      requires 0 < quedan && hechos + quedan <= dst.Length
      requires c != bitmap ==> PaginaFiel() && dst != bitmapCache
      modifies `ranuras, `pedidos, `bitmapPagina
      modifies bitmap, bitmapCache, c, dst
      ensures FatFiel() && BitmapFiel() && c.Valid(m)
      ensures c != bitmap ==> PaginaFiel()
      ensures r == 0 ==> 0 < n <= quedan && TodoLegible(m, c.nodo, MapaPara(c), p, n)
      ensures r == 0 ==> forall k :: hechos <= k < hechos + n ==> dst[k] == ByteDe(m, c.nodo, p + (k - hechos))
      ensures r != 0 ==> !TodoLegible(m, c.nodo, MapaPara(c), p, quedan)
      ensures forall k :: 0 <= k < hechos || hechos + quedan <= k < dst.Length ==> dst[k] == old(dst[k])
      decreases if c == bitmap then 0 else 2, 0
    {
      hide Ubicar, ByteDe, Legible, TodoLegible, CorridoLegible, Corrido, PaginaFiel, CacheFiel, Cursor.Valid, Por;
      hide Medio.Indice;
      ghost var q, mapa := m.Indice(p), MapaPara(c);
      n := 0;
      r := Comprobar(c, m.Indice(p));
      if r != 0 {
        UnreadableByte(m, c.nodo, mapa, p, quedan, p);
        return;
      }
      LocatedIndexIsValid(m, c.nodo, q);
      RunStarts(m, c.nodo, mapa, q, c.l.cluster);
      var dentro := m.Dentro(p);
      n := Min(quedan, m.bytesCluster - dentro);
      if p >= c.nodo.valida {
        RunIsReadable(m, c.nodo, mapa, p, 0, n);
        ZeroPastValid(m, c.nodo, p, n);
        forall k | hechos <= k < hechos + n {
          dst[k] := 0;
        }
        return;
      }
      n := Min(n, c.nodo.valida - p);
      ghost var g := 0;
      if dentro % SECTOR == 0 && n >= SECTOR {
        var objetivo := Min(Min(quedan, TOPE_LECTURA), c.nodo.valida - p);
        r, n, g := Agrupar(c, p, n, objetivo, quedan);
        if r != 0 {
          return;
        }
      }
      RunIsReadable(m, c.nodo, mapa, p, g, n);
      ghost var total := n;
      n := Copiar(c, p, dst, hechos, n, g);
      ReadablePrefix(m, c.nodo, mapa, p, n, total);
    }

    /** Extends a read of `n0` bytes over the physically adjacent clusters that follow, after
        checking each of them against the chain and the bitmap. The look-ahead uses a copy. */
    method Agrupar(c: Cursor, p: nat, n0: nat, objetivo: nat, ghost quedan: nat)
      returns (r: int, n: nat, ghost g: nat)
      requires FatFiel() && BitmapFiel() && c.Valid(m) && (c != bitmap ==> PaginaFiel())
      requires c.indice == m.Indice(p) && Ubicar(m, c.nodo, m.Indice(p)) == Sigue(c.l.cluster)
      requires Legible(m, c.nodo, MapaPara(c), m.Indice(p))
      requires m.Dentro(p) + n0 <= m.bytesCluster && objetivo <= quedan
      requires n0 < objetivo ==> m.Dentro(p) + n0 == m.bytesCluster
      modifies `ranuras, `pedidos, `bitmapPagina
      modifies bitmap, bitmapCache
      ensures FatFiel() && BitmapFiel() && c.Valid(m) && (c != bitmap ==> PaginaFiel())
      ensures c == bitmap ==> bitmapCache[..] == old(bitmapCache[..])
      ensures c.l.cluster == old(c.l.cluster)
      ensures r == 0 ==> n0 <= n <= Max(n0, objetivo) && m.Dentro(p) + n <= Por(g + 1, m.bytesCluster)
      ensures r == 0 ==> Corrido(m, c.nodo, m.Indice(p), c.l.cluster, g)
      ensures r == 0 ==> CorridoLegible(m, c.nodo, MapaPara(c), m.Indice(p), g)
      ensures r != 0 ==> !TodoLegible(m, c.nodo, MapaPara(c), p, quedan)
      decreases if c == bitmap then 0 else 2, 0, 0
    {
      hide Ubicar, Legible, TodoLegible, CorridoLegible, Corrido, PaginaFiel, CacheFiel, Cursor.Valid;
      hide Medio.Indice, Medio.Dentro, MarcaOcupado;
      ghost var q, mapa := m.Indice(p), MapaPara(c);
      RunStarts(m, c.nodo, mapa, q, c.l.cluster);
      r, n, g := 0, n0, 0;
      var prueba := new Cursor.Copia(c);
      while n < objetivo
        invariant FatFiel() && BitmapFiel() && c.Valid(m) && (c != bitmap ==> PaginaFiel())
        invariant prueba.Valid(m) && prueba != bitmap && prueba != c && prueba.nodo == c.nodo
        invariant prueba.indice == q + g && prueba.l.cluster == c.l.cluster + g
        invariant c.l.cluster == old(c.l.cluster) && (c == bitmap ==> bitmapCache[..] == old(bitmapCache[..]))
        invariant Corrido(m, c.nodo, q, c.l.cluster, g) && CorridoLegible(m, c.nodo, mapa, q, g)
        invariant n0 <= n <= Max(n0, objetivo)
        invariant m.Dentro(p) + n <= Por(g + 1, m.bytesCluster)
        invariant n < objetivo ==> m.Dentro(p) + n == Por(g + 1, m.bytesCluster)
      {
        var anterior := prueba.l.cluster;
        NextByteNextIndex(m, p, n, g);
        LocatedIndexIsValid(m, c.nodo, q + g + 1);
        r := Localizar(prueba, prueba.indice + 1);
        if r != 0 {
          UnreadableIndex(m, c.nodo, mapa, q + g + 1);
          UnreadableByte(m, c.nodo, mapa, p, quedan, p + n);
          return VOLUMEN_CORRUPTO, n, g;
        }
        if prueba.l.cluster != anterior + 1 {
          break;
        }
        if c != bitmap {
          r := Asignado(prueba.l.cluster);
          if r != 0 {
            UnreadableIndex(m, c.nodo, mapa, q + g + 1);
            UnreadableByte(m, c.nodo, mapa, p, quedan, p + n);
            return;
          }
        }
        RunGrows(m, c.nodo, mapa, q, c.l.cluster, g);
        n := n + Min(objetivo - n, m.bytesCluster);
        g := g + 1;
      }
    }

    /** One data sector, through the cursor's own one-sector cache. */
    method SectorParcial(c: Cursor, lba: nat) returns (s: seq<byte>)
      requires FatFiel() && c.Valid(m) && EnArea(m, Pedido(lba, 1))
      modifies `pedidos, c`parcial, c`sectorParcial, c`parcialValido
      ensures FatFiel() && c.Valid(m) && lba < m.sectores && s == Sectores(m, lba, 1)
    {
      hide CacheFiel, Sectores, Cursor.EnCadena;
      if !c.parcialValido || c.sectorParcial != lba {
        var r, leido := Pedir(lba, 1);
        c.parcial, c.sectorParcial, c.parcialValido := leido, lba, true;
      }
      return c.parcial;
    }

    /** Transfers bytes from position `p`: part of one cached sector, or whole sectors at once. */
    method Copiar(c: Cursor, p: nat, dst: array<byte>, hechos: nat, n: nat, ghost g: nat) returns (k: nat)
      requires FatFiel() && c.Valid(m)
      requires 0 < n && hechos + n <= dst.Length && p + n <= c.nodo.valida
      requires m.Dentro(p) + n <= Por(g + 1, m.bytesCluster) && m.Valido(c.l.cluster)
      requires Corrido(m, c.nodo, m.Indice(p), c.l.cluster, g)
      modifies `pedidos, c`parcial, c`sectorParcial, c`parcialValido, dst
      ensures FatFiel() && c.Valid(m)
      ensures 0 < k <= n
      ensures forall j :: hechos <= j < hechos + k ==> dst[j] == ByteDe(m, c.nodo, p + (j - hechos))
      ensures forall j :: 0 <= j < hechos || hechos + n <= j < dst.Length ==> dst[j] == old(dst[j])
    {
      hide Ubicar, ByteDe, Corrido, Por, CacheFiel, Cursor.Valid, Sectores;
      var dentro := m.Dentro(p);
      var lba := m.datos + Por(c.l.cluster - 2, m.sectoresCluster) + dentro / SECTOR;
      RunFitsInHeap(m, c.nodo, m.Indice(p), c.l.cluster, g);
      if dentro % SECTOR != 0 || n < SECTOR {
        k := Min(SECTOR - dentro % SECTOR, n);
        var s := SectorParcial(c, lba);
        SectorHoldsBytes(m, c.nodo, p, c.l.cluster, g, lba, 1, k);
        forall j | hechos <= j < hechos + k {
          dst[j] := s[dentro % SECTOR + (j - hechos)];
        }
      } else {
        var bloques := Min(n / SECTOR, 512);
        var r, s := Pedir(lba, bloques);
        k := bloques * SECTOR;
        SectorHoldsBytes(m, c.nodo, p, c.l.cluster, g, lba, bloques, k);
        forall j | hechos <= j < hechos + k {
          dst[j] := s[j - hechos];
        }
      }
    }

    /** Accepts a linked node exactly when its chain has the length its size calls for. */
    method ValidarCadena(n: Nodo) returns (r: int)
      requires FatFiel() && !n.contiguo && CantidadClusters(m, n) <= DOS32
      modifies `ranuras, `pedidos
      ensures FatFiel()
      ensures r == if CadenaExacta(m, n) then 0 else VOLUMEN_CORRUPTO
    {
      hide CacheFiel, Cursor.Valid, Ubicar, CadenaExacta, CantidadClusters, Siguiente;
      var c := new Cursor(n);
      var cantidad := CantidadClusters(m, n);
      ExactChainIff(m, n);
      if cantidad == 0 {
        return VOLUMEN_CORRUPTO;
      }
      assert (cantidad - 1) % DOS32 == cantidad - 1;
      r := Localizar(c, (cantidad - 1) % DOS32);
      if r != 0 {
        return VOLUMEN_CORRUPTO;
      }
      var siguiente;
      r, siguiente := SiguienteCluster(c.l.cluster);
      return if r == 1 then 0 else VOLUMEN_CORRUPTO;
    }
  }

  lemma ZeroPastValid(m: Medio, n: Nodo, p: nat, cant: nat)
    requires m.GeometriaValida() && n.valida <= p
    ensures forall i: nat :: p <= i < p + cant ==> ByteDe(m, n, i) == 0
  {
    hide Ubicar;
  }

  /** The sectors read for position `p` hold the file's bytes from `p` on. */
  lemma SectorHoldsBytes(m: Medio, n: Nodo, p: nat, c: nat, g: nat, lba: nat, bloques: nat, k: nat)
    requires m.GeometriaValida() && c >= 2 && Corrido(m, n, m.Indice(p), c, g)
    requires lba == m.datos + Por(c - 2, m.sectoresCluster) + m.Dentro(p) / SECTOR
    requires lba + bloques <= m.sectores && m.Dentro(p) % SECTOR + k <= bloques * SECTOR
    requires p + k <= n.valida && m.Dentro(p) + k <= Por(g + 1, m.bytesCluster)
    ensures forall i: nat :: p <= i < p + k ==>
              ByteDe(m, n, i) == Sectores(m, lba, bloques)[m.Dentro(p) % SECTOR + (i - p)]
  {
    hide ByteDe, Corrido, Por;
    forall i: nat | p <= i < p + k
      ensures ByteDe(m, n, i) == Sectores(m, lba, bloques)[m.Dentro(p) % SECTOR + (i - p)]
    {
      RunIsContiguousOnDisk(m, n, p, c, g, i - p);
    }
  }

  /** Entry `c` of the FAT: its sector, and its offset there although `c * 4` wraps at 2^32. */
  lemma FatEntryInItsSector(m: Medio, c: nat)
    requires m.GeometriaValida() && m.Valido(c)
    ensures var lba := m.fat + c * 4 / SECTOR;
            && EnArea(m, Pedido(lba, 1)) && lba + 1 <= m.sectores
            && c * 4 % DOS32 % SECTOR + 4 <= SECTOR
            && U32(Sectores(m, lba, 1), c * 4 % DOS32 % SECTOR) == EntradaFat(m, c)
  {
    var lba := m.fat + c * 4 / SECTOR;
    var k := EntryOffset(c);
    U32OfSlice(m.disco, (m.inicio + lba) * SECTOR, (m.inicio + lba + 1) * SECTOR, k);
  }

  lemma EntryOffset(c: nat) returns (k: nat)
    ensures k == c * 4 % DOS32 % SECTOR && k + 4 <= SECTOR
    ensures c * 4 / SECTOR * SECTOR + k == c * 4
  {
    k := c * 4 % SECTOR;
  }

  lemma WalkFindsCluster(m: Medio, n: Nodo, i: nat)
    requires m.GeometriaValida() && !n.contiguo && i < m.clusters && Rastro(m, n.cluster, i).EnMarcha?
    ensures Ubicar(m, n, i) == Sigue(Rastro(m, n.cluster, i).l.cluster)
  {
  }

  /** A refusal at index `i + 1` is the answer for every later index. */
  lemma HaltIsFinal(m: Medio, n: Nodo, i: nat, destino: nat)
    requires m.GeometriaValida() && !n.contiguo && i < destino < m.clusters
    requires Rastro(m, n.cluster, i).EnMarcha? && Paso(Enlaces(m), Rastro(m, n.cluster, i).l).Alto?
    ensures Ubicar(m, n, destino) == Paso(Enlaces(m), Rastro(m, n.cluster, i).l).fin
    ensures Rastro(m, n.cluster, i + 1) == Alto(Ubicar(m, n, destino))
  {
    CaminarHaltsForGood(Enlaces(m), Inicio(m, n.cluster), i + 1, destino);
  }

  lemma CursorOnInvalidCluster(m: Medio, n: Nodo, i: nat, destino: nat, l: Liebre)
    requires m.GeometriaValida() && !n.contiguo && i <= destino < m.clusters && !m.Valido(l.cluster)
    requires (i == 0 && l == Salida(n.cluster)) || Rastro(m, n.cluster, i) == EnMarcha(l)
    ensures Ubicar(m, n, destino) == Roto
  {
    if Rastro(m, n.cluster, i) == EnMarcha(l) {
      CursorStateIsFunctionOfIndex(Enlaces(m), Inicio(m, n.cluster), i);
      ClustersAreValid(m, n.cluster, i);
      assert false;
    }
    CaminarHaltsForGood(Enlaces(m), Inicio(m, n.cluster), 0, destino);
  }
}
