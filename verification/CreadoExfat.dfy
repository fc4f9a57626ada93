/** Writer and reader on one device: a file that has been created is read back byte by byte. */
module CreadoExfat {
  import opened Bytes
  import opened Bits
  import opened CadenaFat
  import opened MedioFat
  import opened ArchivoFat
  import opened FatLector
  import opened FatEscrita
  import C = ConjuntoExfat
  import E = EscrituraExfat

  /** The mounted volume holds the clusters that the writer works on. */
  ghost predicate Mismo(m: Medio, t: E.Trazado, d: E.Disco)
    requires m.GeometriaValida()
  {
    && m.clusters == t.total && m.bytesCluster == t.bpc
    && forall c: nat :: m.Valido(c) ==> c in d.clusters && d.clusters[c] == ClusterEnDisco(m, c)
  }

  /** The part of a directory entry that the data path uses. */
  function DeEntrada(n: C.Nodo): Nodo {
    Nodo(n.longitud, n.valida, n.cluster, n.contiguo)
  }

  lemma {:induction false} RunLength(m: Medio, t: E.Trazado, d: E.Disco, c: nat, n: nat)
    requires m.GeometriaValida() && Mismo(m, t, d) && 2 <= c && c + n <= t.total + 2
    requires forall k: nat :: c <= k < c + n ==> k in d.clusters
    ensures |E.Seguidos(d, c, n)| == n * t.bpc
  {
    hide Medio.GeometriaValida, ClusterEnDisco;
    if n > 0 {
      RunLength(m, t, d, c, n - 1);
      assert m.Valido(c + n - 1);
      assert n * t.bpc == (n - 1) * t.bpc + t.bpc;
    }
  }

  lemma {:induction false} RunOnDevice(m: Medio, t: E.Trazado, d: E.Disco, c: nat, n: nat, p: nat)
    requires m.GeometriaValida() && Mismo(m, t, d) && 2 <= c && c + n <= t.total + 2 && p < n * t.bpc
    requires forall k: nat :: c <= k < c + n ==> k in d.clusters
    ensures p < |E.Seguidos(d, c, n)| && Principio(m, c) + p < |m.disco|
    ensures E.Seguidos(d, c, n)[p] == m.disco[Principio(m, c) + p]
    decreases n
  {
    hide Medio.GeometriaValida, Principio;
    RunLength(m, t, d, c, n);
    RunLength(m, t, d, c, n - 1);
    var u := (n - 1) * t.bpc;
    if p < u {
      RunOnDevice(m, t, d, c, n - 1, p);
    } else {
      assert n * t.bpc == u + t.bpc;
      ClusterInside(m, c + n - 1);
      PrincipiosAdd(m, c, n - 1);
      ClusterBytes(m, c + n - 1, p - u);
    }
  }

  lemma ClusterBytes(m: Medio, c: nat, k: nat)
    requires m.GeometriaValida() && m.Valido(c) && k < m.bytesCluster
    ensures Principio(m, c) + k < |m.disco| && ClusterEnDisco(m, c)[k] == m.disco[Principio(m, c) + k]
  {
    hide Principio;
    ClusterInside(m, c);
  }

  lemma PrincipiosAdd(m: Medio, c: nat, n: nat)
    requires m.GeometriaValida() && c >= 2
    ensures Principio(m, c + n) == Principio(m, c) + n * m.bytesCluster
  {
    var s := m.sectoresCluster;
    assert (c + n - 2) * s == (c - 2) * s + n * s;
    assert n * (s * 512) == n * s * 512;
  }

  /** The node of a created file, as the reader's directory scan delivers it. */
  function NodoCreado(datos: seq<byte>, c: nat): Nodo {
    Nodo(|datos|, |datos|, c, datos != [])
  }

  lemma DataOnDevice(m: Medio, t: E.Trazado, d0: E.Disco, d: E.Disco, nombre: seq<byte>, datos: seq<byte>, c: nat, i: nat,
                     b: nat)
    returns (n: nat)
    requires m.GeometriaValida() && Mismo(m, t, d) && E.Creado(t, d0, d, nombre, datos, c, i) && b < |datos|
    ensures b < n * t.bpc && 2 <= c && c + n <= t.total + 2
    ensures Principio(m, c) + b < |m.disco| && m.disco[Principio(m, c) + b] == datos[b]
    ensures forall k: nat :: c <= k < c + n ==> E.Marcado(t, d, k)
  {
    hide E.Creado, E.Marcado, E.Seguidos, Mismo, Medio.GeometriaValida, Principio;
    n := E.CreatedClustersHoldData(t, d0, d, nombre, datos, c, i);
    var todo := E.Seguidos(d, c, n);
    assert todo[..|datos|][b] == todo[b];
    assert 0 * t.bpc == 0;
    RunOnDevice(m, t, d, c, n, b);
  }

  lemma CreatedByte(m: Medio, t: E.Trazado, d0: E.Disco, d: E.Disco, nombre: seq<byte>, datos: seq<byte>, c: nat, i: nat,
                    b: nat)
    requires m.GeometriaValida() && Mismo(m, t, d) && E.Creado(t, d0, d, nombre, datos, c, i) && b < |datos|
    ensures ByteDe(m, NodoCreado(datos, c), b) == datos[b]
    ensures var u := Ubicar(m, NodoCreado(datos, c), m.Indice(b)); u.Sigue? && E.Marcado(t, d, u.cluster)
  {
    hide E.Creado, E.Marcado, Medio.ParticionEnDisco, Principio, ByteDe, Ubicar;
    var n := DataOnDevice(m, t, d0, d, nombre, datos, c, i, b);
    MulMonotone(n, m.clusters + 2 - c, m.bytesCluster);
    ContiguousFileIsOneRun(m, NodoCreado(datos, c), b);
    var q := IndexInHeap(m, NodoCreado(datos, c), b);
    IndexInside(b, m.bytesCluster, n);
  }

  /** The bytes of the node that the reader finds at the slot are the data, on the device, and the
      bitmap that the writer left lets them be read. */
  lemma CreatedFileHoldsData(m: Medio, t: E.Trazado, v: C.Volumen, d0: E.Disco, d: E.Disco, nombre: seq<byte>,
                             datos: seq<byte>, c: nat, i: nat, e: C.Entrega, b: nat)
    requires E.Trazable(t) && v.clusters == t.total && v.bytesCluster == t.bpc && C.VolumenValido(v) && C.PliegaAscii(v)
    requires E.NombreValido(nombre) && |datos| < DOS32 && E.Creado(t, d0, d, nombre, datos, c, i)
    requires m.GeometriaValida() && Mismo(m, t, d)
    requires C.SiguienteDe(v, E.EntradasDesde(d.clusters[t.raiz], i)) == C.Hallado(e)
    ensures e.Entregado? && e.texto == nombre && e.nodo.longitud == |datos|
    ensures b < |datos| ==> ByteDe(m, DeEntrada(e.nodo), b) == datos[b]
    ensures b < |datos| ==> var u := Ubicar(m, DeEntrada(e.nodo), m.Indice(b)); u.Sigue? && E.Marcado(t, d, u.cluster)
  {
    hide E.Creado, E.Marcado, ByteDe, Ubicar, C.SiguienteDe, E.EntradasDesde, C.VolumenValido, C.PliegaAscii, E.NombreValido;
    hide Mismo, Medio.GeometriaValida;
    E.CreatedFileIsRead(t, v, d0, d, nombre, datos, c, i);
    if b < |datos| {
      CreatedByte(m, t, d0, d, nombre, datos, c, i, b);
    }
  }

  /** What the writer marked is what the reader's bitmap check lets through. */
  lemma MarkedIsAllowed(m: Medio, t: E.Trazado, d: E.Disco, bm: Nodo, k: nat)
    requires m.GeometriaValida() && Mismo(m, t, d) && m.Valido(k) && m.Valido(t.mapa)
    requires MapaEscrito(m, ConMapa(bm), [t.mapa])
    ensures MarcaOcupado(m, bm, k) <==> E.Marcado(t, d, k)
  {
    hide Medio.ParticionEnDisco, Dicho, DiceFin, Enlaza, MapaMontado, ClusterEnDisco, MarcaOcupado, BitDe;
    BitmapReaches(m, bm, [t.mapa], k);
    BitmapIsOnDisk(m, bm, [t.mapa], k);
    OneCluster(m, t.mapa);
    BitsAreWorth(d.clusters[t.mapa][(k - 2) / 8], (k - 2) % 8);
  }

  lemma OneCluster(m: Medio, c: nat)
    requires m.GeometriaValida() && m.Valido(c)
    ensures Contenido(m, [c]) == ClusterEnDisco(m, c)
  {
    hide Medio.GeometriaValida, ClusterEnDisco;
    assert [c][..0] == [];
    assert Contenido(m, []) == [];
  }

  /** Created, found in the directory, read: the bytes are the ones that were written. */
  method LeerCreado(v: Volumen, e: C.Nodo, dst: array<byte>, ghost t: E.Trazado, ghost cv: C.Volumen, ghost d0: E.Disco,
                    ghost d: E.Disco, ghost nombre: seq<byte>, ghost datos: seq<byte>, ghost c: nat, ghost i: nat)
    returns (leidos: int)
    requires E.Trazable(t) && cv.clusters == t.total && cv.bytesCluster == t.bpc
    requires C.VolumenValido(cv) && C.PliegaAscii(cv)
    requires E.NombreValido(nombre) && |datos| < DOS32 && E.Creado(t, d0, d, nombre, datos, c, i)
    requires v.Valid() && v.conMapa && Mismo(v.m, t, d) && MapaEscrito(v.m, v.Montado(), [t.mapa])
    requires C.SiguienteDe(cv, E.EntradasDesde(d.clusters[t.raiz], i)) == C.Hallado(C.Entregado(e, nombre))
    requires |datos| <= dst.Length && dst != v.bitmapCache
    modifies v`ranuras, v`pedidos, v`bitmapPagina, v.bitmap, v.bitmapCache, dst
    ensures v.Valid() && leidos == |datos| && dst[..leidos] == datos
  {
    hide E.Creado, E.Marcado, ByteDe, Ubicar, C.SiguienteDe, E.EntradasDesde, C.VolumenValido, C.PliegaAscii, E.NombreValido;
    hide Mismo, Medio.ParticionEnDisco, MapaEscrito, TodoLegible, MarcaOcupado, E.Trazable;
    hide Volumen.CacheFiel, Cursor.Valid, Volumen.PaginaFiel, MapaMontado;
    var n := DeEntrada(e);
    forall b: nat | b < |datos|
      ensures ByteDe(v.m, n, b) == datos[b]
      ensures Legible(v.m, n, v.Montado(), v.m.Indice(b))
    {
      CreatedFileHoldsData(v.m, t, cv, d0, d, nombre, datos, c, i, C.Entregado(e, nombre), b);
      MarkedMapIsThere(v.m, t, d);
      MarkedIsAllowed(v.m, t, d, v.bitmap.nodo, Ubicar(v.m, n, v.m.Indice(b)).cluster);
    }
    CreatedFileHoldsData(v.m, t, cv, d0, d, nombre, datos, c, i, C.Entregado(e, nombre), |datos|);
    AllReadable(v.m, n, v.Montado(), |datos|);
    var cur := new Cursor(n);
    leidos := v.Leer(cur, 0, dst, n.longitud);
  }

  lemma MarkedMapIsThere(m: Medio, t: E.Trazado, d: E.Disco)
    requires E.Trazable(t) && m.GeometriaValida() && Mismo(m, t, d)
    ensures m.Valido(t.mapa)
  {
  }

  lemma AllReadable(m: Medio, n: Nodo, mapa: Mapa, cant: nat)
    requires m.GeometriaValida() && forall b: nat :: b < cant ==> Legible(m, n, mapa, m.Indice(b))
    ensures TodoLegible(m, n, mapa, 0, cant)
  {
    hide Legible;
  }
}
