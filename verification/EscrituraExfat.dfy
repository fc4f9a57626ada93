/** Creating an exFAT file: the disk writes, in order, under the VolumeDirty flag (sections 3.1.13
    and 8.1 of the exFAT specification), when any of them may fail half way. */
module EscrituraExfat {
  import opened Bytes
  import opened Bits
  import opened ConjuntoExfat

  const BANDERAS: nat := 106

  datatype Disco = Disco(principal: seq<byte>, respaldo: seq<byte>, clusters: map<nat, seq<byte>>)

  /** How a disk operation ends. A failed write may have reached any of its sectors. */
  datatype Suceso = Bien | Mal(llega: nat -> bool)

  /** The geometry of a volume whose root directory and bitmap are one cluster each. */
  datatype Trazado = Trazado(total: nat, bpc: nat, mapa: nat, raiz: nat)

  ghost predicate Trazable(t: Trazado) {
    && t.bpc > 0 && t.bpc % SECTOR == 0 && t.total <= 8 * t.bpc && t.total + 2 <= DOS32
    && 2 <= t.mapa < t.total + 2 && 2 <= t.raiz < t.total + 2 && t.mapa != t.raiz
  }

  ghost predicate Formado(t: Trazado, d: Disco) {
    && |d.principal| == SECTOR && |d.respaldo| == SECTOR
    && forall c :: 2 <= c < t.total + 2 ==> c in d.clusters && |d.clusters[c]| == t.bpc
  }

  predicate Sucio(s: seq<byte>) {
    |s| > BANDERAS && BitDe(s[BANDERAS], 1)
  }

  predicate Marcado(t: Trazado, d: Disco, c: nat) {
    t.mapa in d.clusters && c >= 2 && Bit(d.clusters[t.mapa], c - 2)
  }

  // ----- What a crash may leave -----

  function Mezcla(viejo: seq<byte>, nuevo: seq<byte>, llega: nat -> bool): (r: seq<byte>)
    requires |viejo| == |nuevo|
    ensures |r| == |nuevo|
    ensures forall k :: 0 <= k < |r| ==> r[k] == if llega(k / SECTOR) then nuevo[k] else viejo[k]
  {
    seq(|nuevo|, k requires 0 <= k < |nuevo| => if llega(k / SECTOR) then nuevo[k] else viejo[k])
  }

  function Queda(viejo: seq<byte>, nuevo: seq<byte>, s: Suceso): (r: seq<byte>)
    requires |viejo| == |nuevo|
    ensures |r| == |nuevo|
  {
    if s.Bien? then nuevo else Mezcla(viejo, nuevo, s.llega)
  }

  /** The clusters a directory entry names, when it names a run. */
  predicate NombraTramo(e: seq<byte>)
    requires |e| == ENTRADA
  {
    e[0] == 0xC0 && BitDe(e[1], 1)
  }

  function EntradaEn(raiz: seq<byte>, k: nat): (e: Entrada)
    requires ENTRADA * k + ENTRADA <= |raiz|
  {
    raiz[ENTRADA * k..ENTRADA * k + ENTRADA]
  }

  predicate EnTramo(t: Trazado, e: seq<byte>, c: nat)
    requires |e| == ENTRADA && t.bpc > 0
  {
    U32(e, 20) <= c < U32(e, 20) + (U64(e, 24) + t.bpc - 1) / t.bpc
  }

  /** Entry `k` of a directory names cluster `c` as part of a run. */
  predicate Nombra(t: Trazado, raiz: seq<byte>, k: nat, c: nat)
    requires t.bpc > 0
  {
    ENTRADA * k + ENTRADA <= |raiz| && NombraTramo(EntradaEn(raiz, k)) && EnTramo(t, EntradaEn(raiz, k), c)
  }

  /** Every entry of the root directory that names a run names clusters marked as allocated. */
  ghost predicate Publicado(t: Trazado, d: Disco)
    requires t.bpc > 0
  {
    t.raiz in d.clusters && forall k: nat, c: nat :: Nombra(t, d.clusters[t.raiz], k, c) ==> Marcado(t, d, c)
  }

  /** Allocated clusters that are neither the bitmap nor the root directory keep their contents. */
  ghost predicate Intactos(t: Trazado, d0: Disco, d: Disco) {
    forall c :: c in d0.clusters && Marcado(t, d0, c) && c != t.mapa && c != t.raiz ==>
      c in d.clusters && d.clusters[c] == d0.clusters[c]
  }

  ghost predicate Crece(t: Trazado, d0: Disco, d: Disco) {
    forall c: nat :: Marcado(t, d0, c) ==> Marcado(t, d, c)
  }

  /** What holds of the disk at every moment of a call that began with disk `d0`. */
  ghost predicate Segura(t: Trazado, d0: Disco, d: Disco)
    requires t.bpc > 0
  {
    && Formado(t, d) && Publicado(t, d) && Crece(t, d0, d) && Intactos(t, d0, d)
    && (Sucio(d.respaldo) ==> Sucio(d.principal))
  }

  /** And, until the call is over: a disk that differs from the first one is marked dirty. */
  ghost predicate Avisada(d0: Disco, d: Disco) {
    d.clusters != d0.clusters ==> Sucio(d.principal)
  }

  // ----- The flag -----

  function ConSucio(s: seq<byte>): (r: seq<byte>)
    requires |s| == SECTOR
    ensures |r| == SECTOR
  {
    SetStaysInByte(s[BANDERAS], 1);
    s[BANDERAS := ConBit(s[BANDERAS], 1)]
  }

  function SinSucio(s: seq<byte>): (r: seq<byte>)
    requires |s| == SECTOR
    ensures |r| == SECTOR
  {
    s[BANDERAS := s[BANDERAS] / 4 * 4 + s[BANDERAS] % 2]
  }

  lemma FlagWrites(s: seq<byte>)
    requires |s| == SECTOR
    ensures Sucio(ConSucio(s)) && !Sucio(SinSucio(s))
    ensures forall k :: 0 <= k < SECTOR && k != BANDERAS ==> ConSucio(s)[k] == s[k] && SinSucio(s)[k] == s[k]
  {
    SetChangesOneBit(s[BANDERAS], 1, 1);
    var b := s[BANDERAS] / 4 * 4 + s[BANDERAS] % 2;
    assert b / 2 == s[BANDERAS] / 4 * 2;
    assert BitDe(b, 1) == BitDe(b / 2, 0);
  }

  lemma OneSectorIsWhole(viejo: seq<byte>, nuevo: seq<byte>, s: Suceso)
    requires |viejo| == |nuevo| == SECTOR
    ensures Queda(viejo, nuevo, s) == nuevo || Queda(viejo, nuevo, s) == viejo
  {
    if s.Mal? {
      var r := Mezcla(viejo, nuevo, s.llega);
      forall k | 0 <= k < SECTOR ensures r[k] == if s.llega(0) then nuevo[k] else viejo[k] {
        assert k / SECTOR == 0;
      }
      assert r == nuevo || r == viejo;
    }
  }

  // ----- One write -----

  function ConCluster(d: Disco, c: nat, buf: seq<byte>): (r: Disco)
    ensures r.principal == d.principal && r.respaldo == d.respaldo && c in r.clusters && r.clusters[c] == buf
    ensures forall k :: k != c ==> (k in r.clusters <==> k in d.clusters) && (k in d.clusters ==> r.clusters[k] == d.clusters[k])
  {
    d.(clusters := d.clusters[c := buf])
  }

  lemma FlagKeepsSafe(t: Trazado, d0: Disco, d: Disco, e: Disco)
    requires t.bpc > 0 && Segura(t, d0, d) && e.clusters == d.clusters && |e.principal| == |e.respaldo| == SECTOR
    requires Sucio(e.respaldo) ==> Sucio(e.principal)
    ensures Segura(t, d0, e)
  {
    hide Nombra;
    assert forall c: nat :: Marcado(t, d, c) <==> Marcado(t, e, c);
  }

  /** Writing a cluster that was free at the start is safe. */
  lemma DataKeepsSafe(t: Trazado, d0: Disco, d: Disco, c: nat, buf: seq<byte>)
    requires Trazable(t) && Segura(t, d0, d) && 2 <= c < t.total + 2 && |buf| == t.bpc
    requires !Marcado(t, d0, c) && c != t.mapa && c != t.raiz
    ensures Segura(t, d0, ConCluster(d, c, buf))
  {
    hide Nombra, ConCluster;
    var e := ConCluster(d, c, buf);
    assert forall c: nat :: Marcado(t, d, c) <==> Marcado(t, e, c);
  }

  /** So is adding marks to the bitmap, however much of the write arrives. */
  lemma MarksKeepSafe(t: Trazado, d0: Disco, d: Disco, nuevo: seq<byte>, s: Suceso)
    requires Trazable(t) && Segura(t, d0, d) && |nuevo| == t.bpc
    requires forall n: nat :: Bit(d.clusters[t.mapa], n) ==> Bit(nuevo, n)
    ensures Segura(t, d0, ConCluster(d, t.mapa, Queda(d.clusters[t.mapa], nuevo, s)))
  {
    hide Nombra, ConCluster, BitDe, Mezcla;
    var e := ConCluster(d, t.mapa, Queda(d.clusters[t.mapa], nuevo, s));
    forall c: nat | Marcado(t, d, c) ensures Marcado(t, e, c) {
      assert Bit(nuevo, c - 2);
    }
  }

  /** So is replacing the root directory by one whose new entries name marked clusters. */
  lemma RootKeepsSafe(t: Trazado, d0: Disco, d: Disco, nuevo: seq<byte>, s: Suceso)
    requires Trazable(t) && Segura(t, d0, d) && |nuevo| == t.bpc
    requires forall k: nat, c: nat :: Nombra(t, nuevo, k, c) ==> Marcado(t, d, c)
    ensures Segura(t, d0, ConCluster(d, t.raiz, Queda(d.clusters[t.raiz], nuevo, s)))
  {
    hide Nombra, ConCluster, Queda, Bit;
    var e := ConCluster(d, t.raiz, Queda(d.clusters[t.raiz], nuevo, s));
    assert forall c: nat :: Marcado(t, d, c) <==> Marcado(t, e, c);
    forall k: nat, c: nat | Nombra(t, e.clusters[t.raiz], k, c) ensures Marcado(t, e, c) {
      EntryIsWhole(t, d.clusters[t.raiz], nuevo, s, k, c);
    }
  }

  /** Sectors hold whole entries, so a torn directory has each entry old or new. */
  lemma EntryIsWhole(t: Trazado, viejo: seq<byte>, nuevo: seq<byte>, s: Suceso, k: nat, c: nat)
    requires t.bpc > 0 && |viejo| == |nuevo|
    ensures Nombra(t, Queda(viejo, nuevo, s), k, c) ==> Nombra(t, viejo, k, c) || Nombra(t, nuevo, k, c)
  {
    hide NombraTramo, EnTramo;
    if s.Mal? && ENTRADA * k + ENTRADA <= |nuevo| {
      var r := Mezcla(viejo, nuevo, s.llega);
      var u := if s.llega(k / 16) then nuevo else viejo;
      forall p | ENTRADA * k <= p < ENTRADA * k + ENTRADA ensures r[p] == u[p] {
        SameSector(k, p - ENTRADA * k);
      }
      assert EntradaEn(r, k) == EntradaEn(u, k);
    }
  }

  lemma SameSector(k: nat, j: nat)
    requires j < ENTRADA
    ensures (ENTRADA * k + j) / SECTOR == k / 16
  {
  }

  // ----- The searches -----

  /** `n` clusters in a row, from bit `i`, are free. */
  predicate TramoLibre(mapa: seq<byte>, i: nat, n: nat) {
    forall j :: i <= j < i + n ==> !Bit(mapa, j)
  }

  /** The first run of free clusters, with its bits set: the loops of the allocator on its buffer. */
  method MarcarTramo(mapa: seq<byte>, total: nat, cantidad: nat)
    returns (hay: bool, inicio: nat, nuevo: seq<byte>)
    requires total <= 8 * |mapa| && cantidad > 0
    ensures hay ==> inicio + cantidad <= total && TramoLibre(mapa, inicio, cantidad)
    ensures hay ==> forall i :: 0 <= i < inicio ==> !TramoLibre(mapa, i, cantidad)
    ensures hay ==> |nuevo| == |mapa| && forall b: nat :: Bit(nuevo, b) <==> Bit(mapa, b) || inicio <= b < inicio + cantidad
    ensures !hay ==> forall i :: 0 <= i <= total - cantidad ==> !TramoLibre(mapa, i, cantidad)
  {
    hide Bit, Marcar;
    hay, inicio, nuevo := false, 0, mapa;
    var libres := 0;
    var bit := 0;
    while bit < total
      invariant bit <= total && libres < cantidad && libres <= bit && nuevo == mapa
      invariant TramoLibre(mapa, bit - libres, libres) && (libres > 0 ==> inicio == bit - libres)
      invariant forall i :: 0 <= i < bit - libres ==> !TramoLibre(mapa, i, cantidad)
    {
      Octet(bit, total, |mapa|);
      if Bit(mapa, bit) {
        NoRunThrough(mapa, bit, libres, cantidad);
        libres := 0;
      } else {
        if libres == 0 {
          inicio := bit;
        }
        libres := libres + 1;
        if libres == cantidad {
          nuevo := MarcarBits(mapa, inicio, cantidad);
          hay := true;
          return;
        }
      }
      bit := bit + 1;
    }
    forall i | 0 <= i <= total - cantidad ensures !TramoLibre(mapa, i, cantidad) {
    }
  }

  lemma Octet(bit: nat, total: nat, n: nat)
    requires bit < total <= 8 * n
    ensures bit / 8 < n
  {
  }

  lemma NoRunThrough(mapa: seq<byte>, bit: nat, libres: nat, cantidad: nat)
    requires Bit(mapa, bit) && libres < cantidad && libres <= bit
    ensures forall i :: bit - libres <= i <= bit ==> !TramoLibre(mapa, i, cantidad)
  {
  }

  method MarcarBits(mapa: seq<byte>, inicio: nat, cantidad: nat) returns (nuevo: seq<byte>)
    requires inicio + cantidad <= 8 * |mapa|
    ensures |nuevo| == |mapa| && forall b: nat :: Bit(nuevo, b) <==> Bit(mapa, b) || inicio <= b < inicio + cantidad
  {
    hide Bit, Marcar;
    nuevo := mapa;
    var j := 0;
    while j < cantidad
      invariant j <= cantidad && |nuevo| == |mapa|
      invariant forall b: nat :: Bit(nuevo, b) <==> Bit(mapa, b) || inicio <= b < inicio + j
    {
      var n := inicio + j;
      Octet(n, inicio + cantidad, |nuevo|);
      ghost var antes := nuevo;
      nuevo := Marcar(nuevo, n);
      forall b: nat ensures Bit(nuevo, b) <==> b == n || Bit(antes, b) {
        MarkChangesOneBit(antes, n, b);
      }
      j := j + 1;
    }
  }

  // ----- What an operation needs to succeed -----

  predicate ConFirma(s: seq<byte>) {
    |s| == SECTOR && s[3..11] == EXFAT
  }

  /** Both boot sectors have the file system's name. */
  predicate Firmado(d: Disco) {
    ConFirma(d.principal) && ConFirma(d.respaldo)
  }

  /** Some run of `n` clusters is free. */
  ghost predicate HayTramo(t: Trazado, d: Disco, n: nat) {
    exists i: nat :: 2 <= i && i + n <= t.total + 2 && LibresDesde(t, d, i, n)
  }

  /** A directory has three entries in a row not in use. */
  ghost predicate HayRanura(raiz: seq<byte>) {
    exists i: nat :: Ranura(raiz, i)
  }

  /** A write that is reported as failed though all of it has arrived. */
  ghost predicate LlegaEntero(s: Suceso) {
    s.Mal? && forall k: nat :: s.llega(k)
  }

  /** A mark in the bitmap that was not there. */
  ghost predicate MarcaNueva(t: Trazado, d0: Disco, d: Disco) {
    exists c: nat :: Marcado(t, d, c) && !Marcado(t, d0, c)
  }

  /** From moment `desde` of a history on, the main boot sector is marked. */
  ghost predicate Avisadas(h: seq<Disco>, desde: nat) {
    desde <= |h| && forall k :: desde <= k < |h| ==> Sucio(h[k].principal)
  }

  lemma NothingSince(h: seq<Disco>)
    ensures Avisadas(h, |h|)
  {
  }

  lemma WarningsSplit(h: seq<Disco>, g: seq<Disco>, desde: nat)
    requires desde <= |h| && h <= g
    ensures Avisadas(g, desde) <==> Avisadas(h, desde) && Avisadas(g, |h|)
  {
    hide Sucio;
    if Avisadas(h, desde) && Avisadas(g, |h|) {
      forall k | desde <= k < |g| ensures Sucio(g[k].principal) {
        if k < |h| {
          assert h[k] == g[k];
        }
      }
    }
    if Avisadas(g, desde) {
      forall k | desde <= k < |h| ensures Sucio(h[k].principal) {
        assert h[k] == g[k];
      }
    }
  }

  /** The code of a call that is refused before it touches the disk, or 0. */
  function Rechazo(nombre: seq<byte>, habilitada: bool, existente: int): int {
    if !NombreValido(nombre) then -1
    else if !habilitada then -6
    else if existente > 0 then -8
    else if existente < 0 then -2
    else 0
  }

  /** What one creation does to disk and writing, by its code. `bien` tells that all its disk
      operations succeed. */
  ghost predicate Efecto(t: Trazado, d: Disco, h: bool, bien: bool, l: Llamada, r: int, e: Disco, g: bool)
    requires t.bpc > 0
  {
    var x := Rechazo(l.nombre, h, l.existente);
    && g == (h && r != -7 && r != -4 && r != -5)
    && (x != 0 ==> r == x && e == d)
    && (x == 0 ==> (r == 0 || r == -3 || r == -4 || r == -5 || r == -7) && Segura(t, d, e))
    && (x == 0 && bien && Firmado(d) ==> r == Esperado(t, d, l.datos))
    && (r == 0 ==> !Sucio(e.principal) && !Sucio(e.respaldo)
                   && exists c: nat, i: nat :: Creado(t, d, e, l.nombre, l.datos, c, i))
    && (r == -3 || r == -4 || r == -5 ==> Sucio(e.principal))
    && (Firmado(d) ==> Firmado(e))
  }

  ghost predicate Traza(t: Trazado, bien: bool, ds: seq<Disco>, hs: seq<bool>, ls: seq<Llamada>, rs: seq<int>)
    requires t.bpc > 0
  {
    |ds| == |hs| == |rs| + 1 && |rs| <= |ls|
    && forall j :: 0 <= j < |rs| ==> Efecto(t, ds[j], hs[j], bien, ls[j], rs[j], ds[j + 1], hs[j + 1])
  }

  ghost predicate SiempreSucio(ds: seq<Disco>) {
    forall j :: 0 <= j < |ds| ==> Sucio(ds[j].principal)
  }

  lemma EmptyTrace(t: Trazado, bien: bool, d: Disco, h: bool, ls: seq<Llamada>)
    requires t.bpc > 0
    ensures Traza(t, bien, [d], [h], ls, []) && (Sucio(d.principal) <==> SiempreSucio([d]))
  {
    hide Sucio;
    assert [d][0] == d;
  }

  /** What the contract of a creation says, as one relation. */
  lemma EffectOfCall(t: Trazado, d: Disco, h: bool, bien: bool, l: Llamada, r: int, e: Disco, g: bool, c: nat, i: nat)
    requires t.bpc > 0 && g == (h && r != -7 && r != -4 && r != -5) && Segura(t, d, e)
    requires Rechazo(l.nombre, h, l.existente) != 0 ==> r == Rechazo(l.nombre, h, l.existente) && e == d
    requires Rechazo(l.nombre, h, l.existente) == 0 ==> r == 0 || r == -3 || r == -4 || r == -5 || r == -7
    requires Rechazo(l.nombre, h, l.existente) == 0 && bien && Firmado(d) ==> r == Esperado(t, d, l.datos)
    requires r == 0 ==> Creado(t, d, e, l.nombre, l.datos, c, i) && !Sucio(e.principal) && !Sucio(e.respaldo)
    requires r == -3 || r == -4 || r == -5 ==> Sucio(e.principal)
    requires Firmado(d) ==> Firmado(e)
    ensures Efecto(t, d, h, bien, l, r, e, g)
  {
    hide Sucio, Creado, Segura, Esperado, Firmado, NombreValido;
  }

  lemma TraceGrows(t: Trazado, bien: bool, ds: seq<Disco>, hs: seq<bool>, ls: seq<Llamada>, rs: seq<int>, r: int, e: Disco, g: bool)
    requires t.bpc > 0 && Traza(t, bien, ds, hs, ls, rs) && |rs| < |ls|
    requires Efecto(t, ds[|rs|], hs[|rs|], bien, ls[|rs|], r, e, g)
    ensures Traza(t, bien, ds + [e], hs + [g], ls, rs + [r])
    ensures SiempreSucio(ds + [e]) <==> SiempreSucio(ds) && Sucio(e.principal)
  {
    hide Efecto, Sucio;
    var es := ds + [e];
    if SiempreSucio(es) {
      forall j | 0 <= j < |ds| ensures Sucio(ds[j].principal) {
        assert es[j] == ds[j];
      }
      assert es[|ds|] == e;
    }
  }

  /** While no call publishes, the mark stays; a call that answers 0 clears it. */
  lemma {:induction false} CodesTellMark(t: Trazado, bien: bool, ds: seq<Disco>, hs: seq<bool>, ls: seq<Llamada>, rs: seq<int>, n: nat)
    requires t.bpc > 0 && Traza(t, bien, ds, hs, ls, rs) && n <= |rs|
    ensures Sucio(ds[0].principal) && (forall j :: 0 <= j < |rs| ==> rs[j] != 0 && rs[j] != -7) ==> Sucio(ds[n].principal)
    ensures n > 0 && rs[n - 1] == 0 ==> !Sucio(ds[n].principal)
  {
    hide Sucio, Creado, Segura, Esperado, Firmado;
    if n > 0 {
      CodesTellMark(t, bien, ds, hs, ls, rs, n - 1);
      assert Efecto(t, ds[n - 1], hs[n - 1], bien, ls[n - 1], rs[n - 1], ds[n], hs[n]);
    }
  }

  /** With writing disabled nothing is changed, and every call is refused. */
  lemma {:induction false} DisabledChangesNothing(t: Trazado, bien: bool, ds: seq<Disco>, hs: seq<bool>, ls: seq<Llamada>,
                                                  rs: seq<int>, n: nat)
    requires t.bpc > 0 && Traza(t, bien, ds, hs, ls, rs) && n <= |rs| && !hs[0]
    ensures ds[n] == ds[0] && !hs[n] && (n > 0 ==> rs[n - 1] == -1 || rs[n - 1] == -6)
  {
    hide Sucio, Creado, Segura, Esperado, Firmado;
    if n > 0 {
      DisabledChangesNothing(t, bien, ds, hs, ls, rs, n - 1);
      assert Efecto(t, ds[n - 1], hs[n - 1], bien, ls[n - 1], rs[n - 1], ds[n], hs[n]);
    }
  }

  /** How a creation ends when every disk operation succeeds. */
  ghost function Esperado(t: Trazado, d: Disco, datos: seq<byte>): int
    requires t.bpc > 0
  {
    if datos != [] && !HayTramo(t, d, Cuantos(|datos|, t.bpc)) then -3
    else if t.raiz in d.clusters && !HayRanura(d.clusters[t.raiz]) then -5
    else 0
  }

  lemma SameRoom(t: Trazado, d: Disco, e: Disco, n: nat)
    requires d.clusters == e.clusters
    ensures HayTramo(t, d, n) <==> HayTramo(t, e, n)
    ensures forall f :: MarcaNueva(t, d, f) <==> MarcaNueva(t, e, f)
  {
    hide Marcado;
    SameMarks(t, d, e);
    forall i: nat ensures LibresDesde(t, d, i, n) <==> LibresDesde(t, e, i, n) {
    }
    forall f ensures MarcaNueva(t, d, f) <==> MarcaNueva(t, e, f) {
      assert forall c: nat :: !Marcado(t, d, c) <==> !Marcado(t, e, c);
    }
  }

  lemma FlagKeepsName(s: seq<byte>)
    requires |s| == SECTOR
    ensures ConFirma(s) ==> ConFirma(ConSucio(s)) && ConFirma(SinSucio(s))
  {
    assert ConSucio(s)[3..11] == s[3..11] && SinSucio(s)[3..11] == s[3..11];
  }

  lemma ArrivedIsWhole(viejo: seq<byte>, nuevo: seq<byte>, s: Suceso)
    requires |viejo| == |nuevo|
    ensures LlegaEntero(s) ==> Queda(viejo, nuevo, s) == nuevo
  {
  }

  lemma TooManyClusters(t: Trazado, d: Disco, n: nat)
    ensures n > t.total ==> !HayTramo(t, d, n)
  {
    hide Marcado;
  }

  lemma NoRun(t: Trazado, d: Disco, n: nat)
    requires Trazable(t) && Formado(t, d) && forall i :: 0 <= i <= t.total - n ==> !TramoLibre(d.clusters[t.mapa], i, n)
    ensures !HayTramo(t, d, n)
  {
    hide Bit;
    MapIsThere(t, d);
    var mapa := d.clusters[t.mapa];
    forall i: nat | 2 <= i && i + n <= t.total + 2 ensures !LibresDesde(t, d, i, n) {
      assert !TramoLibre(mapa, i - 2, n);
      var j :| i - 2 <= j < i - 2 + n && Bit(mapa, j);
      assert Marcado(t, d, j + 2);
    }
  }

  lemma RunFound(t: Trazado, d: Disco, inicio: nat, n: nat)
    requires Trazable(t) && Formado(t, d) && inicio + n <= t.total && TramoLibre(d.clusters[t.mapa], inicio, n)
    ensures HayTramo(t, d, n)
  {
    hide Bit;
    MapIsThere(t, d);
    assert LibresDesde(t, d, inicio + 2, n);
  }

  lemma NewMark(t: Trazado, d: Disco, e: Disco, inicio: nat, n: nat, nuevo: seq<byte>)
    requires Trazable(t) && Formado(t, d) && n > 0 && t.mapa in e.clusters && e.clusters[t.mapa] == nuevo
    requires TramoLibre(d.clusters[t.mapa], inicio, n) && Bit(nuevo, inicio)
    ensures MarcaNueva(t, d, e)
  {
    hide Bit;
    assert Marcado(t, e, inicio + 2) && !Marcado(t, d, inicio + 2);
  }

  class Escritor {
    var disco: Disco
    var habilitada: bool
    var hechas: nat                       // disk operations so far
    const t: Trazado
    const sucesos: nat -> Suceso          // how each of them ends
    ghost var historia: seq<Disco>        // the disk after every write attempted

    ghost predicate Valid()
      reads this
    {
      Trazable(t) && Formado(t, disco)
    }

    constructor (d: Disco, tr: Trazado, s: nat -> Suceso)
      requires Trazable(tr) && Formado(tr, d)
      ensures Valid() && disco == d && t == tr && habilitada && historia == [] && hechas == 0 && sucesos == s
    {
      disco, t, sucesos, hechas, habilitada, historia := d, tr, s, 0, true, [];
    }

    /** From operation `n` on, all succeed. */
    ghost predicate TodoBien(n: nat) {
      forall k: nat :: k >= n ==> sucesos(k).Bien?
    }

    /** The first bitmap write of a creation that starts at operation `n` is torn, all of it arriving. */
    ghost predicate SeRompe(n: nat) {
      (forall k: nat :: n <= k < n + 5 ==> sucesos(k).Bien?) && LlegaEntero(sucesos(n + 5))
    }

    /** The main mark has stood since moment `desde`. */
    ghost predicate Avisados(desde: nat)
      reads `historia
    {
      Avisadas(historia, desde)
    }

    /** Since moment `desde` of the history the disk has been safe, and marked dirty if changed. */
    ghost predicate Vigilada(d0: Disco, desde: nat)
      reads `historia
    {
      && t.bpc > 0 && desde <= |historia|
      && forall k :: desde <= k < |historia| ==> Segura(t, d0, historia[k]) && Avisada(d0, historia[k])
    }

    method LeerCluster(c: nat) returns (ok: bool, buf: seq<byte>)
      requires Valid()
      modifies `hechas
      ensures ok ==> c in disco.clusters && buf == disco.clusters[c] && |buf| == t.bpc && 2 <= c < t.total + 2
      ensures 2 <= c < t.total + 2 ==> hechas == old(hechas) + 1 && (ok <==> sucesos(old(hechas)).Bien?)
      ensures hechas >= old(hechas)
    {
      ok, buf := false, [];
      if c < 2 || c - 2 >= t.total {
        return;
      }
      ok := sucesos(hechas).Bien?;
      hechas := hechas + 1;
      if ok {
        buf := disco.clusters[c];
      }
    }

    method EscribirCluster(c: nat, buf: seq<byte>) returns (ok: bool, ghost s: Suceso)
      requires Valid() && |buf| == t.bpc
      modifies `disco, `hechas, `historia
      ensures Valid() && (ok ==> s.Bien? && 2 <= c < t.total + 2) && s == sucesos(old(hechas)) && hechas >= old(hechas)
      ensures c < 2 || c - 2 >= t.total ==> !ok && disco == old(disco) && historia == old(historia)
      ensures 2 <= c < t.total + 2 ==>
                && hechas == old(hechas) + 1 && (ok <==> s.Bien?) && c in old(disco).clusters && |old(disco).clusters[c]| == |buf|
                && disco == ConCluster(old(disco), c, Queda(old(disco).clusters[c], buf, s))
                && historia == old(historia) + [disco]
    {
      hide ConCluster;
      s := sucesos(hechas);
      if c < 2 || c - 2 >= t.total {
        return false, s;
      }
      var r := sucesos(hechas);
      ok := r.Bien?;
      hechas := hechas + 1;
      disco := ConCluster(disco, c, Queda(disco.clusters[c], buf, r));
      historia := historia + [disco];
    }

    method EscribirArranque(respaldo: bool, s: seq<byte>) returns (ok: bool)
      requires Valid() && |s| == SECTOR
      modifies `disco, `hechas, `historia
      ensures Valid() && historia == old(historia) + [disco] && disco.clusters == old(disco).clusters
      ensures hechas == old(hechas) + 1 && (ok <==> sucesos(old(hechas)).Bien?)
      ensures respaldo ==> disco.principal == old(disco).principal
                           && (disco.respaldo == s || (!ok && disco.respaldo == old(disco).respaldo))
      ensures !respaldo ==> disco.respaldo == old(disco).respaldo
                            && (disco.principal == s || (!ok && disco.principal == old(disco).principal))
    {
      var r := sucesos(hechas);
      ok := r.Bien?;
      hechas := hechas + 1;
      if respaldo {
        OneSectorIsWhole(disco.respaldo, s, r);
        disco := disco.(respaldo := Queda(disco.respaldo, s, r));
      } else {
        OneSectorIsWhole(disco.principal, s, r);
        disco := disco.(principal := Queda(disco.principal, s, r));
      }
      historia := historia + [disco];
    }

    method LeerArranques() returns (ok: bool, a: seq<byte>, b: seq<byte>)
      requires Valid()
      modifies `hechas
      ensures |a| == |b| == SECTOR && hechas >= old(hechas)
      ensures ok ==> a == disco.principal && b == disco.respaldo && hechas == old(hechas) + 2
      ensures TodoBien(old(hechas)) && Firmado(disco) ==> ok
      ensures sucesos(old(hechas)).Bien? && sucesos(old(hechas) + 1).Bien? && Firmado(disco) ==> ok
    {
      a, b := disco.principal, disco.respaldo;
      ok := sucesos(hechas).Bien?;
      hechas := hechas + 1;
      if ok {
        ok := sucesos(hechas).Bien?;
        hechas := hechas + 1;
      }
      ok := ok && a[3..11] == EXFAT && b[3..11] == EXFAT;
    }

    /** Marks the volume dirty, main boot sector first. */
    method MarcarSucio(ghost d0: Disco, ghost desde: nat) returns (ok: bool)
      requires Valid() && Segura(t, d0, disco) && Avisada(d0, disco) && Vigilada(d0, desde)
      modifies `disco, `hechas, `historia
      ensures Valid() && Segura(t, d0, disco) && Avisada(d0, disco) && Vigilada(d0, desde)
      ensures disco.clusters == old(disco).clusters && |historia| >= |old(historia)|
      ensures ok ==> Sucio(disco.principal) && Sucio(disco.respaldo) && hechas == old(hechas) + 4
      ensures hechas >= old(hechas) && old(historia) <= historia && (Firmado(old(disco)) ==> Firmado(disco))
      ensures old(Avisados(desde)) && Sucio(old(disco).principal) ==> Avisados(desde) && Sucio(disco.principal)
      ensures Firmado(old(disco)) && (forall k :: old(hechas) <= k < old(hechas) + 4 ==> sucesos(k).Bien?) ==> ok
    {
      hide Formado, Publicado, Crece, Intactos, Sucio, SinSucio, ConSucio, ConFirma;
      var a, b;
      ok, a, b := LeerArranques();
      if !ok {
        return;
      }
      FlagWrites(a);
      FlagWrites(b);
      FlagKeepsName(a);
      FlagKeepsName(b);
      ghost var d1 := disco;
      ok := EscribirArranque(false, ConSucio(a));
      StillFormed(t, d1, disco);
      FlagKeepsSafe(t, d0, d1, disco);
      if !ok {
        return;
      }
      ghost var d2 := disco;
      ok := EscribirArranque(true, ConSucio(b));
      StillFormed(t, d2, disco);
      FlagKeepsSafe(t, d0, d2, disco);
    }

    /** Clears the mark, main boot sector last: until that write the change is flagged. */
    method MarcarLimpio(ghost d0: Disco, ghost desde: nat) returns (ok: bool)
      requires Valid() && Segura(t, d0, disco) && Sucio(disco.principal) && Vigilada(d0, desde)
      modifies `disco, `hechas, `historia
      ensures Valid() && Segura(t, d0, disco) && disco.clusters == old(disco).clusters && |historia| >= |old(historia)|
      ensures desde < |historia| ==>
                forall k :: desde <= k < |historia| - 1 ==> Segura(t, d0, historia[k]) && Avisada(d0, historia[k])
      ensures forall k :: desde <= k < |historia| ==>
                Segura(t, d0, historia[k]) && (Avisada(d0, historia[k]) || historia[k].clusters == disco.clusters)
      ensures ok ==> !Sucio(disco.principal) && !Sucio(disco.respaldo)
      ensures hechas >= old(hechas) && old(historia) <= historia && (Firmado(old(disco)) ==> Firmado(disco))
      ensures old(Avisados(desde)) && Sucio(disco.principal) ==> Avisados(desde)
      ensures !Sucio(disco.principal) ==> !Avisados(desde)
      ensures Firmado(old(disco)) && TodoBien(old(hechas)) ==> ok
    {
      hide Formado, Publicado, Crece, Intactos, Sucio, SinSucio, ConSucio, ConFirma;
      var a, b;
      ok, a, b := LeerArranques();
      if !ok {
        return;
      }
      FlagWrites(a);
      FlagWrites(b);
      FlagKeepsName(a);
      FlagKeepsName(b);
      ghost var d1 := disco;
      ok := EscribirArranque(true, SinSucio(b));
      StillFormed(t, d1, disco);
      FlagKeepsSafe(t, d0, d1, disco);
      if !ok {
        return;
      }
      ghost var d2 := disco;
      ok := EscribirArranque(false, SinSucio(a));
      StillFormed(t, d2, disco);
      FlagKeepsSafe(t, d0, d2, disco);
      assert historia[|historia| - 1] == disco;
    }

    /** Takes the first run of free clusters and writes the bitmap. Zero means none, or a disk error. */
    method AsignarContiguos(cantidad: nat, ghost d0: Disco, ghost desde: nat) returns (c: nat)
      requires Valid() && Segura(t, d0, disco) && Sucio(disco.principal) && Vigilada(d0, desde)
      modifies `disco, `hechas, `historia
      ensures Valid() && Segura(t, d0, disco) && Vigilada(d0, desde) && disco.principal == old(disco).principal
      ensures SoloCambia(t.mapa, old(disco), disco)
      ensures c != 0 ==> cantidad > 0 && 2 <= c && c + cantidad <= t.total + 2
      ensures c != 0 ==> forall k: nat :: Marcado(t, disco, k) <==> Marcado(t, old(disco), k) || c <= k < c + cantidad
      ensures c != 0 ==> LibresDesde(t, old(disco), c, cantidad)
      ensures c != 0 ==> forall i :: 2 <= i < c ==> !LibresDesde(t, old(disco), i, cantidad)
      ensures hechas >= old(hechas) && old(historia) <= historia && (old(Avisados(desde)) ==> Avisados(desde))
      ensures c != 0 ==> HayTramo(t, old(disco), cantidad)
      ensures TodoBien(old(hechas)) ==> (c != 0 <==> cantidad > 0 && HayTramo(t, old(disco), cantidad))
      ensures cantidad > 0 && HayTramo(t, old(disco), cantidad)
              && sucesos(old(hechas)).Bien? && LlegaEntero(sucesos(old(hechas) + 1)) ==>
                c == 0 && MarcaNueva(t, old(disco), disco) && hechas >= old(hechas) + 2
    {
      hide Publicado, Crece, Intactos, Sucio, Bit, ConCluster, Queda;
      if cantidad == 0 || cantidad > t.total {
        TooManyClusters(t, disco, cantidad);
        return 0;
      }
      var ok, mapa := LeerCluster(t.mapa);
      if !ok {
        return 0;
      }
      var hay, inicio, nuevo := MarcarTramo(mapa, t.total, cantidad);
      if !hay {
        NoRun(t, disco, cantidad);
        return 0;
      }
      RunFound(t, disco, inicio, cantidad);
      ghost var d1 := disco;
      ghost var s;
      MapIsThere(t, d1);
      ok, s := EscribirCluster(t.mapa, nuevo);
      MarksKeepSafe(t, d0, d1, nuevo, s);
      OneClusterChanges(d1, t.mapa, Queda(d1.clusters[t.mapa], nuevo, s));
      WholeWrite(d1.clusters[t.mapa], nuevo, s);
      ArrivedIsWhole(d1.clusters[t.mapa], nuevo, s);
      if !ok {
        if LlegaEntero(s) {
          NewMark(t, d1, disco, inicio, cantidad, nuevo);
        }
        return 0;
      }
      c := inicio + 2;
      BitsAreMarks(t, d1, disco, inicio, cantidad, nuevo);
    }

    /** Writes the file's bytes, a cluster at a time, the last one padded with zeros. */
    method EscribirDatos(c: nat, cantidad: nat, datos: seq<byte>, ghost d0: Disco, ghost desde: nat) returns (ok: bool)
      requires Valid() && Segura(t, d0, disco) && Sucio(disco.principal) && Vigilada(d0, desde)
      requires 2 <= c && c + cantidad <= t.total + 2
      requires forall k :: c <= k < c + cantidad ==> !Marcado(t, d0, k) && k != t.mapa && k != t.raiz
      modifies `disco, `hechas, `historia
      ensures Valid() && Segura(t, d0, disco) && Vigilada(d0, desde)
      ensures IgualFuera(old(disco), disco, c, cantidad) && (ok ==> Rellenos(t, disco, datos, c, cantidad))
      ensures hechas >= old(hechas) && old(historia) <= historia
      ensures old(Avisados(desde)) ==> Avisados(desde)
      ensures TodoBien(old(hechas)) ==> ok
    {
      hide Publicado, Crece, Intactos, Sucio, Marcado, Relleno, Segura, Vigilada, Avisados, Formado, IgualFuera, Rellenos;
      ok := true;
      NothingWritten(t, disco, datos, c, cantidad);
      var n := 0;
      while n < cantidad
        invariant n <= cantidad && ok && Valid() && Segura(t, d0, disco) && Vigilada(d0, desde)
        invariant IgualFuera(old(disco), disco, c, cantidad) && Rellenos(t, disco, datos, c, n)
        invariant disco.principal == old(disco).principal
        invariant hechas >= old(hechas) && old(historia) <= historia
        invariant old(Avisados(desde)) ==> Avisados(desde)
      {
        ghost var d1 := disco;
        HasCluster(t, d1, c + n);
        ok := EscribirNuevo(c + n, Relleno(datos, n, t.bpc), d0, desde);
        OneMoreCluster(t, old(disco), d1, disco, datos, c, cantidad, n, ok);
        if !ok {
          return;
        }
        n := n + 1;
      }
    }

    /** Writes a cluster that was free at the start. */
    method EscribirNuevo(c: nat, buf: seq<byte>, ghost d0: Disco, ghost desde: nat) returns (ok: bool)
      requires Valid() && Segura(t, d0, disco) && Sucio(disco.principal) && Vigilada(d0, desde)
      requires 2 <= c < t.total + 2 && |buf| == t.bpc && !Marcado(t, d0, c) && c != t.mapa && c != t.raiz
      modifies `disco, `hechas, `historia
      ensures Valid() && Segura(t, d0, disco) && Vigilada(d0, desde)
      ensures SoloCambia(c, old(disco), disco)
      ensures ok ==> c in disco.clusters && disco.clusters[c] == buf
      ensures hechas >= old(hechas) && old(historia) <= historia && (old(Avisados(desde)) ==> Avisados(desde))
      ensures ok <==> sucesos(old(hechas)).Bien?
    {
      hide Publicado, Crece, Intactos, Sucio, Marcado, Queda, ConCluster, Segura, Formado;
      ghost var d1 := disco;
      ghost var s;
      HasCluster(t, d1, c);
      ok, s := EscribirCluster(c, buf);
      DataKeepsSafe(t, d0, d1, c, Queda(d1.clusters[c], buf, s));
      OneClusterChanges(d1, c, Queda(d1.clusters[c], buf, s));
      WholeWrite(d1.clusters[c], buf, s);
    }

    /** Puts the entry set in the root directory and writes it. */
    method InsertarEntrada(nombre: seq<byte>, dir: bool, c: nat, tamano: nat, ghost d0: Disco, ghost desde: nat)
      returns (r: int, ghost i: nat)
      requires Valid() && Segura(t, d0, disco) && Sucio(disco.principal) && Vigilada(d0, desde)
      requires |nombre| <= 15 && c < DOS32 && tamano < DOS32
      requires forall k :: c <= k < c + Cuantos(tamano, t.bpc) ==> Marcado(t, disco, k)
      modifies `disco, `hechas, `historia
      ensures Valid() && Segura(t, d0, disco) && Vigilada(d0, desde)
      ensures SoloCambia(t.raiz, old(disco), disco)
      ensures r == 0 ==> t.raiz in old(disco).clusters &&
                         Insertado(old(disco).clusters[t.raiz], disco.clusters[t.raiz], i, nombre, dir, c, tamano)
      ensures hechas >= old(hechas) && old(historia) <= historia && (old(Avisados(desde)) ==> Avisados(desde))
      ensures r == 0 || r == -1 || r == -2
      ensures t.raiz in old(disco).clusters
      ensures r == 0 ==> HayRanura(old(disco).clusters[t.raiz])
      ensures r == -2 ==> !HayRanura(old(disco).clusters[t.raiz])
      ensures TodoBien(old(hechas)) ==> (r == 0 <==> HayRanura(old(disco).clusters[t.raiz]))
    {
      hide Publicado, Crece, Intactos, Sucio, Marcado, ConCluster, Queda, Nombra, Conjunto, Ranura, Cuantos, Insertado;
      i := 0;
      MapIsThere(t, disco);
      var ok, leido := LeerCluster(t.raiz);
      if !ok {
        return -1, i;
      }
      var buf := new byte[|leido|](k requires 0 <= k < |leido| => leido[k]);
      assert buf[..] == leido;
      WholeEntries(t);
      r, i := InsertarConjunto(buf, nombre, dir, c, tamano);
      if r != 0 {
        return -2, i;
      }
      ghost var d1 := disco;
      ghost var s;
      Spliced3(leido, buf[..], i, nombre, dir, c, tamano);
      forall k: nat, x: nat | Nombra(t, buf[..], k, x) ensures Marcado(t, d1, x) {
        InsertedNames(t, d1, leido, buf[..], i, nombre, dir, c, tamano, k, x);
      }
      ok, s := EscribirCluster(t.raiz, buf[..]);
      RootKeepsSafe(t, d0, d1, buf[..], s);
      OneClusterChanges(d1, t.raiz, Queda(d1.clusters[t.raiz], buf[..], s));
      WholeWrite(d1.clusters[t.raiz], buf[..], s);
      r := if ok then 0 else -1;
    }

    /** Allocates clusters for the data and writes it: the middle of a creation. */
    method GuardarDatos(datos: seq<byte>, ghost d0: Disco, ghost desde: nat) returns (r: int, c: nat, cantidad: nat)
      requires Valid() && datos != [] && |datos| < DOS32 && Consistente(t, d0) && disco.clusters == d0.clusters
      requires Segura(t, d0, disco) && Sucio(disco.principal) && Vigilada(d0, desde)
      modifies `disco, `hechas, `historia, `habilitada
      ensures Valid() && Segura(t, d0, disco) && Vigilada(d0, desde) && disco.principal == old(disco).principal
      ensures r == 0 || r == -3 || r == -4
      ensures habilitada == (old(habilitada) && r != -4)
      ensures cantidad == Cuantos(|datos|, t.bpc)
      ensures r == 0 ==> c < DOS32 && Guardado(t, d0, disco, datos, c, cantidad)
      ensures r == 0 ==> t.raiz in d0.clusters && t.raiz in disco.clusters && disco.clusters[t.raiz] == d0.clusters[t.raiz]
      ensures disco.respaldo == old(disco).respaldo && hechas >= old(hechas) && old(historia) <= historia
      ensures old(Avisados(desde)) ==> Avisados(desde)
      ensures TodoBien(old(hechas)) ==> r == if HayTramo(t, old(disco), cantidad) then 0 else -3
      ensures HayTramo(t, old(disco), cantidad)
              && sucesos(old(hechas)).Bien? && LlegaEntero(sucesos(old(hechas) + 1)) ==>
                r == -3 && MarcaNueva(t, old(disco), disco) && hechas >= old(hechas) + 2
      ensures r == -3 ==> SoloCambia(t.mapa, old(disco), disco)
    {
      hide Publicado, Crece, Intactos, Sucio, Marcado, Relleno, Formado, LibresDesde, Guardado, Cuantos, HayTramo,
           MarcaNueva, Segura;
      cantidad := Cuantos(|datos|, t.bpc);
      SomeClusters(|datos|, t.bpc);
      ghost var dm := disco;
      MapIsThere(t, d0);
      c := AsignarContiguos(cantidad, d0, desde);
      if c == 0 {
        return -3, c, cantidad;
      }
      SameFree(t, dm, d0, c, cantidad);
      FreshClusters(t, d0, disco, c, cantidad);
      ghost var d1 := disco;
      var ok := EscribirDatos(c, cantidad, datos, d0, desde);
      if !ok {
        habilitada := false;
        return -4, c, cantidad;
      }
      StoredIsStored(t, d0, dm, d1, disco, datos, c, cantidad);
      r := 0;
    }

    /** Creates a file in the root directory. At every moment, after every write that is made, the disk
        is safe, and until the file is published it is marked dirty if it has changed. */
    method CrearArchivo(nombre: seq<byte>, datos: seq<byte>, existente: int)
      returns (r: int, ghost publicado: bool, ghost c: nat, ghost i: nat)
      requires Valid() && Consistente(t, disco) && |datos| < DOS32
      modifies `disco, `hechas, `historia, `habilitada
      ensures Valid() && Segura(t, old(disco), disco) && old(historia) <= historia && hechas >= old(hechas)
      ensures forall k :: |old(historia)| <= k < |historia| ==>
                && Segura(t, old(disco), historia[k])
                && (Avisada(old(disco), historia[k]) || (publicado && historia[k].clusters == disco.clusters))
      ensures publicado ==> Creado(t, old(disco), disco, nombre, datos, c, i)
      ensures r == 0 ==> publicado && !Sucio(disco.principal) && !Sucio(disco.respaldo)
      ensures Rechazo(nombre, old(habilitada), existente) != 0 ==>
                r == Rechazo(nombre, old(habilitada), existente) && disco == old(disco) && historia == old(historia)
      ensures habilitada == (old(habilitada) && r != -7 && r != -4 && r != -5)
      // what a code says
      ensures Rechazo(nombre, old(habilitada), existente) == 0 ==> r == 0 || r == -3 || r == -4 || r == -5 || r == -7
      ensures publicado ==> r == 0 || r == -7
      ensures r == -3 || r == -4 || r == -5 ==> Sucio(disco.principal)
      ensures r == -3 ==> t.raiz in old(disco).clusters && t.raiz in disco.clusters && disco.clusters[t.raiz] == old(disco).clusters[t.raiz]
      ensures r == -7 && !publicado ==> disco.clusters == old(disco).clusters
      // the main mark
      ensures Sucio(old(disco).principal) && (publicado ==> Sucio(disco.principal)) ==>
                Sucio(disco.principal) && Avisados(|old(historia)|)
      ensures publicado && !Sucio(disco.principal) ==> !Avisados(|old(historia)|)
      // success
      ensures Firmado(old(disco)) ==> Firmado(disco)
      ensures NombreValido(nombre) && old(habilitada) && existente == 0 && Firmado(old(disco)) && TodoBien(old(hechas)) ==>
                r == Esperado(t, old(disco), datos)
      ensures NombreValido(nombre) && old(habilitada) && existente == 0 && Firmado(old(disco)) && SeRompe(old(hechas))
              && datos != [] && HayTramo(t, old(disco), Cuantos(|datos|, t.bpc)) ==>
                r == -3 && MarcaNueva(t, old(disco), disco) && hechas >= old(hechas) + 6
    {
      hide Publicado, Crece, Intactos, Sucio, Marcado, Relleno, Formado, Conjunto, Insertado, Guardado, Cuantos, Creado,
           HayTramo, HayRanura, MarcaNueva, ConFirma, Avisadas, NombreValido, LlegaEntero, Segura, Consistente;
      NothingSince(historia);
      ConsistentHasRoom(t, disco);
      publicado, c, i := false, 0, 0;
      ghost var d0, desde := disco, |historia|;
      SafeAtStart(t, d0);
      if !NombreValido(nombre) {
        return -1, false, 0, 0;
      }
      if !habilitada {
        return -6, false, 0, 0;
      }
      if existente != 0 {
        return (if existente > 0 then -8 else -2), false, 0, 0;
      }
      var ok := MarcarSucio(d0, desde);
      if !ok {
        habilitada := false;
        return -7, false, 0, 0;
      }
      SameRoom(t, d0, disco, Cuantos(|datos|, t.bpc));
      r, c, i := Publicar(nombre, datos, d0, desde);
      if r != 0 {
        return r, false, c, i;
      }
      ghost var d2 := disco;
      publicado := true;
      ok := MarcarLimpio(d0, desde);
      SameClustersCreated(t, d0, d2, disco, nombre, datos, c, i);
      if !ok {
        habilitada := false;
        return -7, true, c, i;
      }
      r := 0;
    }

    /** Any further calls, each with its effect. No mark of the bitmap is lost. A main mark that stood at
        the start stands at every moment if and only if it stands after every call. */
    method Seguir(llamadas: seq<Llamada>) returns (rs: seq<int>, ghost ds: seq<Disco>, ghost hs: seq<bool>)
      requires Valid() && Consistente(t, disco) && forall j :: 0 <= j < |llamadas| ==> |llamadas[j].datos| < DOS32
      modifies `disco, `hechas, `historia, `habilitada
      ensures Valid() && Consistente(t, disco) && Crece(t, old(disco), disco) && old(historia) <= historia
      ensures |rs| == |llamadas| && |ds| == |hs| == |rs| + 1 && Traza(t, TodoBien(old(hechas)), ds, hs, llamadas, rs)
      ensures ds[0] == old(disco) && hs[0] == old(habilitada) && ds[|rs|] == disco && hs[|rs|] == habilitada
      ensures Sucio(old(disco).principal) ==> (Avisados(|old(historia)|) <==> SiempreSucio(ds))
      ensures !old(habilitada) ==> historia == old(historia)
    {
      hide Publicado, Crece, Intactos, Sucio, Formado, Creado, Segura, Consistente, Esperado, HayTramo, MarcaNueva, Firmado,
           Avisadas, Efecto, SiempreSucio, Traza, HayRanura, NombreValido;
      ghost var desde, bien := |historia|, TodoBien(hechas);
      rs, ds, hs := [], [disco], [habilitada];
      SafeAtStart(t, disco);
      StaysConsistent(t, disco, disco);
      NothingSince(historia);
      EmptyTrace(t, bien, disco, habilitada, llamadas);
      while |rs| < |llamadas|
        invariant Valid() && Consistente(t, disco) && Crece(t, old(disco), disco) && old(historia) <= historia
        invariant |rs| <= |llamadas| && hechas >= old(hechas) && Traza(t, bien, ds, hs, llamadas, rs)
        invariant |ds| == |hs| == |rs| + 1 && ds[0] == old(disco) && hs[0] == old(habilitada)
        invariant ds[|rs|] == disco && hs[|rs|] == habilitada
        invariant !old(habilitada) ==> !habilitada && historia == old(historia)
        invariant Sucio(old(disco).principal) ==> (Avisados(desde) <==> SiempreSucio(ds))
        invariant Sucio(old(disco).principal) && Avisados(desde) ==> Sucio(disco.principal)
      {
        var l := llamadas[|rs|];
        ghost var d1, h1, g1 := disco, historia, habilitada;
        var r;
        ghost var publicado, c, i;
        r, publicado, c, i := CrearArchivo(l.nombre, l.datos, l.existente);
        StaysConsistent(t, d1, disco);
        MarksGrow(t, old(disco), d1, disco);
        WarningsSplit(h1, historia, desde);
        EffectOfCall(t, d1, g1, bien, l, r, disco, habilitada, c, i);
        TraceGrows(t, bien, ds, hs, llamadas, rs, r, disco, habilitada);
        rs, ds, hs := rs + [r], ds + [disco], hs + [habilitada];
      }
    }

    /** A creation that fails after changing bitmap or root, and any calls after it. The main mark is
        set when it fails. Unless the failure was -3 it stands from then on whatever is called, and the
        disk does not change. After -3 it stands at every moment if and only if it stands after every
        call: through any calls that do not publish, and not past one that answers 0. */
    method FallarYSeguir(nombre: seq<byte>, datos: seq<byte>, existente: int, llamadas: seq<Llamada>)
      returns (r: int, rs: seq<int>, ghost h1: nat, ghost publicado: bool, ghost ds: seq<Disco>, ghost hs: seq<bool>,
               ghost bien: bool)
      requires Valid() && Consistente(t, disco) && |datos| < DOS32
      requires forall j :: 0 <= j < |llamadas| ==> |llamadas[j].datos| < DOS32
      modifies `disco, `hechas, `historia, `habilitada
      ensures Valid() && h1 <= |historia| && |rs| == |llamadas| && |ds| == |hs| == |rs| + 1
      ensures Traza(t, bien, ds, hs, llamadas, rs)
      ensures TodoBien(old(hechas)) ==> bien
      ensures ds[|rs|] == disco && hs[|rs|] == habilitada && Crece(t, ds[0], disco)
      ensures Efecto(t, old(disco), old(habilitada), TodoBien(old(hechas)), Llamada(nombre, datos, existente), r, ds[0], hs[0])
      ensures !publicado && ds[0].clusters != old(disco).clusters ==>
                && (r == -3 || r == -4 || r == -5) && Sucio(ds[0].principal)
                && (r != -3 ==> disco == ds[0] && Avisados(h1)
                                && forall j :: 0 <= j < |rs| ==> rs[j] == -1 || rs[j] == -6)
                && (r == -3 ==>
                      && (Avisados(h1) <==> SiempreSucio(ds))
                      && ((forall j :: 0 <= j < |rs| ==> rs[j] != 0 && rs[j] != -7) ==> Avisados(h1))
                      && ((exists j :: 0 <= j < |rs| && rs[j] == 0) ==> !Avisados(h1)))
    {
      hide Publicado, Crece, Intactos, Sucio, Formado, Creado, Segura, Consistente, Esperado, HayTramo, MarcaNueva, Firmado,
           Efecto, Traza, HayRanura, NombreValido, Avisadas;
      ghost var d0, g0, b0, c, i := disco, habilitada, TodoBien(hechas), 0, 0;
      r, publicado, c, i := CrearArchivo(nombre, datos, existente);
      StaysConsistent(t, d0, disco);
      EffectOfCall(t, d0, g0, b0, Llamada(nombre, datos, existente), r, disco, habilitada, c, i);
      h1, bien := |historia|, TodoBien(hechas);
      NothingSince(historia);
      rs, ds, hs := Seguir(llamadas);
      forall n: nat | n <= |rs|
        ensures Sucio(ds[0].principal) && (forall j :: 0 <= j < |rs| ==> rs[j] != 0 && rs[j] != -7) ==> Sucio(ds[n].principal)
        ensures n > 0 && rs[n - 1] == 0 ==> !Sucio(ds[n].principal)
        ensures !hs[0] ==> ds[n] == ds[0] && (n > 0 ==> rs[n - 1] == -1 || rs[n - 1] == -6)
      {
        CodesTellMark(t, bien, ds, hs, llamadas, rs, n);
        if !hs[0] {
          DisabledChangesNothing(t, bien, ds, hs, llamadas, rs, n);
        }
      }
      if j: nat :| j < |rs| && rs[j] == 0 {
        assert !Sucio(ds[j + 1].principal);
      }
      if !hs[0] {
        forall j: nat | j < |rs| ensures rs[j] == -1 || rs[j] == -6 {
          DisabledChangesNothing(t, bien, ds, hs, llamadas, rs, j + 1);
        }
      }
    }

    /** After a -3 the warning can be lost: the next creation, when its disk operations succeed, clears
        it if and only if the root directory has room for the entry and the bitmap a run for the data.
        Orphans stay orphans. */
    method PerderAviso(nombre: seq<byte>, datos: seq<byte>) returns (r: int)
      requires Valid() && Consistente(t, disco) && habilitada && NombreValido(nombre) && Firmado(disco) && TodoBien(hechas)
      requires |datos| < DOS32
      modifies `disco, `hechas, `historia, `habilitada
      ensures Valid() && t.raiz in old(disco).clusters
      ensures r == Esperado(t, old(disco), datos)
      ensures r == 0 <==> HayRanura(old(disco).clusters[t.raiz])
                          && (datos == [] || HayTramo(t, old(disco), Cuantos(|datos|, t.bpc)))
      ensures r == 0 ==> !Sucio(disco.principal) && !Sucio(disco.respaldo)
                         && forall c: nat :: Huerfano(t, old(disco), c) ==> Huerfano(t, disco, c)
      ensures r != 0 ==> Sucio(disco.principal)
    {
      hide Publicado, Crece, Intactos, Sucio, Formado, Segura, Consistente, HayTramo, MarcaNueva, Firmado, Marcado,
           NombreValido, Nombra, Insertado, Guardado, HayRanura, Cuantos;
      ghost var d0 := disco;
      ConsistentHasRoom(t, d0);
      ghost var publicado, c, i;
      r, publicado, c, i := CrearArchivo(nombre, datos, 0);
      StaysConsistent(t, d0, disco);
      if r == 0 {
        forall x: nat | Huerfano(t, d0, x) ensures Huerfano(t, disco, x) {
          StillOrphan(t, d0, disco, nombre, datos, c, i, x);
        }
      }
    }

    /** What a creation does between the two marks: the data, then the entry set. */
    method Publicar(nombre: seq<byte>, datos: seq<byte>, ghost d0: Disco, ghost desde: nat)
      returns (r: int, ghost c: nat, ghost i: nat)
      requires Valid() && NombreValido(nombre) && |datos| < DOS32 && Consistente(t, d0) && disco.clusters == d0.clusters
      requires Segura(t, d0, disco) && Sucio(disco.principal) && Vigilada(d0, desde)
      modifies `disco, `hechas, `historia, `habilitada
      ensures Valid() && Segura(t, d0, disco) && Vigilada(d0, desde)
      ensures disco.principal == old(disco).principal && disco.respaldo == old(disco).respaldo
      ensures old(historia) <= historia && hechas >= old(hechas) && (old(Avisados(desde)) ==> Avisados(desde))
      ensures r == 0 || r == -3 || r == -4 || r == -5
      ensures habilitada == (old(habilitada) && r != -4 && r != -5)
      ensures r == 0 ==> Creado(t, d0, disco, nombre, datos, c, i)
      ensures r == -3 ==> SoloCambia(t.mapa, old(disco), disco)
      ensures TodoBien(old(hechas)) ==> r == Esperado(t, old(disco), datos)
      ensures datos != [] && HayTramo(t, old(disco), Cuantos(|datos|, t.bpc))
              && sucesos(old(hechas)).Bien? && LlegaEntero(sucesos(old(hechas) + 1)) ==>
                r == -3 && MarcaNueva(t, old(disco), disco) && hechas >= old(hechas) + 2
    {
      hide Publicado, Crece, Intactos, Sucio, Marcado, Relleno, Formado, Conjunto, Insertado, Guardado, Cuantos, Creado,
           HayTramo, HayRanura, MarcaNueva, Avisados, LlegaEntero, Segura, Consistente, Vigilada, SoloMarca, Rellenos, RestoIgual;
      var cantidad, cl := 0, 0;
      i := 0;
      ShortName(nombre);
      MapIsThere(t, disco);
      ConsistentHasRoom(t, d0);
      if |datos| > 0 {
        r, cl, cantidad := GuardarDatos(datos, d0, desde);
        if r != 0 {
          return r, cl, 0;
        }
      } else {
        NothingStored(t, d0, disco, datos);
      }
      StoredIsMarked(t, d0, disco, datos, cl);
      c := cl;
      ghost var d1 := disco;
      MapIsThere(t, d1);
      r, i := InsertarEntrada(nombre, false, cl, |datos|, d0, desde);
      if r != 0 {
        habilitada := false;
        return -5, c, i;
      }
      PublishedIsCreated(t, d0, d1, disco, nombre, datos, cl, i);
      r := 0;
    }
  }

  // ----- After a failure -----

  datatype Llamada = Llamada(nombre: seq<byte>, datos: seq<byte>, existente: int)

  ghost predicate Nombrado(t: Trazado, d: Disco, c: nat)
    requires t.bpc > 0 && t.raiz in d.clusters
  {
    exists k: nat :: Nombra(t, d.clusters[t.raiz], k, c)
  }

  /** A cluster marked as allocated, other than those of the bitmap and the root, that no run named in
      the root holds. Clusters of chains in the FAT and of subdirectories are named elsewhere: an orphan
      is one that was also free before, see NewMarkIsOrphan. */
  ghost predicate Huerfano(t: Trazado, d: Disco, c: nat) {
    && t.bpc > 0 && t.raiz in d.clusters && Marcado(t, d, c) && !Nombrado(t, d, c)
    && c != t.mapa && c != t.raiz
  }

  lemma StaysConsistent(t: Trazado, d0: Disco, d: Disco)
    requires t.bpc > 0 && Consistente(t, d0) && Segura(t, d0, d)
    ensures Consistente(t, d) && Crece(t, d0, d)
  {
    hide Publicado, Marcado, Formado;
  }

  lemma MarksGrow(t: Trazado, d0: Disco, d1: Disco, d2: Disco)
    requires Crece(t, d0, d1) && Crece(t, d1, d2)
    ensures Crece(t, d0, d2)
  {
    hide Marcado;
  }

  /** A new mark in the bitmap is an orphan while the root directory is as it was, and the cluster it
      marks was not allocated before. */
  lemma NewMarkIsOrphan(t: Trazado, d0: Disco, d: Disco) returns (c: nat)
    requires t.bpc > 0 && Consistente(t, d0) && MarcaNueva(t, d0, d) && t.raiz in d0.clusters && t.raiz in d.clusters
    requires d.clusters[t.raiz] == d0.clusters[t.raiz]
    ensures Huerfano(t, d, c) && !Marcado(t, d0, c)
  {
    hide Marcado, Nombra, Formado;
    c :| Marcado(t, d, c) && !Marcado(t, d0, c);
  }

  /** Creating a file names no cluster but those of its own run. */
  lemma CreatedNamesItsRun(t: Trazado, d0: Disco, d: Disco, nombre: seq<byte>, datos: seq<byte>, c: nat, i: nat, k: nat, x: nat)
    requires t.bpc > 0 && Creado(t, d0, d, nombre, datos, c, i) && Nombra(t, d.clusters[t.raiz], k, x)
    ensures Nombra(t, d0.clusters[t.raiz], k, x) || c <= x < c + Cuantos(|datos|, t.bpc)
  {
    hide Insertado, Marcado, Conjunto, EntradaFlujo, EntradaNombre, EntradaArchivo, HashDe, U16, U32, U64, BitDe, Guardado;
    var viejo, nuevo := d0.clusters[t.raiz], d.clusters[t.raiz];
    ShortAndBounded(viejo, nuevo, i, nombre, c, |datos|);
    var s := Conjunto(nombre, false, c, |datos|);
    InsertedEntries(viejo, nuevo, i, nombre, false, c, |datos|, k);
    SetChecksum(nombre, false, c, |datos|);
    FileFields(U16(s, 2), false);
    StreamFields(nombre, c, |datos|);
    NameUnits(nombre);
    ContiguousFlag();
  }

  lemma StillOrphan(t: Trazado, d0: Disco, d: Disco, nombre: seq<byte>, datos: seq<byte>, c: nat, i: nat, x: nat)
    requires Huerfano(t, d0, x) && Creado(t, d0, d, nombre, datos, c, i) && Crece(t, d0, d)
    ensures Huerfano(t, d, x)
  {
    hide Marcado, Nombra, Insertado, SoloMarca, Rellenos, RestoIgual, Cuantos;
    if k: nat :| Nombra(t, d.clusters[t.raiz], k, x) {
      CreatedNamesItsRun(t, d0, d, nombre, datos, c, i, k, x);
    }
  }

  /** And it is lost: on any consistent volume with room, when the bitmap write of one creation is
      reported as failed though it has arrived, that creation ends in -3, and the next leaves a clean
      volume with a cluster that was free, is marked as allocated and that no entry names. */
  method AvisoPerdido(d: Disco, t: Trazado, s: nat -> Suceso, nombre: seq<byte>, datos: seq<byte>, otro: seq<byte>)
    returns (e: Escritor, r1: int, r2: int, ghost c: nat)
    requires Trazable(t) && Consistente(t, d) && Firmado(d) && NombreValido(nombre) && NombreValido(otro)
    requires datos != [] && |datos| < DOS32 && HayTramo(t, d, Cuantos(|datos|, t.bpc))
    requires t.raiz in d.clusters && HayRanura(d.clusters[t.raiz])
    requires LlegaEntero(s(5)) && forall k: nat :: k != 5 ==> s(k).Bien?
    ensures r1 == -3 && r2 == 0
    ensures !Sucio(e.disco.principal) && !Sucio(e.disco.respaldo) && e.t == t && Huerfano(t, e.disco, c) && !Marcado(t, d, c)
  {
    hide Publicado, Crece, Intactos, Sucio, Formado, Segura, HayTramo, MarcaNueva, Firmado, Marcado, Creado,
         NombreValido, HayRanura, Huerfano, LlegaEntero, Cuantos;
    ConsistentIsFormed(t, d);
    e := new Escritor(d, t, s);
    ghost var publicado, x, i;
    r1, publicado, x, i := e.CrearArchivo(nombre, datos, 0);
    StaysConsistent(t, d, e.disco);
    c := NewMarkIsOrphan(t, d, e.disco);
    r2 := e.PerderAviso(otro, []);
  }

  lemma ConsistentIsFormed(t: Trazado, d: Disco)
    requires Consistente(t, d)
    ensures Formado(t, d)
  {
  }

  lemma ShortName(nombre: seq<byte>)
    requires NombreValido(nombre)
    ensures |nombre| <= 15
  {
  }

  lemma ConsistentHasRoom(t: Trazado, d: Disco)
    requires Trazable(t) && Consistente(t, d)
    ensures t.bpc > 0 && t.mapa in d.clusters && t.raiz in d.clusters && t.mapa != t.raiz
  {
    hide Publicado, Marcado;
    MapIsThere(t, d);
  }

  /** The names the writer accepts. */
  predicate NombreValido(nombre: seq<byte>) {
    && 1 <= |nombre| <= 15 && nombre[|nombre| - 1] != 32 && nombre[|nombre| - 1] != 46
    && forall k :: 0 <= k < |nombre| ==>
         32 <= nombre[k] <= 126 && (nombre[k] as char) !in ['"', '*', '/', ':', '<', '>', '?', '\\', '|']
  }

  lemma ValidIsAscii(nombre: seq<byte>)
    requires NombreValido(nombre)
    ensures NombreAscii(nombre)
  {
  }

  /** A volume as the writer finds it: published entries name marked clusters, as do the bitmap and
      the root themselves, and the backup is not dirty alone. */
  ghost predicate Consistente(t: Trazado, d: Disco) {
    && t.bpc > 0 && Formado(t, d) && Publicado(t, d) && (Sucio(d.respaldo) ==> Sucio(d.principal))
    && Marcado(t, d, t.mapa) && Marcado(t, d, t.raiz)
  }

  lemma SafeAtStart(t: Trazado, d: Disco)
    requires Consistente(t, d)
    ensures Segura(t, d, d) && Avisada(d, d)
  {
    hide Publicado, Marcado;
  }

  /** A run of clusters that was free. */
  ghost predicate TramoNuevo(t: Trazado, d0: Disco, c: nat, n: nat) {
    && (n > 0 ==> 2 <= c && c + n <= t.total + 2)
    && forall k: nat :: c <= k < c + n ==> !Marcado(t, d0, k) && k != t.mapa && k != t.raiz
  }

  ghost predicate SoloMarca(t: Trazado, d0: Disco, d: Disco, c: nat, n: nat) {
    forall k: nat :: Marcado(t, d, k) <==> Marcado(t, d0, k) || c <= k < c + n
  }

  ghost predicate Rellenos(t: Trazado, d: Disco, datos: seq<byte>, c: nat, n: nat) {
    forall k: nat :: c <= k < c + n ==> k in d.clusters && d.clusters[k] == Relleno(datos, k - c, t.bpc)
  }

  ghost predicate RestoIgual(t: Trazado, d0: Disco, d: Disco, c: nat, n: nat) {
    forall k :: k in d0.clusters && k != t.mapa && k != t.raiz && !(c <= k < c + n) ==>
      k in d.clusters && d.clusters[k] == d0.clusters[k]
  }

  /** The run from `c` was free, is marked now and holds the data; the root directory apart, nothing
      else has changed. */
  ghost predicate Guardado(t: Trazado, d0: Disco, d: Disco, datos: seq<byte>, c: nat, n: nat) {
    TramoNuevo(t, d0, c, n) && SoloMarca(t, d0, d, c, n) && Rellenos(t, d, datos, c, n) && RestoIgual(t, d0, d, c, n)
  }

  /** The outcome of a creation: the set in the first free slot of the root, and the data stored. */
  ghost predicate Creado(t: Trazado, d0: Disco, d: Disco, nombre: seq<byte>, datos: seq<byte>, c: nat, i: nat) {
    && t.bpc > 0 && t.raiz in d0.clusters && t.raiz in d.clusters && (datos == [] ==> c == 0)
    && Insertado(d0.clusters[t.raiz], d.clusters[t.raiz], i, nombre, false, c, |datos|)
    && Guardado(t, d0, d, datos, c, Cuantos(|datos|, t.bpc))
  }

  function Cuantos(bytes: nat, bpc: nat): nat
    requires bpc > 0
  {
    (bytes + bpc - 1) / bpc
  }

  lemma MarksAreInClusters(t: Trazado, d: Disco, e: Disco)
    requires t.mapa in d.clusters && t.mapa in e.clusters && d.clusters[t.mapa] == e.clusters[t.mapa]
    ensures forall k: nat :: Marcado(t, d, k) <==> Marcado(t, e, k)
  {
  }

  lemma StoredIsStored(t: Trazado, d0: Disco, dm: Disco, d1: Disco, d2: Disco, datos: seq<byte>, c: nat, n: nat)
    requires Consistente(t, d0) && dm.clusters == d0.clusters && SoloCambia(t.mapa, dm, d1) && t.mapa != t.raiz
    requires t.mapa in d1.clusters && t.mapa in d0.clusters && t.raiz in d0.clusters
    requires n > 0 ==> 2 <= c && c + n <= t.total + 2
    requires forall k: nat :: Marcado(t, d1, k) <==> Marcado(t, dm, k) || c <= k < c + n
    requires forall k :: c <= k < c + n ==> !Marcado(t, d0, k) && k != t.mapa && k != t.raiz
    requires IgualFuera(d1, d2, c, n) && Rellenos(t, d2, datos, c, n)
    ensures Guardado(t, d0, d2, datos, c, n) && t.raiz in d2.clusters && d2.clusters[t.raiz] == d0.clusters[t.raiz]
  {
    hide Publicado, Marcado, Relleno, Formado;
    MarksAreInClusters(t, dm, d0);
    MarksAreInClusters(t, d1, d2);
  }

  lemma NothingStored(t: Trazado, d0: Disco, d: Disco, datos: seq<byte>)
    requires datos == [] && t.bpc > 0 && d.clusters == d0.clusters && t.mapa in d0.clusters
    ensures Guardado(t, d0, d, datos, 0, Cuantos(0, t.bpc))
  {
    hide Marcado;
    MarksAreInClusters(t, d0, d);
    NoClusters(t.bpc);
  }

  lemma StoredIsMarked(t: Trazado, d0: Disco, d: Disco, datos: seq<byte>, c: nat)
    requires t.bpc > 0 && Guardado(t, d0, d, datos, c, Cuantos(|datos|, t.bpc))
    ensures forall k :: c <= k < c + Cuantos(|datos|, t.bpc) ==> Marcado(t, d, k)
  {
    hide Cuantos, Marcado, Relleno;
  }

  lemma SomeClusters(bytes: nat, bpc: nat)
    requires bytes > 0 && bpc > 0
    ensures Cuantos(bytes, bpc) > 0
  {
    assert bytes + bpc - 1 >= bpc;
  }

  lemma NoClusters(bpc: nat)
    requires bpc > 0
    ensures Cuantos(0, bpc) == 0
  {
    DivModUnique(bpc - 1, bpc, 0, bpc - 1);
  }

  lemma PublishedIsCreated(t: Trazado, d0: Disco, d1: Disco, d2: Disco, nombre: seq<byte>, datos: seq<byte>, c: nat, i: nat)
    requires t.bpc > 0 && t.mapa != t.raiz && t.mapa in d1.clusters && t.raiz in d0.clusters && t.raiz in d1.clusters
    requires d1.clusters[t.raiz] == d0.clusters[t.raiz] && SoloCambia(t.raiz, d1, d2)
    requires t.raiz in d2.clusters
             && Insertado(d1.clusters[t.raiz], d2.clusters[t.raiz], i, nombre, false, c, |datos|)
    requires Guardado(t, d0, d1, datos, c, Cuantos(|datos|, t.bpc)) && (datos == [] ==> c == 0)
    ensures Creado(t, d0, d2, nombre, datos, c, i)
  {
    hide Marcado, Insertado, Relleno, Cuantos;
    MarksAreInClusters(t, d1, d2);
    StillStored(t, d0, d1, d2, datos, c, Cuantos(|datos|, t.bpc));
  }

  lemma StillStored(t: Trazado, d0: Disco, d: Disco, e: Disco, datos: seq<byte>, c: nat, n: nat)
    requires Guardado(t, d0, d, datos, c, n) && forall k: nat :: Marcado(t, d, k) <==> Marcado(t, e, k)
    requires forall k :: k in d.clusters && k != t.raiz ==> k in e.clusters && e.clusters[k] == d.clusters[k]
    ensures Guardado(t, d0, e, datos, c, n)
  {
    hide Marcado, Relleno;
    assert SoloMarca(t, d0, e, c, n);
    forall k: nat | c <= k < c + n ensures k in e.clusters && e.clusters[k] == Relleno(datos, k - c, t.bpc) {
      assert !Marcado(t, d0, k);
      assert k in d.clusters && k != t.raiz;
    }
    assert RestoIgual(t, d0, e, c, n);
  }

  lemma SameClustersCreated(t: Trazado, d0: Disco, d: Disco, e: Disco, nombre: seq<byte>, datos: seq<byte>, c: nat, i: nat)
    requires Creado(t, d0, d, nombre, datos, c, i) && d.clusters == e.clusters
    ensures Creado(t, d0, e, nombre, datos, c, i)
  {
    hide Marcado, Insertado, Relleno, Cuantos;
    SameMarks(t, d, e);
    StillStored(t, d0, d, e, datos, c, Cuantos(|datos|, t.bpc));
  }

  lemma SameMarks(t: Trazado, d: Disco, e: Disco)
    requires d.clusters == e.clusters
    ensures forall k: nat :: Marcado(t, d, k) <==> Marcado(t, e, k)
  {
  }

  // ----- What the reader finds -----

  /** The entries of a directory, from the `i`th on. */
  function EntradasDesde(raiz: seq<byte>, i: nat): (es: seq<Entrada>)
    decreases |raiz| - ENTRADA * i
  {
    if ENTRADA * i + ENTRADA <= |raiz| then [EntradaEn(raiz, i)] + EntradasDesde(raiz, i + 1) else []
  }

  lemma ThreeEntries(raiz: seq<byte>, i: nat)
    requires ENTRADA * i + 96 <= |raiz|
    ensures EntradasDesde(raiz, i) ==
            [EntradaEn(raiz, i), EntradaEn(raiz, i + 1), EntradaEn(raiz, i + 2)] + EntradasDesde(raiz, i + 3)
  {
    hide EntradaEn;
    assert EntradasDesde(raiz, i) == [EntradaEn(raiz, i)] + EntradasDesde(raiz, i + 1);
    assert EntradasDesde(raiz, i + 1) == [EntradaEn(raiz, i + 1)] + EntradasDesde(raiz, i + 2);
    assert EntradasDesde(raiz, i + 2) == [EntradaEn(raiz, i + 2)] + EntradasDesde(raiz, i + 3);
  }

  lemma RunHoldsBytes(bytes: nat, bpc: nat, n: nat, total: nat)
    requires bpc > 0 && n == Cuantos(bytes, bpc) && n <= total
    ensures bytes <= total * bpc
  {
    assert bytes + bpc - 1 < (n + 1) * bpc;
    MulMonotone(n, total, bpc);
  }

  /** A file that has been created is what the reader finds at its slot: same name, same length, the
      clusters that hold the bytes. */
  lemma CreatedFileIsRead(t: Trazado, v: Volumen, d0: Disco, d: Disco, nombre: seq<byte>, datos: seq<byte>, c: nat, i: nat)
    requires Trazable(t) && v.clusters == t.total && v.bytesCluster == t.bpc && VolumenValido(v) && PliegaAscii(v)
    requires NombreValido(nombre) && |datos| < DOS32 && Creado(t, d0, d, nombre, datos, c, i)
    ensures SiguienteDe(v, EntradasDesde(d.clusters[t.raiz], i)) ==
            Hallado(Entregado(Nodo(false, |nombre|, datos != [], c, |datos|, |datos|, Letras(nombre)), nombre))
  {
    hide Marcado, Conjunto, SiguienteDe, SoloMarca, Rellenos, RestoIgual, PliegaAscii, EntradaEn, NombreValido, EntradasDesde;
    ValidIsAscii(nombre);
    var viejo, raiz := d0.clusters[t.raiz], d.clusters[t.raiz];
    var s := Conjunto(nombre, false, c, |datos|);
    SlotFits(viejo, raiz, i, nombre, c, |datos|);
    ReadableRun(t, v, d0, c, |datos|);
    ThreeEntries(raiz, i);
    InsertedEntries(viejo, raiz, i, nombre, false, c, |datos|, i);
    InsertedEntries(viejo, raiz, i, nombre, false, c, |datos|, i + 1);
    InsertedEntries(viejo, raiz, i, nombre, false, c, |datos|, i + 2);
    var resto := EntradasDesde(raiz, i + 3);
    var es := [s[..32], s[32..64], s[64..96]] + resto;
    assert [] + es == es;
    InsertedSetIsFound(v, [], nombre, false, c, |datos|, resto);
  }

  lemma {:induction false} EntriesAt(raiz: seq<byte>, i: nat, k: nat)
    requires ENTRADA * i <= |raiz|
    ensures |EntradasDesde(raiz, i)| == |raiz| / ENTRADA - i
    ensures k < |EntradasDesde(raiz, i)| ==> ENTRADA * (i + k) + ENTRADA <= |raiz| && EntradasDesde(raiz, i)[k] == EntradaEn(raiz, i + k)
    decreases |raiz| - ENTRADA * i
  {
    hide EntradaEn;
    if ENTRADA * i + ENTRADA <= |raiz| {
      EntriesAt(raiz, i + 1, if k > 0 then k - 1 else 0);
    }
  }

  lemma EntriesSplit(raiz: seq<byte>, i: nat)
    requires ENTRADA * i <= |raiz|
    ensures |EntradasDesde(raiz, 0)| >= i
    ensures EntradasDesde(raiz, 0) == EntradasDesde(raiz, 0)[..i] + EntradasDesde(raiz, i)
  {
    hide EntradaEn, EntradasDesde;
    EntriesAt(raiz, 0, 0);
    EntriesAt(raiz, i, 0);
    var todas, cola := EntradasDesde(raiz, 0), EntradasDesde(raiz, i);
    assert |todas[i..]| == |cola|;
    forall k: nat | k < |cola| ensures todas[i..][k] == cola[k] {
      EntriesAt(raiz, 0, i + k);
      EntriesAt(raiz, i, k);
    }
    SameTail(todas, cola, i);
  }

  lemma SameTail<T>(todas: seq<T>, cola: seq<T>, i: nat)
    requires i <= |todas| && |todas[i..]| == |cola| && forall k: nat :: k < |cola| ==> todas[i..][k] == cola[k]
    ensures todas == todas[..i] + cola
  {
    assert todas[i..] == cola;
  }

  /** Entries before the slot, and after it, are as they were. */
  lemma EntriesKept(viejo: seq<byte>, nuevo: seq<byte>, i: nat, nombre: seq<byte>, c: nat, tamano: nat)
    requires Insertado(viejo, nuevo, i, nombre, false, c, tamano)
    ensures |nuevo| == |viejo| && ENTRADA * i + 96 <= |nuevo|
    ensures i <= |EntradasDesde(viejo, 0)| && i <= |EntradasDesde(nuevo, 0)|
    ensures EntradasDesde(nuevo, 0)[..i] == EntradasDesde(viejo, 0)[..i]
    ensures EntradasDesde(nuevo, i + 3) == EntradasDesde(viejo, i + 3)
  {
    hide EntradaEn, EntradasDesde, Insertado;
    SlotFits(viejo, nuevo, i, nombre, c, tamano);
    EntriesAt(viejo, 0, 0);
    EntriesAt(nuevo, 0, 0);
    SameEntries(viejo, nuevo, i, nombre, c, tamano, 0, i);
    EntriesAt(viejo, i + 3, 0);
    EntriesAt(nuevo, i + 3, 0);
    SameEntries(viejo, nuevo, i, nombre, c, tamano, i + 3, |EntradasDesde(nuevo, i + 3)|);
  }

  lemma SameEntries(viejo: seq<byte>, nuevo: seq<byte>, i: nat, nombre: seq<byte>, c: nat, tamano: nat, a: nat, n: nat)
    requires Insertado(viejo, nuevo, i, nombre, false, c, tamano) && |nuevo| == |viejo| && ENTRADA * a <= |nuevo|
    requires n <= |EntradasDesde(viejo, a)| && n <= |EntradasDesde(nuevo, a)| && (a > i + 2 || a + n <= i)
    ensures EntradasDesde(nuevo, a)[..n] == EntradasDesde(viejo, a)[..n]
  {
    hide EntradaEn, EntradasDesde, Insertado;
    var x, y := EntradasDesde(nuevo, a), EntradasDesde(viejo, a);
    forall k | 0 <= k < n ensures x[k] == y[k] {
      EntriesAt(viejo, a, k);
      EntriesAt(nuevo, a, k);
      KeptEntry(viejo, nuevo, i, nombre, c, tamano, a + k);
    }
  }

  lemma KeptEntry(viejo: seq<byte>, nuevo: seq<byte>, i: nat, nombre: seq<byte>, c: nat, tamano: nat, k: nat)
    requires Insertado(viejo, nuevo, i, nombre, false, c, tamano) && ENTRADA * k + ENTRADA <= |nuevo|
    requires k < i || k > i + 2
    ensures |nuevo| == |viejo| && EntradaEn(nuevo, k) == EntradaEn(viejo, k)
  {
    hide Conjunto, EntradaEn;
    InsertedEntries(viejo, nuevo, i, nombre, false, c, tamano, k);
  }

  /** In a directory whose entries before the slot are files and entries to skip, the listing gains
      the created file at the slot: the files before it stay, and so does whatever the rest lists. */
  lemma CreatedFileIsListed(t: Trazado, v: Volumen, d0: Disco, d: Disco, nombre: seq<byte>, datos: seq<byte>, c: nat, i: nat,
                            ps: seq<Pieza>)
    requires Trazable(t) && v.clusters == t.total && v.bytesCluster == t.bpc && VolumenValido(v) && PliegaAscii(v)
    requires NombreValido(nombre) && |datos| < DOS32 && Creado(t, d0, d, nombre, datos, c, i)
    requires PiezasBuenas(v, ps) && i <= |EntradasDesde(d0.clusters[t.raiz], 0)|
    requires EntradasDesde(d0.clusters[t.raiz], 0)[..i] == Aplanar(v, ps)
    ensures Listado(v, EntradasDesde(d.clusters[t.raiz], 0)) ==
            Ficheros(ps) + [EntregaDe(nombre, false, c, |datos|)] + Listado(v, EntradasDesde(d0.clusters[t.raiz], i + 3))
  {
    hide Marcado, Conjunto, Listado, PliegaAscii, EntradaEn, NombreValido, EntradasDesde, PiezaBuena, Guardado, Insertado, Aplanar;
    ValidIsAscii(nombre);
    var viejo, raiz := d0.clusters[t.raiz], d.clusters[t.raiz];
    ShortAndBounded(viejo, raiz, i, nombre, c, |datos|);
    CreatedIsWritable(t, v, d0, d, nombre, datos, c, i);
    EntriesKept(viejo, raiz, i, nombre, c, |datos|);
    EntriesSplit(raiz, i);
    ThreeEntries(raiz, i);
    SlotHoldsSet(viejo, raiz, i, nombre, c, |datos|);
    var p := Fichero(nombre, false, c, |datos|);
    PieceIsGood(v, p);
    var resto := EntradasDesde(raiz, i + 3);
    FileIsListed(v, p, resto);
    DirectoryListsFiles(v, ps, EntradasDe(v, p) + resto);
    assert EntradasDesde(raiz, 0) == Aplanar(v, ps) + (EntradasDe(v, p) + resto);
  }

  lemma ShortAndBounded(viejo: seq<byte>, nuevo: seq<byte>, i: nat, nombre: seq<byte>, c: nat, tamano: nat)
    requires Insertado(viejo, nuevo, i, nombre, false, c, tamano)
    ensures |nombre| <= 15 && c < DOS32 && tamano < DOS32
  {
    hide Conjunto;
  }

  lemma CreatedIsWritable(t: Trazado, v: Volumen, d0: Disco, d: Disco, nombre: seq<byte>, datos: seq<byte>, c: nat, i: nat)
    requires Trazable(t) && v.clusters == t.total && v.bytesCluster == t.bpc && |datos| < DOS32 && c < DOS32
    requires Creado(t, d0, d, nombre, datos, c, i)
    ensures Escribible(v, false, c, |datos|)
  {
    hide Insertado, Marcado, SoloMarca, Rellenos, RestoIgual, Cuantos, Escribible;
    ReadableRun(t, v, d0, c, |datos|);
  }

  lemma PieceIsGood(v: Volumen, p: Pieza)
    requires v.bytesCluster > 0 && p.Fichero? && NombreAscii(p.nombre) && Escribible(v, p.dir, p.cluster, p.tamano)
    ensures PiezaBuena(v, p)
  {
  }

  lemma SlotHoldsSet(viejo: seq<byte>, nuevo: seq<byte>, i: nat, nombre: seq<byte>, c: nat, tamano: nat)
    requires Insertado(viejo, nuevo, i, nombre, false, c, tamano) && |nombre| <= 15 && c < DOS32 && tamano < DOS32
    ensures ENTRADA * i + 96 <= |nuevo|
    ensures var s := Conjunto(nombre, false, c, tamano);
            EntradaEn(nuevo, i) == s[..32] && EntradaEn(nuevo, i + 1) == s[32..64] && EntradaEn(nuevo, i + 2) == s[64..96]
  {
    hide Conjunto, EntradaEn, Insertado;
    SlotFits(viejo, nuevo, i, nombre, c, tamano);
    InsertedEntries(viejo, nuevo, i, nombre, false, c, tamano, i);
    InsertedEntries(viejo, nuevo, i, nombre, false, c, tamano, i + 1);
    InsertedEntries(viejo, nuevo, i, nombre, false, c, tamano, i + 2);
  }

  lemma SlotFits(viejo: seq<byte>, nuevo: seq<byte>, i: nat, nombre: seq<byte>, c: nat, tamano: nat)
    requires Insertado(viejo, nuevo, i, nombre, false, c, tamano)
    ensures ENTRADA * i + 96 <= |nuevo| && |nuevo| == |viejo|
  {
    hide Conjunto;
  }

  lemma ReadableRun(t: Trazado, v: Volumen, d0: Disco, c: nat, tamano: nat)
    requires Trazable(t) && v.clusters == t.total && v.bytesCluster == t.bpc && tamano < DOS32 && c < DOS32
    requires TramoNuevo(t, d0, c, Cuantos(tamano, t.bpc)) && (tamano == 0 ==> c == 0)
    ensures Escribible(v, false, c, tamano)
  {
    hide Marcado;
    if tamano > 0 {
      RunIsPositive(v, tamano);
      RunHoldsBytes(tamano, t.bpc, Cuantos(tamano, t.bpc), t.total);
    }
  }

  lemma SameFree(t: Trazado, d: Disco, e: Disco, c: nat, n: nat)
    requires d.clusters == e.clusters && LibresDesde(t, d, c, n)
    ensures LibresDesde(t, e, c, n)
  {
    hide Marcado;
    SameMarks(t, d, e);
  }

  lemma FreshClusters(t: Trazado, d0: Disco, d: Disco, c: nat, n: nat)
    requires Consistente(t, d0) && LibresDesde(t, d0, c, n)
    ensures forall k :: c <= k < c + n ==> !Marcado(t, d0, k) && k != t.mapa && k != t.raiz
  {
    hide Publicado, Marcado;
  }

  /** `nuevo` is `viejo` with the set of a file in its first free slot, at entry `i`. */
  ghost predicate Insertado(viejo: seq<byte>, nuevo: seq<byte>, i: nat, nombre: seq<byte>, dir: bool, c: nat, tamano: nat) {
    && |nombre| <= 15 && c < DOS32 && tamano < DOS32 && Ranura(viejo, i) && (forall j :: 0 <= j < i ==> !Ranura(viejo, j))
    && nuevo == viejo[..32 * i] + Conjunto(nombre, dir, c, tamano) + viejo[32 * i + 96..]
  }

  lemma Spliced3(viejo: seq<byte>, nuevo: seq<byte>, i: nat, nombre: seq<byte>, dir: bool, c: nat, tamano: nat)
    requires |nombre| <= 15 && c < DOS32 && tamano < DOS32 && Ranura(viejo, i) && (forall j :: 0 <= j < i ==> !Ranura(viejo, j))
    requires nuevo == viejo[..32 * i] + Conjunto(nombre, dir, c, tamano) + viejo[32 * i + 96..]
    ensures Insertado(viejo, nuevo, i, nombre, dir, c, tamano) && |nuevo| == |viejo|
  {
    hide Conjunto;
  }

  lemma WholeEntries(t: Trazado)
    requires Trazable(t)
    ensures t.bpc % ENTRADA == 0
  {
    assert t.bpc == ENTRADA * (16 * (t.bpc / SECTOR));
  }

  lemma InsertedEntries(viejo: seq<byte>, nuevo: seq<byte>, i: nat, nombre: seq<byte>, dir: bool, c: nat, tamano: nat, k: nat)
    requires Insertado(viejo, nuevo, i, nombre, dir, c, tamano) && ENTRADA * k + ENTRADA <= |nuevo|
    ensures |nuevo| == |viejo|
    ensures var s := Conjunto(nombre, dir, c, tamano);
            EntradaEn(nuevo, k) ==
            if k == i then s[..32] else if k == i + 1 then s[32..64] else if k == i + 2 then s[64..96] else EntradaEn(viejo, k)
  {
    hide Conjunto, Ranura;
    SlotInside(viejo, i);
    var s, e := Conjunto(nombre, dir, c, tamano), EntradaEn(nuevo, k);
    forall j | 0 <= j < ENTRADA
      ensures e[j] == if k == i then s[j] else if k == i + 1 then s[32 + j] else if k == i + 2 then s[64 + j] else viejo[32 * k + j]
    {
      assert e[j] == nuevo[32 * k + j];
    }
    assert k == i ==> e == s[..32];
    assert k == i + 1 ==> e == s[32..64];
    assert k == i + 2 ==> e == s[64..96];
    assert k < i || k > i + 2 ==> e == EntradaEn(viejo, k);
  }

  lemma SlotInside(viejo: seq<byte>, i: nat)
    requires Ranura(viejo, i)
    ensures 32 * i + 96 <= |viejo|
  {
  }

  lemma InsertedNames(t: Trazado, d: Disco, viejo: seq<byte>, nuevo: seq<byte>, i: nat, nombre: seq<byte>, dir: bool, c: nat,
                      tamano: nat, k: nat, x: nat)
    requires t.bpc > 0 && Publicado(t, d) && viejo == d.clusters[t.raiz]
    requires |nombre| <= 15 && c < DOS32 && tamano < DOS32
    requires Insertado(viejo, nuevo, i, nombre, dir, c, tamano) && Nombra(t, nuevo, k, x)
    requires forall j :: c <= j < c + Cuantos(tamano, t.bpc) ==> Marcado(t, d, j)
    ensures Marcado(t, d, x)
  {
    hide Insertado, Marcado, Conjunto, EntradaFlujo, EntradaNombre, EntradaArchivo, HashDe, U16, U32, U64, BitDe;
    var s := Conjunto(nombre, dir, c, tamano);
    InsertedEntries(viejo, nuevo, i, nombre, dir, c, tamano, k);
    SetChecksum(nombre, dir, c, tamano);
    FileFields(U16(s, 2), dir);
    StreamFields(nombre, c, tamano);
    NameUnits(nombre);
    ContiguousFlag();
    if k != i && k != i + 1 && k != i + 2 {
      assert Nombra(t, viejo, k, x);
    }
  }

  lemma ContiguousFlag()
    ensures BitDe(3, 1) && !BitDe(1, 1)
  {
    assert BitDe(3, 1) == BitDe(1, 0);
    assert BitDe(1, 1) == BitDe(0, 0);
  }

  /** Cluster `j` of a file's bytes, padded with zeros. */
  function Relleno(datos: seq<byte>, j: nat, bpc: nat): (s: seq<byte>)
    ensures |s| == bpc
  {
    seq(bpc, k requires 0 <= k => if j * bpc + k < |datos| then datos[j * bpc + k] else 0)
  }

  // ----- What the clusters of a created file hold -----

  /** The clusters from `c` on, `n` of them, laid end to end. */
  function Seguidos(d: Disco, c: nat, n: nat): seq<byte>
    requires forall k: nat :: c <= k < c + n ==> k in d.clusters
  {
    if n == 0 then [] else Seguidos(d, c, n - 1) + d.clusters[c + n - 1]
  }

  lemma {:induction false} PaddedClusters(t: Trazado, d: Disco, datos: seq<byte>, c: nat, n: nat)
    requires Rellenos(t, d, datos, c, n)
    ensures forall k: nat :: c <= k < c + n ==> k in d.clusters
    ensures |Seguidos(d, c, n)| == n * t.bpc
    ensures forall p: nat :: p < n * t.bpc ==> Seguidos(d, c, n)[p] == if p < |datos| then datos[p] else 0
  {
    if n > 0 {
      PaddedClusters(t, d, datos, c, n - 1);
      var a := (n - 1) * t.bpc;
      assert n * t.bpc == a + t.bpc;
      assert d.clusters[c + n - 1] == Relleno(datos, n - 1, t.bpc);
      forall p: nat | p < n * t.bpc ensures Seguidos(d, c, n)[p] == if p < |datos| then datos[p] else 0 {
        if p >= a {
          assert Seguidos(d, c, n)[p] == d.clusters[c + n - 1][p - a];
          assert a + (p - a) == p;
        }
      }
    }
  }

  /** A created file's clusters are as many as its length needs; laid end to end they are the data
      and then zeros. */
  lemma CreatedClustersHoldData(t: Trazado, d0: Disco, d: Disco, nombre: seq<byte>, datos: seq<byte>, c: nat, i: nat)
    returns (n: nat)
    requires Creado(t, d0, d, nombre, datos, c, i)
    ensures (n - 1) * t.bpc < |datos| <= n * t.bpc && (n > 0 ==> 2 <= c && c + n <= t.total + 2)
    ensures forall k: nat :: c <= k < c + n ==> k in d.clusters && Marcado(t, d, k)
    ensures |Seguidos(d, c, n)| == n * t.bpc && Seguidos(d, c, n)[..|datos|] == datos
    ensures forall p: nat :: |datos| <= p < n * t.bpc ==> Seguidos(d, c, n)[p] == 0
  {
    hide Marcado, Insertado, Relleno, Seguidos;
    n := Cuantos(|datos|, t.bpc);
    CountHolds(|datos|, t.bpc);
    StoredIsMarked(t, d0, d, datos, c);
    PaddedClusters(t, d, datos, c, n);
    var todo := Seguidos(d, c, n);
    assert forall p: nat :: p < |datos| ==> todo[p] == datos[p];
  }

  lemma CountHolds(bytes: nat, bpc: nat)
    requires bpc > 0
    ensures (Cuantos(bytes, bpc) - 1) * bpc < bytes <= Cuantos(bytes, bpc) * bpc
  {
    var n := Cuantos(bytes, bpc);
    assert n * bpc + (bytes + bpc - 1) % bpc == bytes + bpc - 1;
    assert (n - 1) * bpc == n * bpc - bpc;
  }

  /** The disks differ in `n` clusters from `c` on at most. */
  ghost predicate IgualFuera(d: Disco, e: Disco, c: nat, n: nat) {
    && e.principal == d.principal && e.respaldo == d.respaldo && e.clusters.Keys == d.clusters.Keys
    && forall k :: k in d.clusters && !(c <= k < c + n) ==> e.clusters[k] == d.clusters[k]
  }

  lemma NothingWritten(t: Trazado, d: Disco, datos: seq<byte>, c: nat, n: nat)
    ensures IgualFuera(d, d, c, n) && Rellenos(t, d, datos, c, 0)
  {
  }

  lemma OneMoreCluster(t: Trazado, d: Disco, d1: Disco, d2: Disco, datos: seq<byte>, c: nat, cantidad: nat, n: nat, ok: bool)
    requires n < cantidad && c + n in d1.clusters && IgualFuera(d, d1, c, cantidad) && Rellenos(t, d1, datos, c, n)
    requires SoloCambia(c + n, d1, d2)
    requires ok ==> c + n in d2.clusters && d2.clusters[c + n] == Relleno(datos, n, t.bpc)
    ensures IgualFuera(d, d2, c, cantidad) && (ok ==> Rellenos(t, d2, datos, c, n + 1))
  {
    hide Relleno;
  }

  lemma HasCluster(t: Trazado, d: Disco, c: nat)
    requires Formado(t, d) && 2 <= c < t.total + 2
    ensures c in d.clusters && |d.clusters[c]| == t.bpc
  {
  }

  lemma WholeWrite(viejo: seq<byte>, nuevo: seq<byte>, s: Suceso)
    requires |viejo| == |nuevo|
    ensures s.Bien? ==> Queda(viejo, nuevo, s) == nuevo
  {
  }

  lemma MapIsThere(t: Trazado, d: Disco)
    requires Trazable(t) && Formado(t, d)
    ensures t.mapa in d.clusters && |d.clusters[t.mapa]| == t.bpc && t.raiz in d.clusters && |d.clusters[t.raiz]| == t.bpc
  {
  }

  predicate SoloCambia(c: nat, d: Disco, e: Disco) {
    && e.clusters.Keys == d.clusters.Keys + {c} && e.principal == d.principal && e.respaldo == d.respaldo
    && forall k :: k in d.clusters && k != c ==> e.clusters[k] == d.clusters[k]
  }

  lemma OneClusterChanges(d: Disco, c: nat, buf: seq<byte>)
    ensures SoloCambia(c, d, ConCluster(d, c, buf))
  {
  }

  /** `n` clusters in a row, from `i`, are not marked. */
  predicate LibresDesde(t: Trazado, d: Disco, i: nat, n: nat) {
    forall k :: i <= k < i + n ==> !Marcado(t, d, k)
  }

  lemma BitsAreMarks(t: Trazado, d: Disco, e: Disco, inicio: nat, cantidad: nat, nuevo: seq<byte>)
    requires Trazable(t) && Formado(t, d) && t.mapa in e.clusters && e.clusters[t.mapa] == nuevo
    requires TramoLibre(d.clusters[t.mapa], inicio, cantidad)
    requires forall i :: 0 <= i < inicio ==> !TramoLibre(d.clusters[t.mapa], i, cantidad)
    requires forall b: nat :: Bit(nuevo, b) <==> Bit(d.clusters[t.mapa], b) || inicio <= b < inicio + cantidad
    ensures forall k: nat :: Marcado(t, e, k) <==> Marcado(t, d, k) || inicio + 2 <= k < inicio + 2 + cantidad
    ensures LibresDesde(t, d, inicio + 2, cantidad)
    ensures forall i :: 2 <= i < inicio + 2 ==> !LibresDesde(t, d, i, cantidad)
  {
    hide Bit;
    var m := d.clusters[t.mapa];
    forall k: nat ensures Marcado(t, e, k) <==> Marcado(t, d, k) || inicio + 2 <= k < inicio + 2 + cantidad {
      if k >= 2 {
        assert Bit(nuevo, k - 2) <==> Bit(m, k - 2) || inicio <= k - 2 < inicio + cantidad;
      }
    }
    forall i | 2 <= i < inicio + 2 ensures !LibresDesde(t, d, i, cantidad) {
      assert !TramoLibre(m, i - 2, cantidad);
      var j :| i - 2 <= j < i - 2 + cantidad && Bit(m, j);
      assert Marcado(t, d, j + 2);
    }
  }

  const EXFAT: seq<byte> := [69, 88, 70, 65, 84, 32, 32, 32]

  lemma StillFormed(t: Trazado, d: Disco, e: Disco)
    requires Formado(t, d) && Formado(t, e)
    ensures |e.principal| == |e.respaldo| == SECTOR
  {
  }

  /** Why a creation is refused before anything is written. */
  lemma RefusalTellsWhy(nombre: seq<byte>, habilitada: bool, existente: int)
    ensures var r := Rechazo(nombre, habilitada, existente);
            && (r == -1 <==> !NombreValido(nombre)) && (r == -6 <==> NombreValido(nombre) && !habilitada)
            && (r == -8 <==> NombreValido(nombre) && habilitada && existente > 0)
            && (r == -2 <==> NombreValido(nombre) && habilitada && existente < 0)
            && (r == 0 <==> NombreValido(nombre) && habilitada && existente == 0)
  {
  }
}
