/** Extent tree nodes written out as bytes, as the ext4 disk layout tabulates them, and read back. */
module NodosExt4 {
  import opened Bytes
  import opened CorridasNtfs
  import opened Maquetas
  import A = ArbolExt4
  import S = StreamExt4
  import T = Trozos

  function CamposCabecera(entradas: nat, maximo: nat, profundidad: nat, generacion: nat): seq<Campo> {
    [Campo(0, 2, 0xf30a), Campo(2, 2, entradas), Campo(4, 2, maximo), Campo(6, 2, profundidad), Campo(8, 4, generacion)]
  }

  /** A leaf entry: logical block, length, and the physical block with its upper 16 bits apart. */
  function CamposExtent(e: A.Extent): seq<Campo> {
    [Campo(0, 4, e.bloque), Campo(4, 2, e.largo), Campo(6, 2, e.alto), Campo(8, 4, e.fisico)]
  }

  /** An index entry: logical block, and the child with its upper 16 bits apart. */
  function CamposIndice(x: A.Indice): seq<Campo> {
    [Campo(0, 4, x.bloque), Campo(4, 4, x.hijo), Campo(8, 2, x.alto), Campo(10, 2, 0)]
  }

  predicate CabeExtent(e: A.Extent) {
    e.bloque < DOS32 && e.largo < DOS16 && e.alto < DOS16 && e.fisico < DOS32
  }

  predicate CabeIndice(x: A.Indice) {
    x.bloque < DOS32 && x.hijo < DOS32 && x.alto < DOS16
  }

  function Juntar(ts: seq<seq<byte>>): seq<byte> {
    if ts == [] then [] else Juntar(ts[..|ts| - 1]) + ts[|ts| - 1]
  }

  lemma {:induction false} PieceIsThere(ts: seq<seq<byte>>, i: nat)
    requires i < |ts| && forall k :: 0 <= k < |ts| ==> |ts[k]| == 12
    ensures |Juntar(ts)| == 12 * |ts| && Juntar(ts)[12 * i..12 * i + 12] == ts[i]
    decreases |ts|
  {
    var u := |ts| - 1;
    if i < u {
      PieceIsThere(ts[..u], i);
    } else if u > 0 {
      PieceIsThere(ts[..u], 0);
    } else {
      assert ts[..u] == [];
    }
  }

  /** A node: its header, its entries, and whatever fills the rest of the block. */
  function Nodo(profundidad: nat, maximo: nat, generacion: nat, ts: seq<seq<byte>>, resto: seq<byte>): seq<byte> {
    Maqueta(CamposCabecera(|ts|, maximo, profundidad, generacion)) + Juntar(ts) + resto
  }

  predicate CabeCabecera(profundidad: nat, maximo: nat, generacion: nat, n: nat) {
    n < DOS16 && maximo < DOS16 && profundidad < DOS16 && generacion < DOS32
  }

  lemma HeaderInRow(n: nat, maximo: nat, profundidad: nat, generacion: nat)
    requires CabeCabecera(profundidad, maximo, generacion, n)
    ensures Seguidos(CamposCabecera(n, maximo, profundidad, generacion))
  {
    hide Pot256;
    Widths();
  }

  lemma ExtentInRow(e: A.Extent)
    requires CabeExtent(e)
    ensures Seguidos(CamposExtent(e)) && |Maqueta(CamposExtent(e))| == 12
  {
    hide Pot256;
    Widths();
    LayoutLength(CamposExtent(e));
  }

  lemma IndexInRow(x: A.Indice)
    requires CabeIndice(x)
    ensures Seguidos(CamposIndice(x)) && |Maqueta(CamposIndice(x))| == 12
  {
    hide Pot256;
    Widths();
    LayoutLength(CamposIndice(x));
  }

  lemma HeaderIsRead(profundidad: nat, maximo: nat, generacion: nat, ts: seq<seq<byte>>, resto: seq<byte>)
    requires CabeCabecera(profundidad, maximo, generacion, |ts|)
    ensures var n := Nodo(profundidad, maximo, generacion, ts, resto);
            && |n| >= 12 && n[12..] == Juntar(ts) + resto && U16(n, 0) == 0xf30a && A.Entradas(n) == |ts|
            && U16(n, 4) == maximo && A.Profundidad(n) == profundidad
  {
    hide Maqueta, Seguidos, Juntar;
    var cs := CamposCabecera(|ts|, maximo, profundidad, generacion);
    HeaderInRow(|ts|, maximo, profundidad, generacion);
    LayoutLength(cs);
    FieldIsRead(cs, 0);
    FieldIsRead(cs, 1);
    FieldIsRead(cs, 2);
    FieldIsRead(cs, 3);
  }

  /** The 12 bytes of entry `i` are where the reader looks for them. */
  lemma EntryPlace(profundidad: nat, maximo: nat, generacion: nat, ts: seq<seq<byte>>, resto: seq<byte>, i: nat)
    requires CabeCabecera(profundidad, maximo, generacion, |ts|)
    requires i < |ts| && forall k :: 0 <= k < |ts| ==> |ts[k]| == 12
    ensures var n := Nodo(profundidad, maximo, generacion, ts, resto);
            && |n| >= 12 + 12 * |ts| && A.Capacidad(n) >= |ts|
            && n[12 + 12 * i..12 + 12 * i + 12] == ts[i]
  {
    hide Maqueta, Juntar;
    PieceIsThere(ts, i);
    HeaderIsRead(profundidad, maximo, generacion, ts, resto);
    var n := Nodo(profundidad, maximo, generacion, ts, resto);
    assert n[12..][12 * i..12 * i + 12] == Juntar(ts)[12 * i..12 * i + 12];
  }

  lemma NumbersOfSlice(n: seq<byte>, p: nat, k: nat)
    requires p + 12 <= |n|
    ensures k + 2 <= 12 ==> U16(n[p..p + 12], k) == U16(n, p + k)
    ensures k + 4 <= 12 ==> U32(n[p..p + 12], k) == U32(n, p + k)
  {
  }

  function DeExtents(es: seq<A.Extent>): (ts: seq<seq<byte>>)
    ensures |ts| == |es|
  {
    seq(|es|, i requires 0 <= i < |es| => Maqueta(CamposExtent(es[i])))
  }

  function DeIndices(xs: seq<A.Indice>): (ts: seq<seq<byte>>)
    ensures |ts| == |xs|
  {
    seq(|xs|, i requires 0 <= i < |xs| => Maqueta(CamposIndice(xs[i])))
  }

  /** A leaf written with these extents is read as these extents. */
  lemma WrittenLeafIsRead(maximo: nat, generacion: nat, es: seq<A.Extent>, resto: seq<byte>)
    requires CabeCabecera(0, maximo, generacion, |es|) && forall i :: 0 <= i < |es| ==> CabeExtent(es[i])
    ensures var n := Nodo(0, maximo, generacion, DeExtents(es), resto);
            && |n| >= 12 && A.Entradas(n) == |es| <= A.Capacidad(n) && A.Profundidad(n) == 0
            && A.Hojas(n, |es|) == es
            && (A.CabeceraBuena(n, 1) <==> |es| <= maximo <= A.Capacidad(n))
  {
    hide Maqueta, Juntar, U16, U32, CabeExtent;
    var ts := DeExtents(es);
    var n := Nodo(0, maximo, generacion, ts, resto);
    LeafPieces(es);
    HeaderIsRead(0, maximo, generacion, ts, resto);
    if es != [] {
      EntryPlace(0, maximo, generacion, ts, resto, 0);
    }
    forall i: nat | i < |es| ensures |es| <= A.Capacidad(n) && A.ExtentEn(n, i) == es[i] {
      EntryPlace(0, maximo, generacion, ts, resto, i);
      ExtentIsRead(n, i, es[i]);
    }
  }

  lemma LeafPieces(es: seq<A.Extent>)
    requires forall i :: 0 <= i < |es| ==> CabeExtent(es[i])
    ensures forall i :: 0 <= i < |es| ==> |DeExtents(es)[i]| == 12
  {
    hide Maqueta, CabeExtent;
    forall i | 0 <= i < |es| ensures |DeExtents(es)[i]| == 12 {
      ExtentInRow(es[i]);
    }
  }

  lemma ExtentIsRead(n: A.Nodo, i: nat, e: A.Extent)
    requires i < A.Capacidad(n) && CabeExtent(e)
    requires n[12 + 12 * i..12 + 12 * i + 12] == Maqueta(CamposExtent(e))
    ensures A.ExtentEn(n, i) == e
  {
    hide Maqueta, U16, U32, Seguidos;
    var cs, p := CamposExtent(e), 12 + 12 * i;
    ExtentInRow(e);
    FieldIsRead(cs, 0);
    FieldIsRead(cs, 1);
    FieldIsRead(cs, 2);
    FieldIsRead(cs, 3);
    NumbersOfSlice(n, p, 0);
    NumbersOfSlice(n, p, 4);
    NumbersOfSlice(n, p, 6);
    NumbersOfSlice(n, p, 8);
  }

  /** A file whose extents fit in one node: each block is where its extent puts it, and blocks of no
      extent are nowhere. */
  lemma WrittenLeafIsFollowed(d: A.Disco, maximo: nat, generacion: nat, es: seq<A.Extent>, resto: seq<byte>, b: nat, i: nat)
    requires CabeCabecera(0, maximo, generacion, |es|) && forall k :: 0 <= k < |es| ==> CabeExtent(es[k])
    requires A.HojaFormada(es, 0, DOS32)
    requires |es| <= maximo && |resto| >= 12 * (maximo - |es|) && b < DOS32
    ensures var n := Nodo(0, maximo, generacion, DeExtents(es), resto);
            && |n| >= 12
            && (i < |es| && es[i].bloque <= b < es[i].bloque + es[i].largo ==>
                  A.Descender(d, n, 6, b) == A.Fisico(es[i].fisico + (b - es[i].bloque)))
            && ((forall k :: 0 <= k < |es| ==> !(es[k].bloque <= b < es[k].bloque + es[k].largo)) ==>
                  A.Descender(d, n, 6, b).Error?)
  {
    hide Maqueta, Juntar, U16, U32, CabeExtent;
    var n := Nodo(0, maximo, generacion, DeExtents(es), resto);
    WrittenLeafIsRead(maximo, generacion, es, resto);
    RoomForAll(maximo, generacion, es, resto);
    A.HeaderStillGood(n, 0, 6);
    if i < |es| && es[i].bloque <= b < es[i].bloque + es[i].largo {
      S.LeafFinds(es, i, b);
    }
    if forall k :: 0 <= k < |es| ==> !(es[k].bloque <= b < es[k].bloque + es[k].largo) {
      if A.BuscarHoja(es, b).Fisico? {
        var k := S.FoundIsThere(es, b);
      }
    }
  }

  lemma RoomForAll(maximo: nat, generacion: nat, es: seq<A.Extent>, resto: seq<byte>)
    requires CabeCabecera(0, maximo, generacion, |es|) && forall k :: 0 <= k < |es| ==> CabeExtent(es[k])
    requires |es| <= maximo && |resto| >= 12 * (maximo - |es|)
    ensures var n := Nodo(0, maximo, generacion, DeExtents(es), resto); |n| >= 12 && maximo <= A.Capacidad(n)
  {
    hide Maqueta, U16, U32, CabeExtent;
    var ts := DeExtents(es);
    LeafPieces(es);
    HeaderIsRead(0, maximo, generacion, ts, resto);
    if es != [] {
      PieceIsThere(ts, 0);
    }
    var n := Nodo(0, maximo, generacion, ts, resto);
    assert |n[12..]| == 12 * |es| + |resto|;
  }

  /** The first sector of an extent on the device. */
  function Sector0(t: S.Trazado, e: A.Extent): nat {
    t.inicio + e.fisico * t.sectoresBloque
  }

  lemma BlockPlace(t: S.Trazado, d: A.Disco, n: A.Nodo, e: A.Extent, k: nat)
    requires k < e.largo && e.bloque + e.largo <= DOS32 && t.sectoresBloque >= 1
    requires t.inicio + (e.fisico + e.largo) * t.sectoresBloque <= DOS32
    requires A.Descender(d, n, 6, e.bloque + k) == A.Fisico(e.fisico + k)
    ensures S.LugarDe(t, d, n, e.bloque + k) == T.Lugar(Sector0(t, e) + k * t.sectoresBloque)
  {
    hide A.Descender;
    var f := e.fisico + k;
    assert (f + 1) * t.sectoresBloque == f * t.sectoresBloque + t.sectoresBloque;
    MulMonotone(f + 1, e.fisico + e.largo, t.sectoresBloque);
    assert f * t.sectoresBloque == e.fisico * t.sectoresBloque + k * t.sectoresBloque;
  }

  /** Each extent of such a file is a run of bytes of the device, from the first sector of its first
      block on. */
  lemma WrittenFileOnDisk(m: T.Medio, disco: seq<byte>, t: S.Trazado, d: A.Disco, maximo: nat, generacion: nat,
                          es: seq<A.Extent>, resto: seq<byte>, lugar: nat -> T.Lugar, i: nat, p: nat)
    requires CabeCabecera(0, maximo, generacion, |es|) && forall k :: 0 <= k < |es| ==> CabeExtent(es[k])
    requires A.HojaFormada(es, 0, DOS32) && |es| <= maximo && |resto| >= 12 * (maximo - |es|)
    requires |Nodo(0, maximo, generacion, DeExtents(es), resto)| >= 12
    requires forall b: nat :: lugar(b) == S.LugarDe(t, d, Nodo(0, maximo, generacion, DeExtents(es), resto), b)
    requires T.MedioValido(m) && T.SobreDisco(m, disco) && m.bpc == SECTOR * t.sectoresBloque && t.sectoresBloque >= 1
    requires i < |es| && es[i].bloque * m.bpc <= p < (es[i].bloque + es[i].largo) * m.bpc
    requires t.inicio + (es[i].fisico + es[i].largo) * t.sectoresBloque <= DOS32
    requires Sector0(t, es[i]) * 512 + es[i].largo * m.bpc <= |disco|
    ensures T.Legible(m, lugar, p)
    ensures T.ByteDe(m, lugar, p) == disco[Sector0(t, es[i]) * 512 + (p - es[i].bloque * m.bpc)]
  {
    hide Maqueta, Juntar, U16, U32, CabeExtent, A.Descender, S.LugarDe, Sector0, T.Legible, T.ByteDe, T.SobreDisco, Nodo;
    var e, b := es[i], p / m.bpc;
    T.PositionInRun(e.bloque, e.largo, m.bpc, p);
    ExtentInRange(es, i);
    WrittenLeafIsFollowed(d, maximo, generacion, es, resto, b, i);
    BlockPlace(t, d, Nodo(0, maximo, generacion, DeExtents(es), resto), e, b - e.bloque);
    T.RunOfBytes(m, disco, lugar, t.sectoresBloque, e.bloque, Sector0(t, e), p);
  }

  lemma ExtentInRange(es: seq<A.Extent>, i: nat)
    requires A.HojaFormada(es, 0, DOS32) && i < |es|
    ensures es[i].bloque + es[i].largo <= DOS32
  {
  }

  /** An index node written with these entries is read as these entries. */
  lemma WrittenIndexIsRead(profundidad: nat, maximo: nat, generacion: nat, xs: seq<A.Indice>, resto: seq<byte>, i: nat)
    requires CabeCabecera(profundidad, maximo, generacion, |xs|) && forall k :: 0 <= k < |xs| ==> CabeIndice(xs[k])
    requires i < |xs|
    ensures var n := Nodo(profundidad, maximo, generacion, DeIndices(xs), resto);
            && |n| >= 12 && A.Entradas(n) == |xs| <= A.Capacidad(n) && A.Profundidad(n) == profundidad
            && A.IndiceEn(n, i) == xs[i]
  {
    hide Maqueta, Juntar, U16, U32, CabeIndice;
    var ts := DeIndices(xs);
    var n := Nodo(profundidad, maximo, generacion, ts, resto);
    forall k | 0 <= k < |xs| ensures |ts[k]| == 12 {
      IndexInRow(xs[k]);
    }
    HeaderIsRead(profundidad, maximo, generacion, ts, resto);
    EntryPlace(profundidad, maximo, generacion, ts, resto, i);
    IndexIsRead(n, i, xs[i]);
  }

  lemma IndexIsRead(n: A.Nodo, i: nat, x: A.Indice)
    requires i < A.Capacidad(n) && CabeIndice(x)
    requires n[12 + 12 * i..12 + 12 * i + 12] == Maqueta(CamposIndice(x))
    ensures A.IndiceEn(n, i) == x
  {
    hide Maqueta, U16, U32, Seguidos;
    var cs, p := CamposIndice(x), 12 + 12 * i;
    IndexInRow(x);
    FieldIsRead(cs, 0);
    FieldIsRead(cs, 1);
    FieldIsRead(cs, 2);
    NumbersOfSlice(n, p, 0);
    NumbersOfSlice(n, p, 4);
    NumbersOfSlice(n, p, 8);
  }
}
