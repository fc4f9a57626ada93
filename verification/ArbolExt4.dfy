/** The ext4 extent tree: the bounded descent to the extent of a logical block, against a lookup in
    the list of all the extents of the tree. */
module ArbolExt4 {
  import opened Bytes

  const MAGIA: nat := 0xF30A
  const CABECERA: nat := 12
  const ENTRADA: nat := 12
  const TOPE32: nat := 0xFFFF_FFFF
  const MAX_PROF: nat := 5

  // ----- Nodes, as bytes -----

  type Nodo = n: seq<byte> | |n| >= CABECERA witness seq(CABECERA, i => 0)

  function Capacidad(n: Nodo): nat { (|n| - CABECERA) / ENTRADA }

  function Entradas(n: Nodo): nat { U16(n, 2) }

  function Profundidad(n: Nodo): nat { U16(n, 6) }

  /** What the descent asks of a node before it looks inside. */
  predicate CabeceraBuena(n: Nodo, anterior: nat) {
    && U16(n, 0) == MAGIA && Profundidad(n) < anterior && Profundidad(n) <= MAX_PROF
    && Entradas(n) <= U16(n, 4) && U16(n, 4) <= Capacidad(n)
  }

  datatype Extent = Extent(bloque: nat, largo: nat, alto: nat, fisico: nat)

  datatype Indice = Indice(bloque: nat, hijo: nat, alto: nat)

  function ExtentEn(n: Nodo, i: nat): (e: Extent)
    requires i < Capacidad(n)
    ensures e.bloque <= TOPE32 && e.largo < DOS16 && e.alto < DOS16 && e.fisico <= TOPE32
  {
    var p := CABECERA + ENTRADA * i;
    Extent(U32(n, p), U16(n, p + 4), U16(n, p + 6), U32(n, p + 8))
  }

  function IndiceEn(n: Nodo, i: nat): (x: Indice)
    requires i < Capacidad(n)
    ensures x.bloque <= TOPE32 && x.hijo <= TOPE32
  {
    var p := CABECERA + ENTRADA * i;
    Indice(U32(n, p), U32(n, p + 4), U16(n, p + 8))
  }

  function Hojas(n: Nodo, k: nat): (es: seq<Extent>)
    requires k <= Capacidad(n)
    ensures |es| == k && forall i :: 0 <= i < k ==> es[i] == ExtentEn(n, i)
  {
    seq(k, i requires 0 <= i < k => ExtentEn(n, i))
  }

  // ----- The search -----

  datatype Mapa = Error(codigo: int) | Fisico(bloque: nat)

  predicate Contiene(e: Extent, b: nat) {
    e.bloque <= b < e.bloque + e.largo
  }

  predicate Aceptable(e: Extent) {
    0 < e.largo <= 32768 && e.alto == 0
  }

  /** The scan of a leaf: extents before the one found are checked, those after are not. */
  function BuscarHoja(es: seq<Extent>, b: nat): (m: Mapa) {
    if es == [] then Error(-3)
    else if !Aceptable(es[0]) then Error(-3)
    else if Contiene(es[0], b) then
      var f := es[0].fisico + (b - es[0].bloque);
      if f > TOPE32 || f == 0 then Error(-3) else Fisico(f)
    else BuscarHoja(es[1..], b)
  }

  /** The scan of an index node: the last entry before one that starts past the block. */
  datatype Paso = Corta | Baja(hijo: nat)

  function BuscarIndice(n: Nodo, b: nat, k: nat, hoja: nat): (p: Paso)
    requires k <= Entradas(n) <= Capacidad(n)
    decreases Entradas(n) - k
  {
    if k == Entradas(n) || IndiceEn(n, k).bloque > b then Baja(hoja)
    else if IndiceEn(n, k).alto != 0 then Corta
    else BuscarIndice(n, b, k + 1, IndiceEn(n, k).hijo)
  }

  /** A disk block, unless it cannot be read. */
  type Disco = nat -> Lectura
  datatype Lectura = Falla | Leido(nodo: Nodo)

  function Descender(d: Disco, n: Nodo, anterior: nat, b: nat): (m: Mapa)
    decreases anterior
  {
    if !CabeceraBuena(n, anterior) then Error(-2)
    else if Profundidad(n) == 0 then BuscarHoja(Hojas(n, Entradas(n)), b)
    else
      match BuscarIndice(n, b, 0, 0)
      case Corta => Error(-4)
      case Baja(h) =>
        if h == 0 then Error(-4)
        else
          match d(h)
          case Falla => Error(-4)
          case Leido(hijo) => Descender(d, hijo, Profundidad(n), b)
  }

  /** The descent as the driver makes it: one node at a time, in a buffer. It ends on any tree, since
      the depth must fall. */
  method MapearBloque(d: Disco, raiz: Nodo, b: nat) returns (r: int, f: nat)
    requires b <= TOPE32
    ensures r <= 0 && Descender(d, raiz, MAX_PROF + 1, b) == if r == 0 then Fisico(f) else Error(r)
  {
    hide BuscarHoja, BuscarIndice, Hojas, ExtentEn, IndiceEn, U16, U32;
    var n: Nodo, anterior: nat := raiz, MAX_PROF + 1;
    while true
      invariant Descender(d, raiz, MAX_PROF + 1, b) == Descender(d, n, anterior, b)
      decreases anterior
    {
      if !CabeceraBuena(n, anterior) {
        return -2, 0;
      }
      if Profundidad(n) == 0 {
        r, f := RecorrerHoja(n, b);
        return;
      }
      var corta, h := RecorrerIndices(n, b);
      if corta || h == 0 || d(h).Falla? {
        return -4, 0;
      }
      anterior := Profundidad(n);
      n := d(h).nodo;
    }
  }

  method RecorrerHoja(n: Nodo, b: nat) returns (r: int, f: nat)
    requires Entradas(n) <= Capacidad(n)
    ensures (r == 0 || r == -3) && BuscarHoja(Hojas(n, Entradas(n)), b) == if r == 0 then Fisico(f) else Error(r)
  {
    hide ExtentEn, U16, Aceptable, Hojas;
    var es := Hojas(n, Entradas(n));
    assert es[0..] == es;
    var i := 0;
    f := 0;
    while i < Entradas(n)
      invariant i <= Entradas(n) && BuscarHoja(es, b) == BuscarHoja(es[i..], b)
    {
      var e := ExtentEn(n, i);
      assert es[i..][0] == e && es[i..][1..] == es[i + 1..];
      if !Aceptable(e) {
        return -3, 0;
      }
      if b >= e.bloque && b - e.bloque < e.largo {
        f := e.fisico + (b - e.bloque);
        r := if f > TOPE32 || f == 0 then -3 else 0;
        return;
      }
      i := i + 1;
    }
    r := -3;
  }

  method RecorrerIndices(n: Nodo, b: nat) returns (corta: bool, hoja: nat)
    requires Entradas(n) <= Capacidad(n)
    ensures BuscarIndice(n, b, 0, 0) == if corta then Corta else Baja(hoja)
  {
    hide IndiceEn, U16;
    hoja := 0;
    var i := 0;
    while i < Entradas(n)
      invariant i <= Entradas(n) && BuscarIndice(n, b, 0, 0) == BuscarIndice(n, b, i, hoja)
    {
      var x := IndiceEn(n, i);
      if x.bloque > b {
        break;
      }
      if x.alto != 0 {
        return true, 0;
      }
      hoja := x.hijo;
      i := i + 1;
    }
    corta := false;
  }

  // ----- Well-formed trees -----

  predicate Numerable(e: Extent) {
    1 <= e.fisico && e.fisico + e.largo <= DOS32
  }

  /** Extents in order, apart, inside a range, each of them a run of blocks that 32 bits can name. */
  predicate HojaFormada(es: seq<Extent>, lo: nat, hi: nat) {
    && (forall i :: 0 <= i < |es| ==> Aceptable(es[i]) && Numerable(es[i]) && lo <= es[i].bloque && es[i].bloque + es[i].largo <= hi)
    && forall i, j :: 0 <= i < j < |es| ==> es[i].bloque + es[i].largo <= es[j].bloque
  }

  function Hasta(n: Nodo, i: nat, hi: nat): nat
    requires i < Entradas(n) <= Capacidad(n)
  {
    if i + 1 < Entradas(n) then IndiceEn(n, i + 1).bloque else hi
  }

  predicate Ordenados(n: Nodo)
    requires Entradas(n) <= Capacidad(n)
  {
    forall i, j :: 0 <= i < j < Entradas(n) ==> IndiceEn(n, i).bloque < IndiceEn(n, j).bloque
  }

  predicate Dentro(n: Nodo, lo: nat, hi: nat)
    requires Entradas(n) <= Capacidad(n)
  {
    forall i :: 0 <= i < Entradas(n) ==> lo <= IndiceEn(n, i).bloque && Hasta(n, i, hi) <= hi
  }

  /** A tree for the blocks of a range: children for consecutive ranges, one level lower. */
  ghost predicate Formado(d: Disco, n: Nodo, prof: nat, lo: nat, hi: nat)
    decreases prof
  {
    && CabeceraBuena(n, prof + 1) && Profundidad(n) == prof
    && if prof == 0 then HojaFormada(Hojas(n, Entradas(n)), lo, hi)
       else
         && Ordenados(n) && Dentro(n, lo, hi)
         && forall i :: 0 <= i < Entradas(n) ==>
              && IndiceEn(n, i).alto == 0 && IndiceEn(n, i).hijo != 0 && d(IndiceEn(n, i).hijo).Leido?
              && Formado(d, d(IndiceEn(n, i).hijo).nodo, prof - 1, IndiceEn(n, i).bloque, Hasta(n, i, hi))
  }

  /** All the extents of a tree, in order. */
  ghost function Aplanar(d: Disco, n: Nodo, prof: nat): seq<Extent>
    decreases prof, 0, 0
  {
    if Entradas(n) > Capacidad(n) then []
    else if prof == 0 then Hojas(n, Entradas(n))
    else AplanarHijos(d, n, prof, Entradas(n))
  }

  ghost function AplanarHijos(d: Disco, n: Nodo, prof: nat, k: nat): seq<Extent>
    requires prof > 0 && k <= Entradas(n) <= Capacidad(n)
    decreases prof - 1, 1, k
  {
    if k == 0 then []
    else
      AplanarHijos(d, n, prof, k - 1)
      + (if d(IndiceEn(n, k - 1).hijo).Leido? then Aplanar(d, d(IndiceEn(n, k - 1).hijo).nodo, prof - 1) else [])
  }

  datatype Consulta = Hueco | En(fisico: nat)

  /** The physical block of the first extent of a list that holds a logical one. */
  function Consultar(es: seq<Extent>, b: nat): (c: Consulta) {
    if es == [] then Hueco
    else if Contiene(es[0], b) then En(es[0].fisico + (b - es[0].bloque))
    else Consultar(es[1..], b)
  }

  lemma {:induction false} LookupAppend(a: seq<Extent>, c: seq<Extent>, b: nat)
    ensures Consultar(a + c, b) == if Consultar(a, b).En? then Consultar(a, b) else Consultar(c, b)
  {
    if a == [] {
      assert a + c == c;
    } else {
      assert (a + c)[1..] == a[1..] + c;
      LookupAppend(a[1..], c, b);
    }
  }

  lemma {:induction false} LookupOutside(es: seq<Extent>, lo: nat, hi: nat, b: nat)
    requires HojaFormada(es, lo, hi) && !(lo <= b < hi)
    ensures Consultar(es, b) == Hueco
  {
    if es != [] {
      LookupOutside(es[1..], lo, hi, b);
    }
  }

  /** On a well-formed leaf the checked scan and the plain lookup agree. */
  lemma {:induction false} LeafAgrees(es: seq<Extent>, lo: nat, hi: nat, b: nat)
    requires HojaFormada(es, lo, hi)
    ensures BuscarHoja(es, b) == match Consultar(es, b) case Hueco => Error(-3) case En(f) => Fisico(f)
  {
    if es != [] {
      assert Aceptable(es[0]) && Numerable(es[0]);
      if !Contiene(es[0], b) {
        LeafAgrees(es[1..], lo, hi, b);
      }
    }
  }

  ghost function SubArbol(d: Disco, n: Nodo, prof: nat, i: nat): seq<Extent>
    requires prof > 0 && i < Entradas(n) <= Capacidad(n)
    decreases prof - 1, 1, 0
  {
    if d(IndiceEn(n, i).hijo).Leido? then Aplanar(d, d(IndiceEn(n, i).hijo).nodo, prof - 1) else []
  }

  lemma ChildIsFormed(d: Disco, n: Nodo, prof: nat, lo: nat, hi: nat, i: nat)
    requires prof > 0 && Formado(d, n, prof, lo, hi) && i < Entradas(n)
    ensures Entradas(n) <= Capacidad(n) && d(IndiceEn(n, i).hijo).Leido? && IndiceEn(n, i).hijo != 0
    ensures IndiceEn(n, i).alto == 0
    ensures Formado(d, d(IndiceEn(n, i).hijo).nodo, prof - 1, IndiceEn(n, i).bloque, Hasta(n, i, hi))
    ensures SubArbol(d, n, prof, i) == Aplanar(d, d(IndiceEn(n, i).hijo).nodo, prof - 1)
  {
    hide IndiceEn, U16, Aplanar, HojaFormada, Ordenados, Dentro, Hasta;
  }

  lemma LeafIsFormed(d: Disco, n: Nodo, lo: nat, hi: nat)
    requires Formado(d, n, 0, lo, hi)
    ensures Entradas(n) <= Capacidad(n) && HojaFormada(Hojas(n, Entradas(n)), lo, hi)
    ensures CabeceraBuena(n, 1) && Profundidad(n) == 0
  {
  }

  lemma IndexIsFormed(d: Disco, n: Nodo, prof: nat, lo: nat, hi: nat)
    requires prof > 0 && Formado(d, n, prof, lo, hi)
    ensures Entradas(n) <= Capacidad(n) && Ordenados(n) && Dentro(n, lo, hi)
    ensures forall i :: 0 <= i < Entradas(n) ==> IndiceEn(n, i).alto == 0
    ensures CabeceraBuena(n, prof + 1) && Profundidad(n) == prof
  {
    hide IndiceEn, U16, HojaFormada, Ordenados, Dentro, Hasta;
  }

  lemma IndexOrder(n: Nodo, hi: nat, i: nat, j: nat)
    requires i < j < Entradas(n) <= Capacidad(n) && Ordenados(n)
    ensures Hasta(n, i, hi) <= IndiceEn(n, j).bloque
  {
    hide IndiceEn, U16;
  }

  /** Nothing in a tree lies outside its range. */
  lemma {:induction false} NothingOutside(d: Disco, n: Nodo, prof: nat, lo: nat, hi: nat, b: nat)
    requires Formado(d, n, prof, lo, hi) && !(lo <= b < hi)
    ensures Consultar(Aplanar(d, n, prof), b) == Hueco
    decreases prof, 0
  {
    hide IndiceEn, U16, Consultar, Hojas, HojaFormada, Formado;
    if prof == 0 {
      LeafIsFormed(d, n, lo, hi);
      LookupOutside(Hojas(n, Entradas(n)), lo, hi, b);
    } else {
      IndexIsFormed(d, n, prof, lo, hi);
      NothingInChildren(d, n, prof, lo, hi, b, Entradas(n));
    }
  }

  lemma {:induction false} NothingInChildren(d: Disco, n: Nodo, prof: nat, lo: nat, hi: nat, b: nat, k: nat)
    requires prof > 0 && Formado(d, n, prof, lo, hi) && k <= Entradas(n) <= Capacidad(n)
    requires forall i :: 0 <= i < k ==> !(IndiceEn(n, i).bloque <= b < Hasta(n, i, hi))
    ensures Consultar(AplanarHijos(d, n, prof, k), b) == Hueco
    decreases prof - 1, 1, k
  {
    hide IndiceEn, U16, Consultar, Formado;
    if k == 0 {
      NothingInNothing(b);
    } else {
      NothingInChildren(d, n, prof, lo, hi, b, k - 1);
      ChildIsFormed(d, n, prof, lo, hi, k - 1);
      NothingOutside(d, d(IndiceEn(n, k - 1).hijo).nodo, prof - 1, IndiceEn(n, k - 1).bloque, Hasta(n, k - 1, hi), b);
      LookupAppend(AplanarHijos(d, n, prof, k - 1), SubArbol(d, n, prof, k - 1), b);
    }
  }

  lemma NothingInNothing(b: nat)
    ensures Consultar([], b) == Hueco
  {
  }

  /** Only the child whose range holds the block can say anything about it. */
  lemma {:induction false} OneChildAnswers(d: Disco, n: Nodo, prof: nat, lo: nat, hi: nat, b: nat, i: nat, k: nat)
    requires prof > 0 && Formado(d, n, prof, lo, hi) && i < k <= Entradas(n) <= Capacidad(n)
    requires IndiceEn(n, i).bloque <= b && (i + 1 < Entradas(n) ==> b < IndiceEn(n, i + 1).bloque)
    ensures Consultar(AplanarHijos(d, n, prof, k), b) == Consultar(SubArbol(d, n, prof, i), b)
    decreases k
  {
    hide IndiceEn, U16, Consultar, Formado, Ordenados, Dentro;
    LookupAppend(AplanarHijos(d, n, prof, k - 1), SubArbol(d, n, prof, k - 1), b);
    IndexIsFormed(d, n, prof, lo, hi);
    if k == i + 1 {
      hide Hasta;
      forall j | 0 <= j < i ensures !(IndiceEn(n, j).bloque <= b < Hasta(n, j, hi)) {
        IndexOrder(n, hi, j, i);
      }
      NothingInChildren(d, n, prof, lo, hi, b, i);
    } else {
      OneChildAnswers(d, n, prof, lo, hi, b, i, k - 1);
      IndexOrder(n, hi, i, k - 1);
      NothingInLaterChild(d, n, prof, lo, hi, b, k - 1);
    }
  }

  lemma NothingInLaterChild(d: Disco, n: Nodo, prof: nat, lo: nat, hi: nat, b: nat, j: nat)
    requires prof > 0 && Formado(d, n, prof, lo, hi) && j < Entradas(n) <= Capacidad(n)
    requires b < IndiceEn(n, j).bloque
    ensures Consultar(SubArbol(d, n, prof, j), b) == Hueco
  {
    hide IndiceEn, U16, Consultar, Formado;
    ChildIsFormed(d, n, prof, lo, hi, j);
    NothingOutside(d, d(IndiceEn(n, j).hijo).nodo, prof - 1, IndiceEn(n, j).bloque, Hasta(n, j, hi), b);
  }

  lemma {:induction false} ScanFindsChild(n: Nodo, b: nat, i: nat, k: nat, hoja: nat)
    requires i < Entradas(n) <= Capacidad(n) && k <= i + 1 && Ordenados(n)
    requires forall j :: 0 <= j < Entradas(n) ==> IndiceEn(n, j).alto == 0
    requires IndiceEn(n, i).bloque <= b && (i + 1 < Entradas(n) ==> b < IndiceEn(n, i + 1).bloque)
    ensures BuscarIndice(n, b, k, hoja) == Baja(if k <= i then IndiceEn(n, i).hijo else hoja)
    decreases i + 1 - k
  {
    hide IndiceEn, U16;
    if k <= i {
      ScanFindsChild(n, b, i, k + 1, IndiceEn(n, k).hijo);
    }
  }

  /** The last index entry that starts at or before a block, if any does. */
  function Ultimo(n: Nodo, b: nat, k: nat): (i: int)
    requires k <= Entradas(n) <= Capacidad(n)
    ensures -1 <= i < k
    ensures i >= 0 ==> IndiceEn(n, i).bloque <= b
    ensures forall j :: i < j < k ==> IndiceEn(n, j).bloque > b
  {
    if k == 0 then -1 else if IndiceEn(n, k - 1).bloque <= b then k - 1 else Ultimo(n, b, k - 1)
  }

  /** On every well-formed tree the descent answers what a lookup in the list of all its extents
      answers, and fails exactly on holes. */
  lemma {:induction false} DescentIsLookup(d: Disco, n: Nodo, prof: nat, lo: nat, hi: nat, b: nat, anterior: nat)
    requires Formado(d, n, prof, lo, hi) && prof < anterior
    ensures Consultar(Aplanar(d, n, prof), b) == match Descender(d, n, anterior, b) case Error(_) => Hueco case Fisico(f) => En(f)
    decreases prof
  {
    hide IndiceEn, U16, Consultar, Hojas, HojaFormada, BuscarHoja, BuscarIndice, Formado, CabeceraBuena, Ordenados, Dentro,
         Profundidad;
    if prof == 0 {
      LeafIsFormed(d, n, lo, hi);
      HeaderStillGood(n, prof, anterior);
      LeafAgrees(Hojas(n, Entradas(n)), lo, hi, b);
    } else {
      IndexIsFormed(d, n, prof, lo, hi);
      HeaderStillGood(n, prof, anterior);
      var i := Ultimo(n, b, Entradas(n));
      if i >= 0 {
        ScanFindsChild(n, b, i, 0, 0);
        OneChildAnswers(d, n, prof, lo, hi, b, i, Entradas(n));
        ChildIsFormed(d, n, prof, lo, hi, i);
        DescentIsLookup(d, d(IndiceEn(n, i).hijo).nodo, prof - 1, IndiceEn(n, i).bloque, Hasta(n, i, hi), b, prof);
      } else {
        NothingInChildren(d, n, prof, lo, hi, b, Entradas(n));
        ScanFindsNone(n, b);
      }
    }
  }

  lemma HeaderStillGood(n: Nodo, prof: nat, anterior: nat)
    requires CabeceraBuena(n, prof + 1) && prof < anterior
    ensures CabeceraBuena(n, anterior) && Entradas(n) <= Capacidad(n)
  {
  }

  lemma ScanFindsNone(n: Nodo, b: nat)
    requires Entradas(n) <= Capacidad(n) && forall j :: 0 <= j < Entradas(n) ==> IndiceEn(n, j).bloque > b
    ensures BuscarIndice(n, b, 0, 0) == Baja(0)
  {
  }
}
