/** Reading an ext4 file by position: the extent remembered between blocks, and when it may be
    trusted. */
module StreamExt4 {
  import opened Bytes
  import opened ArbolExt4
  import opened Trozos

  // ----- The remembered extent -----

  /** The test of the driver, whose sum is a 32-bit one. */
  predicate Cubre(e: Extent, b: nat): (r: bool)
    ensures r ==> e.bloque <= b
  {
    e.bloque <= b < (e.bloque + e.largo) % DOS32
  }

  /** The physical block the remembered extent gives, in 32 bits. */
  function Recordado(e: Extent, b: nat): nat
    requires e.bloque <= b
  {
    (e.fisico + (b - e.bloque)) % DOS32
  }

  /** The first extent of a leaf that passes the test, or the number of them. */
  function Primero(es: seq<Extent>, b: nat): (i: nat)
    ensures i <= |es| && (i < |es| ==> Cubre(es[i], b)) && forall k :: 0 <= k < i ==> !Cubre(es[k], b)
  {
    if es == [] then 0
    else if Cubre(es[0], b) then 0
    else
      var i := Primero(es[1..], b);
      assert forall k :: 0 < k < i + 1 ==> es[k] == es[1..][k - 1];
      i + 1
  }

  /** Extents that may be looked at: sized as extents are, and apart. */
  predicate Separados(es: seq<Extent>) {
    && (forall i :: 0 <= i < |es| ==> Aceptable(es[i]) && es[i].bloque <= TOPE32 && es[i].fisico <= TOPE32)
    && forall i, j :: 0 <= i < j < |es| ==> es[i].bloque + es[i].largo <= es[j].bloque || es[j].bloque + es[j].largo <= es[i].bloque
  }

  /** Remembering the extent of one block never gives another block a different answer. */
  ghost predicate Fiel(es: seq<Extent>) {
    forall b: nat, c: nat :: BuscarHoja(es, b).Fisico? && Primero(es, b) < |es| && Cubre(es[Primero(es, b)], c) ==>
      BuscarHoja(es, c) == Fisico(Recordado(es[Primero(es, b)], c))
  }

  /** An extent that cannot mislead: all its blocks have a nonzero 32-bit number, or none has; or its
      last block is the last of all, and it is never remembered. */
  predicate Inofensivo(e: Extent) {
    Numerable(e) || (e.fisico == 0 && e.largo == 1) || e.bloque + e.largo >= DOS32
  }

  lemma {:induction false} LeafFinds(es: seq<Extent>, i: nat, b: nat)
    requires Separados(es) && i < |es| && Contiene(es[i], b)
    ensures BuscarHoja(es, b) == var f := es[i].fisico + (b - es[i].bloque); if f > TOPE32 || f == 0 then Error(-3) else Fisico(f)
    decreases |es|
  {
    if i > 0 {
      assert Aceptable(es[0]);
      assert !Contiene(es[0], b);
      LeafFinds(es[1..], i - 1, b);
    } else {
      assert Aceptable(es[0]);
    }
  }

  lemma {:induction false} FoundIsThere(es: seq<Extent>, b: nat) returns (i: nat)
    requires BuscarHoja(es, b).Fisico?
    ensures i < |es| && Contiene(es[i], b)
  {
    if Contiene(es[0], b) {
      i := 0;
    } else {
      var j := FoundIsThere(es[1..], b);
      i := j + 1;
    }
  }

  lemma CoversIsContains(e: Extent, b: nat)
    requires e.bloque <= TOPE32 && e.largo < DOS16
    ensures Cubre(e, b) <==> Contiene(e, b) && e.bloque + e.largo < DOS32
  {
    if e.bloque + e.largo >= DOS32 {
      DivModUnique(e.bloque + e.largo, DOS32, 1, e.bloque + e.largo - DOS32);
    }
  }

  lemma RecordIs(e: Extent, b: nat)
    requires e.bloque <= b && e.fisico + (b - e.bloque) < DOS32
    ensures Recordado(e, b) == e.fisico + (b - e.bloque)
  {
  }

  // ----- When remembering is faithful: any leaf -----

  /** Extents as their fields allow them. */
  predicate DeDisco(es: seq<Extent>) {
    forall i :: 0 <= i < |es| ==> es[i].bloque <= TOPE32 && es[i].largo < DOS16 && es[i].fisico <= TOPE32
  }

  /** The extent the scan of the descent stops at for a block: the first that it rejects or that holds
      the block. */
  function Delante(es: seq<Extent>, b: nat): (i: nat)
    ensures i <= |es| && (i < |es| ==> !Aceptable(es[i]) || Contiene(es[i], b))
    ensures forall k :: 0 <= k < i ==> Aceptable(es[k]) && !Contiene(es[k], b)
  {
    if es == [] then 0
    else if !Aceptable(es[0]) || Contiene(es[0], b) then 0
    else
      var i := Delante(es[1..], b);
      assert forall k :: 0 < k < i + 1 ==> es[k] == es[1..][k - 1];
      i + 1
  }

  /** The extent is remembered after some block has been mapped. */
  ghost predicate Recordable(es: seq<Extent>, i: nat) {
    i < |es| && exists b: nat :: BuscarHoja(es, b).Fisico? && Primero(es, b) == i
  }

  /** All blocks of the extent have nonzero 32-bit numbers, and every extent the descent would stop at
      for one of them, itself included, is accepted and gives it the same number. */
  ghost predicate Acorde(es: seq<Extent>, i: nat)
    requires i < |es|
  {
    Numerable(es[i]) && forall c: nat :: Contiene(es[i], c) ==> MismosNumeros(es, Delante(es, c), i)
  }

  predicate MismosNumeros(es: seq<Extent>, j: nat, i: nat)
    requires i < |es|
  {
    j < |es| && Aceptable(es[j]) && es[j].fisico - es[j].bloque == es[i].fisico - es[i].bloque
  }

  lemma {:induction false} LeafAnswer(es: seq<Extent>, b: nat)
    ensures var i := Delante(es, b);
            BuscarHoja(es, b) ==
            if i == |es| || !Aceptable(es[i]) then Error(-3)
            else
              var f := es[i].fisico + (b - es[i].bloque);
              if f > TOPE32 || f == 0 then Error(-3) else Fisico(f)
    decreases |es|
  {
    if es != [] && Aceptable(es[0]) && !Contiene(es[0], b) {
      LeafAnswer(es[1..], b);
    }
  }

  lemma RememberedCovers(es: seq<Extent>, i: nat, c: nat)
    requires DeDisco(es) && Recordable(es, i)
    ensures Cubre(es[i], c) <==> Contiene(es[i], c)
    ensures es[i].largo > 0
  {
    hide Cubre, Contiene, Primero, BuscarHoja;
    var b: nat :| BuscarHoja(es, b).Fisico? && Primero(es, b) == i;
    CoversIsContains(es[i], b);
    CoversIsContains(es[i], c);
    assert Contiene(es[i], b) ==> es[i].largo > 0 by { SomeBlock(es[i], b); }
  }

  lemma SomeBlock(e: Extent, b: nat)
    ensures Contiene(e, b) ==> e.largo > 0
  {
  }

  lemma AgreesAtBlock(es: seq<Extent>, i: nat, c: nat)
    requires DeDisco(es) && i < |es| && Recordable(es, i) && Acorde(es, i) && Cubre(es[i], c)
    ensures BuscarHoja(es, c) == Fisico(Recordado(es[i], c))
  {
    hide Cubre, BuscarHoja, Primero, Recordable, Recordado, DeDisco;
    RememberedCovers(es, i, c);
    LeafAnswer(es, c);
    RecordIs(es[i], c);
  }

  lemma FaithfulIsAgreed(es: seq<Extent>, i: nat)
    requires DeDisco(es) && i < |es| && Recordable(es, i) && Fiel(es)
    ensures Acorde(es, i)
  {
    hide Cubre, BuscarHoja, Primero, Delante, Recordable, Aceptable, Fiel, Recordado;
    var e := es[i];
    forall c: nat | Contiene(e, c) ensures BuscarHoja(es, c) == Fisico(Recordado(e, c)) {
      FaithfulAtBlock(es, i, c);
    }
    RememberedCovers(es, i, e.bloque);
    LeafAnswer(es, e.bloque);
    FirstNumber(e);
    if e.fisico + e.largo > DOS32 {
      var c := e.bloque + (DOS32 - e.fisico);
      LeafAnswer(es, c);
      NumberRunsOut(e, c);
    }
    forall c: nat | Contiene(e, c) ensures MismosNumeros(es, Delante(es, c), i) {
      LeafAnswer(es, c);
      RecordIs(e, c);
    }
  }

  lemma FaithfulAtBlock(es: seq<Extent>, i: nat, c: nat)
    requires DeDisco(es) && Recordable(es, i) && Fiel(es) && Contiene(es[i], c)
    ensures BuscarHoja(es, c) == Fisico(Recordado(es[i], c))
  {
    hide Cubre, BuscarHoja, Primero, Contiene, Recordado;
    RememberedCovers(es, i, c);
    var b: nat :| BuscarHoja(es, b).Fisico? && Primero(es, b) == i;
  }

  lemma FirstNumber(e: Extent)
    requires e.fisico <= TOPE32
    ensures Recordado(e, e.bloque) == e.fisico
  {
  }

  lemma NumberRunsOut(e: Extent, c: nat)
    requires e.bloque <= c && e.fisico + (c - e.bloque) == DOS32
    ensures Recordado(e, c) == 0
  {
  }

  /** On any leaf, whatever its extents, remembering is faithful if and only if every extent that is
      ever remembered agrees with those the descent stops at. */
  lemma FaithfulIff(es: seq<Extent>)
    requires DeDisco(es)
    ensures Fiel(es) <==> forall i: nat :: Recordable(es, i) ==> Acorde(es, i)
  {
    hide Cubre, BuscarHoja, Primero, Recordado, Acorde, Delante;
    if Fiel(es) {
      forall i: nat | Recordable(es, i) ensures Acorde(es, i) {
        FaithfulIsAgreed(es, i);
      }
    }
    if forall i: nat :: Recordable(es, i) ==> Acorde(es, i) {
      forall b: nat, c: nat | BuscarHoja(es, b).Fisico? && Primero(es, b) < |es| && Cubre(es[Primero(es, b)], c)
        ensures BuscarHoja(es, c) == Fisico(Recordado(es[Primero(es, b)], c))
      {
        AgreesAtBlock(es, Primero(es, b), c);
      }
    }
  }

  /** The leaf of any inode is one of these. */
  lemma RootLeafFields(raiz: Nodo)
    ensures DeDisco(HojaRaiz(raiz))
  {
    hide ExtentEn, U16, U32;
  }

  // ----- And on a leaf without overlaps -----

  lemma HarmlessIsFaithful(es: seq<Extent>)
    requires Separados(es) && forall i :: 0 <= i < |es| ==> Inofensivo(es[i])
    ensures Fiel(es)
  {
    hide BuscarHoja, Primero, Recordado, Cubre;
    forall b: nat, c: nat | BuscarHoja(es, b).Fisico? && Primero(es, b) < |es| && Cubre(es[Primero(es, b)], c)
      ensures BuscarHoja(es, c) == Fisico(Recordado(es[Primero(es, b)], c))
    {
      var i := Primero(es, b);
      var e := es[i];
      CoversIsContains(e, b);
      CoversIsContains(e, c);
      LeafFinds(es, i, b);
      LeafFinds(es, i, c);
      RecordIs(e, c);
    }
  }

  lemma OwnBlockIsFirst(es: seq<Extent>, i: nat, b: nat)
    requires Separados(es) && i < |es| && Contiene(es[i], b) && es[i].bloque + es[i].largo < DOS32
    ensures Primero(es, b) == i
  {
    hide Cubre, Primero;
    CoversIsContains(es[i], b);
    var j := Primero(es, b);
    CoversIsContains(es[j], b);
  }

  lemma HarmfulIsUnfaithful(es: seq<Extent>, i: nat)
    requires Separados(es) && i < |es| && !Inofensivo(es[i])
    ensures !Fiel(es)
  {
    hide BuscarHoja, Primero, Recordado, Cubre, Fiel;
    var e := es[i];
    assert Aceptable(e);
    var b, c := if e.fisico == 0 then e.bloque + 1 else e.bloque, if e.fisico == 0 then e.bloque else e.bloque + e.largo - 1;
    LeafFinds(es, i, b);
    LeafFinds(es, i, c);
    OwnBlockIsFirst(es, i, b);
    CoversIsContains(e, c);
    NotFaithful(es, b, c);
  }

  lemma NotFaithful(es: seq<Extent>, b: nat, c: nat)
    requires BuscarHoja(es, b).Fisico? && Primero(es, b) < |es| && Cubre(es[Primero(es, b)], c) && BuscarHoja(es, c).Error?
    ensures !Fiel(es)
  {
    hide BuscarHoja, Primero, Cubre;
  }

  /** On a leaf whose extents do not overlap, remembering is faithful exactly when every extent is
      harmless. */
  lemma FaithfulIffHarmless(es: seq<Extent>)
    requires Separados(es)
    ensures Fiel(es) <==> forall i :: 0 <= i < |es| ==> Inofensivo(es[i])
  {
    hide Fiel, Inofensivo;
    if forall i :: 0 <= i < |es| ==> Inofensivo(es[i]) {
      HarmlessIsFaithful(es);
    } else {
      var i: nat :| i < |es| && !Inofensivo(es[i]);
      HarmfulIsUnfaithful(es, i);
    }
  }

  /** A well-formed leaf is faithful. */
  lemma FormedIsFaithful(es: seq<Extent>, lo: nat, hi: nat)
    requires HojaFormada(es, lo, hi) && forall i :: 0 <= i < |es| ==> es[i].bloque <= TOPE32
    ensures Fiel(es)
  {
    hide Fiel;
    FaithfulIffHarmless(es);
  }

  /** And extents that overlap can be unfaithful: the block the first of two says is at 51 is given as
      200 once the second is remembered. */
  lemma OverlapMisleads()
    ensures var es := [Extent(0, 2, 0, 50), Extent(1, 3, 0, 200)];
            && BuscarHoja(es, 1) == Fisico(51) && BuscarHoja(es, 2) == Fisico(201) && Primero(es, 2) == 1
            && Cubre(es[1], 1) && Recordado(es[1], 1) == 200 && !Fiel(es)
  {
    hide Fiel;
    var es := [Extent(0, 2, 0, 50), Extent(1, 3, 0, 200)];
    assert es[1..] == [Extent(1, 3, 0, 200)];
    assert BuscarHoja(es[1..], 2) == Fisico(201);
    assert Primero(es[1..], 2) == 0;
    Disagree(es, 2, 1);
  }

  lemma Disagree(es: seq<Extent>, b: nat, c: nat)
    requires BuscarHoja(es, b).Fisico? && Primero(es, b) < |es| && Cubre(es[Primero(es, b)], c)
    requires BuscarHoja(es, c) != Fisico(Recordado(es[Primero(es, b)], c))
    ensures !Fiel(es)
  {
    hide BuscarHoja, Primero, Cubre, Recordado;
  }

  // ----- The stream -----

  const SIN_BLOQUE: nat := 0xFFFF_FFFF

  datatype Trazado = Trazado(inicio: nat, sectoresBloque: nat)

  /** Where a logical block lies: the answer of the descent, when its sectors can be addressed. */
  function LugarDe(t: Trazado, d: Disco, raiz: Nodo, b: nat): (u: Lugar) {
    if b > TOPE32 then NoHay
    else
      match Descender(d, raiz, MAX_PROF + 1, b)
      case Error(_) => NoHay
      case Fisico(f) =>
        if t.inicio + f * t.sectoresBloque > TOPE32 then NoHay else Lugar(t.inicio + f * t.sectoresBloque)
  }

  /** The extents in the inode itself, when the tree is that one leaf. */
  function HojaRaiz(raiz: Nodo): seq<Extent> {
    if CabeceraBuena(raiz, MAX_PROF + 1) && Profundidad(raiz) == 0 then Hojas(raiz, Entradas(raiz)) else []
  }

  lemma RootLeafDescent(d: Disco, raiz: Nodo, b: nat)
    requires HojaRaiz(raiz) != []
    ensures Descender(d, raiz, MAX_PROF + 1, b) == BuscarHoja(HojaRaiz(raiz), b)
  {
    hide U16, U32, BuscarHoja, Hojas;
  }

  class Stream {
    const m: Medio
    const t: Trazado
    const d: Disco
    const raiz: Nodo
    const tamano: nat
    var posicion: nat
    var cache: seq<byte>
    var etiqueta: nat                 // 32 bits
    var valido: bool                  // an extent is remembered
    var extent: Extent
    ghost var enCache: int            // the block in the cache, or -1
    ghost var recordadoDe: nat        // the block whose extent is remembered

    /** The driver remembers extents only of trees that are one leaf. */
    ghost predicate Recuerdo()
      reads `valido, `extent, `recordadoDe
    {
      valido ==>
        && BuscarHoja(HojaRaiz(raiz), recordadoDe).Fisico?
        && Primero(HojaRaiz(raiz), recordadoDe) < |HojaRaiz(raiz)|
        && extent == HojaRaiz(raiz)[Primero(HojaRaiz(raiz), recordadoDe)]
    }

    ghost predicate Valid()
      reads this
    {
      && MedioValido(m) && |cache| == m.bpc && etiqueta < DOS32 && posicion <= tamano && Recuerdo()
      && (enCache < 0 ==> etiqueta == SIN_BLOQUE)
      && (Confiable() && enCache >= 0 ==>
            && etiqueta == enCache && LugarDe(t, d, raiz, enCache).Lugar?
            && cache == m.bloque(LugarDe(t, d, raiz, enCache).bloque))
    }

    /** Remembering is faithful, and the block whose number labels an empty cache cannot be asked for: the
        file ends before it, or it is a hole. */
    ghost predicate Confiable() {
      Fiel(HojaRaiz(raiz)) && (tamano <= SIN_BLOQUE * m.bpc || Descender(d, raiz, MAX_PROF + 1, SIN_BLOQUE).Error?)
    }

    function Bloque(p: nat): nat
      requires m.bpc > 0
    {
      p / m.bpc
    }

    ghost function Lugares(): nat -> Lugar {
      (b: nat) => LugarDe(t, d, raiz, b)
    }

    constructor (medio: Medio, tr: Trazado, disco: Disco, nodo: Nodo, n: nat, basura: seq<byte>)
      requires MedioValido(medio) && |basura| == medio.bpc
      ensures Valid() && posicion == 0 && m == medio && t == tr && d == disco && raiz == nodo && tamano == n && !valido
      ensures etiqueta == SIN_BLOQUE && cache == basura
    {
      m, t, d, raiz, tamano, posicion, cache, etiqueta := medio, tr, disco, nodo, n, 0, basura, SIN_BLOQUE;
      valido, extent, enCache, recordadoDe := false, Extent(0, 0, 0, 0), -1, 0;
    }

    /** Remembers the extent of a block just mapped, if the inode holds it. */
    method Recordar(b: nat)
      requires Recuerdo() && Descender(d, raiz, MAX_PROF + 1, b).Fisico?
      modifies `valido, `extent, `recordadoDe
      ensures Recuerdo()
      ensures var es, i := HojaRaiz(raiz), Primero(HojaRaiz(raiz), b);
              if i < |es| then valido && extent == es[i] && recordadoDe == b
              else valido == old(valido) && extent == old(extent) && recordadoDe == old(recordadoDe)
    {
      hide U16, U32, Hojas, BuscarHoja, Primero, Cubre, ExtentEn, Descender;
      if U16(raiz, 0) != MAGIA || Profundidad(raiz) != 0 {
        return;
      }
      MappedHeader(b);
      var es := HojaRaiz(raiz);
      var i := 0;
      while i < |es|
        invariant i <= |es| && forall k :: 0 <= k < i ==> !Cubre(es[k], b)
        invariant valido == old(valido) && extent == old(extent) && recordadoDe == old(recordadoDe)
      {
        if Cubre(es[i], b) {
          RootLeafDescent(d, raiz, b);
          extent, valido, recordadoDe := es[i], true, b;
          return;
        }
        i := i + 1;
      }
    }

    lemma MappedHeader(b: nat)
      requires Descender(d, raiz, MAX_PROF + 1, b).Fisico?
      ensures CabeceraBuena(raiz, MAX_PROF + 1)
    {
    }

    /** The physical block of a logical one: from the remembered extent, or by the descent. When
        remembering is faithful this is always what the descent says. */
    method Resolver(b: nat) returns (r: int, f: nat)
      requires Recuerdo() && b <= TOPE32
      modifies `valido, `extent, `recordadoDe
      ensures Recuerdo() && (r == 0 || r == -2)
      ensures !old(valido) || Fiel(HojaRaiz(raiz)) ==>
                (if r == 0 then Descender(d, raiz, MAX_PROF + 1, b) == Fisico(f)
                 else Descender(d, raiz, MAX_PROF + 1, b).Error?)
    {
      hide BuscarHoja, Primero, Cubre, Descender, HojaRaiz, Recordado;
      if valido && Cubre(extent, b) {
        RootLeafDescent(d, raiz, b);
        f := Recordado(extent, b);
        r := 0;
      } else {
        r, f := MapearBloque(d, raiz, b);
        if r != 0 {
          return -2, 0;
        }
        Recordar(b);
      }
    }

    /** One turn of the reading loop. */
    method LeerDelBloque(cantidad: nat) returns (r: int, trozo: seq<byte>)
      requires Valid() && 0 < cantidad <= tamano - posicion
      modifies `posicion, `cache, `etiqueta, `enCache, `valido, `extent, `recordadoDe
      ensures Valid() && (r == 0 || r == -2 || r == -6)
      ensures r == 0 ==> 0 < |trozo| <= cantidad && posicion == old(posicion) + |trozo|
      ensures r != 0 ==> posicion == old(posicion) && trozo == []
      ensures Confiable() ==> (r == 0 <==> Legible(m, Lugares(), old(posicion)))
      ensures Confiable() && r == 0 ==> EsTrozo(m, Lugares(), old(posicion), trozo)
      ensures r == 0 ==> old(posicion) % m.bpc + |trozo| <= m.bpc
                         && trozo == cache[old(posicion) % m.bpc..old(posicion) % m.bpc + |trozo|]
      ensures old(etiqueta) == Bloque(old(posicion)) ==> cache == old(cache)
      ensures !old(valido) && Descender(d, raiz, MAX_PROF + 1, Bloque(old(posicion))).Fisico? ==>
                old(etiqueta) == Bloque(old(posicion)) ==> r == 0
    {
      hide Descender, EsTrozo, Fiel, Recuerdo, HojaRaiz;
      var b, off := Bloque(posicion), posicion % m.bpc;
      WithinFile(b);
      trozo := [];
      if b > TOPE32 {
        return -6, trozo;
      }
      var f;
      r, f := Resolver(b);
      if r != 0 {
        return;
      }
      if etiqueta != b {
        if t.inicio + f * t.sectoresBloque > TOPE32 {
          return -6, trozo;
        }
        cache, etiqueta, enCache := m.bloque(t.inicio + f * t.sectoresBloque), b, b;
      }
      var n := Min(cantidad, m.bpc - off);
      trozo := cache[off..off + n];
      if Confiable() {
        ChunkIsSlice(m, Lugares(), posicion, n, b);
      }
      posicion := posicion + n;
    }

    lemma WithinFile(b: nat)
      requires MedioValido(m) && posicion < tamano && b == posicion / m.bpc
      ensures tamano <= SIN_BLOQUE * m.bpc ==> b < SIN_BLOQUE
    {
      if b >= SIN_BLOQUE {
        MulMonotone(SIN_BLOQUE, b, m.bpc);
      }
    }

    /** Reads up to `cantidad` bytes. In a file that can be trusted, what is read is the file's bytes as
        the extent tree places them, and reading stops only at the end or at a hole. */
    method Leer(cantidad: nat) returns (r: int, datos: seq<byte>)
      requires Valid()
      modifies `posicion, `cache, `etiqueta, `enCache, `valido, `extent, `recordadoDe
      ensures Valid() && posicion == old(posicion) + |datos| && |datos| <= Min(cantidad, tamano - old(posicion))
      ensures r == |datos| || (r < 0 && datos == [])
      ensures Confiable() ==> EsTrozo(m, Lugares(), old(posicion), datos)
      ensures Confiable() && |datos| < Min(cantidad, tamano - old(posicion)) ==> !Legible(m, Lugares(), posicion)
    {
      hide EsTrozo, Legible, Confiable, LugarDe, Recuerdo;
      datos := [];
      EmptySlice(m, Lugares(), posicion);
      var quedan: nat := Min(cantidad, tamano - posicion);
      while quedan > 0
        invariant Valid() && posicion == old(posicion) + |datos|
        invariant |datos| + quedan == Min(cantidad, tamano - old(posicion))
        invariant Confiable() ==> EsTrozo(m, Lugares(), old(posicion), datos)
      {
        var e, trozo := LeerDelBloque(quedan);
        if e != 0 {
          r := if datos == [] then e else |datos|;
          return;
        }
        if Confiable() {
          SlicesJoin(m, Lugares(), old(posicion), datos, trozo);
        }
        datos := datos + trozo;
        quedan := quedan - |trozo|;
      }
      r := |datos|;
    }

    method Situar(p: nat)
      requires Valid() && p <= tamano
      modifies `posicion
      ensures Valid() && posicion == p
    {
      posicion := p;
    }
  }

  /** The condition on the last block is needed. It is labelled as an empty cache is: the first read of
      it, when the descent finds it, gives what the buffer held before. */
  method LecturaRancia(medio: Medio, tr: Trazado, disco: Disco, nodo: Nodo, tamano: nat, basura: seq<byte>)
    returns (s: Stream, r: int, x: byte)
    requires MedioValido(medio) && |basura| == medio.bpc && tamano > SIN_BLOQUE * medio.bpc
    requires Descender(disco, nodo, MAX_PROF + 1, SIN_BLOQUE).Fisico?
    ensures !s.Confiable() && r == 0 && x == basura[0]
  {
    hide Descender, EsTrozo, Fiel, HojaRaiz;
    s := new Stream(medio, tr, disco, nodo, tamano, basura);
    s.Situar(SIN_BLOQUE * medio.bpc);
    DivModUnique(SIN_BLOQUE * medio.bpc, medio.bpc, SIN_BLOQUE, 0);
    var trozo;
    r, trozo := s.LeerDelBloque(1);
    x := trozo[0];
  }
}
