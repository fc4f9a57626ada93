/** Mapping, unmapping and translating 4 KiB pages in the kernel's tables, whose frames come from
    the frame allocator. */
module Paginacion {
  import opened Bytes
  import opened Marcos
  import opened Tablas
  import opened Permisos

  /** Two memories translate every page alike. */
  ghost predicate MismaTraduccion(t: Memoria, u: Memoria, raiz: nat) {
    forall q: nat :: Caminar(u, raiz, 4, q) == Caminar(t, raiz, 4, q)
  }

  /** They translate every page alike but one, which in the second translates to `h`. */
  ghost predicate UnaPagina(t: Memoria, u: Memoria, raiz: nat, p: nat, h: Hoja) {
    forall q: nat :: Caminar(u, raiz, 4, q) ==
      if q % PAGINAS_VIRTUALES == p % PAGINAS_VIRTUALES then h else Caminar(t, raiz, 4, q)
  }

  /** The translation a mapping asks for: the page of the address, with the flags and the present bit. */
  function PaginaDe(fisica: nat, banderas: bv64): Hoja {
    Final(Palabra(fisica / PAGINA * PAGINA, banderas | PRESENTE), 1)
  }

  /** The frames taken from the allocator are exactly the new tables. */
  ghost predicate SinFugas(t: Memoria, a: set<nat>, u: Memoria, b: set<nat>) {
    t.Keys <= u.Keys && a <= b && u.Keys - t.Keys == b - a
  }

  lemma NoLeakThen(t: Memoria, a: set<nat>, u: Memoria, b: set<nat>, v: Memoria, c: set<nat>)
    requires SinFugas(t, a, u, b) && SinFugas(u, b, v, c)
    ensures SinFugas(t, a, v, c)
  {
    assert v.Keys - t.Keys == (v.Keys - u.Keys) + (u.Keys - t.Keys);
    assert c - a == (c - b) + (b - a);
  }

  /** Where the flags are the user's, the way grants as before; otherwise at least what is written. */
  ghost predicate MismoCamino(t: Memoria, u: Memoria, raiz: nat, p: nat, banderas: bv64) {
    forall b: Permiso :: b.DeEscritura? || Concede(banderas, b) ==>
      (Camino(u, raiz, 4, p, b) <==> Camino(t, raiz, 4, p, b))
  }

  /** Page `p` may be used for what its flags and the way to it grant, and other pages as before. */
  ghost predicate Permitida(t: Memoria, u: Memoria, raiz: nat, p: nat, banderas: bv64) {
    && PermisosSalvo(t, u, raiz, p)
    && forall b: Permiso :: Permite(u, raiz, 4, p, b) <==> Camino(t, raiz, 4, p, b) && Concede(banderas, b)
  }

  lemma SameWay(t: Memoria, raiz: nat, p: nat, banderas: bv64)
    ensures MismoCamino(t, t, raiz, p, banderas)
  {
  }

  lemma ThenWay(t: Memoria, u: Memoria, v: Memoria, raiz: nat, p: nat, banderas: bv64)
    requires MismoCamino(t, u, raiz, p, banderas) && MismoCamino(u, v, raiz, p, banderas)
    ensures MismoCamino(t, v, raiz, p, banderas)
  {
    hide Camino, Concede;
  }

  lemma LinkGrants(banderas: bv64)
    ensures var b := PRESENTE | ESCRITURA | (banderas & USUARIO);
            Concede(b, DeEscritura) && (Concede(b, DeUsuario) <==> Concede(banderas, DeUsuario))
  {
  }

  lemma OtherPermissions(t: Memoria, raiz: nat, p: nat)
    ensures PermisosSalvo(t, t, raiz, p)
  {
  }

  /** A walk meets a present entry with the large-page bit above the last level. */
  predicate TopaGigante(t: Memoria, f: nat, n: nat, p: nat)
    requires n > 0
    decreases n
  {
    f in t && |t[f]| == ENTRADAS && n > 1 &&
    var w := t[f][Indice(p, n)];
    EsPresente(w) && (EsGigante(w) || TopaGigante(t, w.marco, n - 1, p))
  }

  /** Some present entry of the root has the large-page bit, which there means nothing. */
  predicate RaizGigante(t: Memoria, raiz: nat) {
    raiz in t && exists i :: 0 <= i < |t[raiz]| && EsPresente(t[raiz][i]) && EsGigante(t[raiz][i])
  }

  lemma {:induction false} LargeIsMapped(t: Memoria, f: nat, n: nat, p: nat)
    requires 0 < n < 4 && TopaGigante(t, f, n, p)
    ensures Caminar(t, f, n, p).Final?
    decreases n
  {
    hide Indice;
    var w := t[f][Indice(p, n)];
    if !EsGigante(w) {
      LargeIsMapped(t, w.marco, n - 1, p);
    }
  }

  /** A page that translates to nothing can meet that bit in the root only. */
  lemma LargeIsInRoot(t: Memoria, raiz: nat, p: nat)
    requires TopaGigante(t, raiz, 4, p) && Caminar(t, raiz, 4, p) == Ninguna
    ensures RaizGigante(t, raiz)
  {
    hide Indice, EsGigante, EsPresente;
    var w := t[raiz][Indice(p, 4)];
    if !EsGigante(w) {
      LargeIsMapped(t, w.marco, 3, p);
    }
  }

  lemma HangKeepsRoot(t: Memoria, raiz: nat, f: nat, i: nat, nuevo: nat, b: bv64)
    requires f in t && raiz in t && i < |t[f]| && nuevo !in t && !EsPresente(t[f][i]) && !EsGigante(Palabra(0, b))
    ensures RaizGigante(Colgar(t, f, i, nuevo, b), raiz) <==> RaizGigante(t, raiz)
  {
    hide Colgar, EsPresente;
    var u := Colgar(t, f, i, nuevo, b);
    if RaizGigante(t, raiz) {
      var j :| 0 <= j < |t[raiz]| && EsPresente(t[raiz][j]) && EsGigante(t[raiz][j]);
      assert u[raiz][j] == t[raiz][j];
    }
    if RaizGigante(u, raiz) {
      var j :| 0 <= j < |u[raiz]| && EsPresente(u[raiz][j]) && EsGigante(u[raiz][j]);
      if f == raiz && j == i {
        assert u[raiz][j] == Palabra(nuevo, b);
      } else {
        assert u[raiz][j] == t[raiz][j];
      }
    }
  }

  lemma NoneInEmpty(t: Memoria, f: nat, n: nat, p: nat)
    requires n > 0 && f in t && t[f] == Vacia()
    ensures !TopaGigante(t, f, n, p)
  {
    hide EsPresente, EsGigante;
    NothingInEmpty(Indice(p, n));
  }

  lemma NothingToUnmap(t: Memoria, raiz: nat, p: nat)
    requires Caminar(t, raiz, 4, p) == Ninguna
    ensures UnaPagina(t, t, raiz, p, Ninguna)
  {
    hide Indice;
    forall q: nat | q % PAGINAS_VIRTUALES == p % PAGINAS_VIRTUALES ensures Caminar(t, raiz, 4, q) == Ninguna {
      SamePageSameIndices(p, q);
      SameWaySameWalk(t, raiz, 4, p, q);
    }
  }

  lemma {:induction false} SameWaySameWalk(t: Memoria, f: nat, n: nat, p: nat, q: nat)
    requires 0 < n && forall m :: 1 <= m <= n ==> Indice(p, m) == Indice(q, m)
    ensures Caminar(t, f, n, p) == Caminar(t, f, n, q)
    decreases n
  {
    hide Indice;
    if f in t && |t[f]| == ENTRADAS {
      assert Indice(p, n) == Indice(q, n);
      if Sigue(t[f][Indice(p, n)], n) {
        SameWaySameWalk(t, t[f][Indice(p, n)].marco, n - 1, p, q);
      }
    }
  }

  lemma SameAsItself(t: Memoria, raiz: nat)
    ensures MismaTraduccion(t, t, raiz)
  {
  }

  lemma ThenOnePage(t: Memoria, u: Memoria, v: Memoria, raiz: nat, p: nat, h: Hoja)
    requires MismaTraduccion(t, u, raiz) && UnaPagina(u, v, raiz, p, h)
    ensures UnaPagina(t, v, raiz, p, h)
  {
    hide Caminar;
  }

  lemma ThatPage(t: Memoria, u: Memoria, raiz: nat, p: nat, h: Hoja)
    requires UnaPagina(t, u, raiz, p, h)
    ensures Caminar(u, raiz, 4, p) == h
  {
    hide Caminar;
  }

  lemma ThenSame(t: Memoria, u: Memoria, v: Memoria, raiz: nat)
    requires MismaTraduccion(t, u, raiz) && MismaTraduccion(u, v, raiz)
    ensures MismaTraduccion(t, v, raiz)
  {
    hide Caminar;
  }

  /** The shifts and masks of the source take the indices of the page. */
  lemma IndicesOfAddress(va: nat)
    ensures va / 0x80_0000_0000 % 512 == Indice(va / PAGINA, 4)
    ensures va / 0x4000_0000 % 512 == Indice(va / PAGINA, 3)
    ensures va / 0x20_0000 % 512 == Indice(va / PAGINA, 2)
    ensures va / PAGINA % 512 == Indice(va / PAGINA, 1)
  {
    hide Indice;
    IndexSteps(va / PAGINA);
    Shifts(va);
  }

  lemma Shifts(va: nat)
    ensures va / 0x20_0000 == va / 4096 / 512
    ensures va / 0x4000_0000 == va / 4096 / 512 / 512
    ensures va / 0x80_0000_0000 == va / 4096 / 512 / 512 / 512
  {
  }

  /** Where a walk that reaches a level goes on from there. */
  lemma {:induction false} WalkFromReached(t: Memoria, f: nat, n: nat, p: nat, hasta: nat)
    requires 0 < hasta <= n && Llegar(t, f, n, p, hasta).En?
    ensures Caminar(t, f, n, p) == Caminar(t, Llegar(t, f, n, p, hasta).marco, hasta, p)
    decreases n
  {
    hide Indice;
    if n > hasta {
      WalkFromReached(t, t[f][Indice(p, n)].marco, n - 1, p, hasta);
    }
  }

  class Paginador {
    var tablas: Memoria
    const raiz: nat
    const iniciada: bool
    const pmm: Pmm
    ghost var nivel: map<nat, nat>

    ghost predicate Valid()
      reads this, pmm
    {
      && pmm.Valid() && Arbol(tablas, nivel, raiz)
      && forall f :: f in pmm.cadena ==> f !in tablas && f < FISICO
    }

    /** The tables the boot loader left, under a root of our own: a tree none of whose frames is free. */
    constructor (p: Pmm, t: Memoria, r: nat, ghost n: map<nat, nat>)
      requires p.Valid() && Arbol(t, n, r) && forall f :: f in p.cadena ==> f !in t && f < FISICO
      ensures Valid() && tablas == t && raiz == r && pmm == p && iniciada
    {
      tablas, raiz, iniciada, pmm, nivel := t, r, true, p, n;
    }

    /** One level down from table `f`, hanging a zeroed table there if there is none. */
    method Descender(f: nat, i: nat, banderas: bv64, coordinador: bool, ghost p: nat)
      returns (r: int, hijo: nat, quebrado: bool)
      requires Valid() && f in tablas && nivel[f] > 1 && i == Indice(p, nivel[f])
      requires Llegar(tablas, raiz, 4, p, nivel[f]) == En(f)
      modifies `tablas, `nivel, pmm
      ensures Valid() && !quebrado && (r == 0 || r == -2 || r == -3)
      ensures MismaTraduccion(old(tablas), tablas, raiz)
      ensures r == -2 ==> !coordinador || pmm.cadena == []
      ensures r == -3 <==> EsPresente(old(tablas)[f][i]) && EsGigante(old(tablas)[f][i])
      ensures r != 0 ==> tablas == old(tablas)
      ensures RaizGigante(tablas, raiz) == RaizGigante(old(tablas), raiz)
      ensures r == -2 ==> !TopaGigante(old(tablas), f, old(nivel)[f], p)
      ensures r == -3 ==> TopaGigante(old(tablas), f, old(nivel)[f], p)
      ensures r == 0 ==> (TopaGigante(old(tablas), f, old(nivel)[f], p) <==> TopaGigante(tablas, hijo, old(nivel)[f] - 1, p))
      ensures SinFugas(old(tablas), old(pmm.asignados), tablas, pmm.asignados)
      ensures MismosPermisos(old(tablas), tablas, raiz) && MismoCamino(old(tablas), tablas, raiz, p, banderas)
      ensures r == 0 ==>
                && hijo in tablas && nivel[hijo] == old(nivel)[f] - 1
                && Llegar(tablas, raiz, 4, p, old(nivel)[f] - 1) == En(hijo)
    {
      hide Caminar, Llegar, Colgar, Indice, Arbol, MismaTraduccion, Encadenada, EnRegla, RangosValidos, Repartidas, Vacia,
           MismosPermisos, MismoCamino, EsPresente, EsGigante, RaizGigante;
      r, hijo, quebrado := 0, 0, false;
      TableIsWhole(tablas, nivel, raiz, f);
      SameAsItself(tablas, raiz);
      SamePermissions(tablas, raiz);
      SameWay(tablas, raiz, p, banderas);
      if !EsPresente(tablas[f][i]) {
        r, hijo, quebrado := ColgarTabla(f, i, banderas, coordinador, p);
      } else {
        if EsGigante(tablas[f][i]) {
          r := -3;
          return;
        }
        Follow(tablas, nivel, f, i, p);
        hijo := tablas[f][i].marco;
      }
    }

    /** A zeroed table, in a frame of its own, for an entry that is not present. */
    method ColgarTabla(f: nat, i: nat, banderas: bv64, coordinador: bool, ghost p: nat)
      returns (r: int, hijo: nat, quebrado: bool)
      requires Valid() && f in tablas && nivel[f] > 1 && i == Indice(p, nivel[f])
      requires i < |tablas[f]| && !EsPresente(tablas[f][i]) && Llegar(tablas, raiz, 4, p, nivel[f]) == En(f)
      modifies `tablas, `nivel, pmm
      ensures Valid() && !quebrado && (r == 0 || r == -2)
      ensures MismaTraduccion(old(tablas), tablas, raiz)
      ensures r == -2 ==> (!coordinador || pmm.cadena == []) && tablas == old(tablas)
      ensures RaizGigante(tablas, raiz) == RaizGigante(old(tablas), raiz)
      ensures r == 0 ==> !TopaGigante(tablas, hijo, old(nivel)[f] - 1, p)
      ensures SinFugas(old(tablas), old(pmm.asignados), tablas, pmm.asignados)
      ensures MismosPermisos(old(tablas), tablas, raiz) && MismoCamino(old(tablas), tablas, raiz, p, banderas)
      ensures r == 0 ==>
                && hijo in tablas && nivel[hijo] == old(nivel)[f] - 1
                && Llegar(tablas, raiz, 4, p, old(nivel)[f] - 1) == En(hijo)
    {
      hide Caminar, Llegar, Colgar, Indice, Arbol, MismaTraduccion, Encadenada, EnRegla, RangosValidos, Repartidas, Vacia,
           MismosPermisos, MismoCamino, EsPresente, EsGigante, RaizGigante, TopaGigante;
      r, hijo, quebrado := 0, 0, false;
      TableIsWhole(tablas, nivel, raiz, f);
      SameAsItself(tablas, raiz);
      SamePermissions(tablas, raiz);
      SameWay(tablas, raiz, p, banderas);
      if pmm.cadena != [] {
        FreeIsDistinct();
      }
      ghost var t, n := tablas, nivel;
      var nuevo;
      nuevo, quebrado := pmm.Asignar(coordinador);
      if nuevo == 0 {
        r := -2;
        return;
      }
      var b := PRESENTE | ESCRITURA | (banderas & USUARIO);
      LinkFlags(banderas);
      Hang(t, n, f, i, nuevo, b, p);
      HangPermissions(t, n, f, i, nuevo, banderas, b, p);
      RootIsHere(t, n, raiz);
      HangKeepsRoot(t, raiz, f, i, nuevo, b);
      tablas := Colgar(tablas, f, i, nuevo, b);
      NoneInEmpty(tablas, nuevo, n[f] - 1, p);
      nivel := nivel[nuevo := nivel[f] - 1];
      hijo := nuevo;
    }

    lemma Follow(t: Memoria, n: map<nat, nat>, f: nat, i: nat, p: nat)
      requires Arbol(t, n, raiz) && f in t && n[f] > 1 && i == Indice(p, n[f]) && i < |t[f]|
      requires EsPresente(t[f][i]) && !EsGigante(t[f][i]) && Llegar(t, raiz, 4, p, n[f]) == En(f)
      ensures var h := t[f][i].marco; h in t && h in n && n[h] == n[f] - 1 && Llegar(t, raiz, 4, p, n[f] - 1) == En(h)
    {
      hide Caminar, Llegar, Colgar, Indice;
      RootIsHere(t, n, raiz);
      assert EsEnlace(t, n, f, i);
      FollowIsReached(t, n, raiz, raiz, f, p);
    }

    lemma FreeIsDistinct()
      requires pmm.Valid() && pmm.cadena != []
      ensures pmm.cadena[0] in pmm.cadena && forall f :: f in pmm.cadena[1..] ==> f in pmm.cadena && f != pmm.cadena[0]
    {
    }

    lemma Hang(t: Memoria, n: map<nat, nat>, f: nat, i: nat, nuevo: nat, b: bv64, p: nat)
      requires Arbol(t, n, raiz) && f in t && n[f] > 1 && i == Indice(p, n[f]) && nuevo !in t
      requires !EsPresente(t[f][i]) && EsPresente(Palabra(0, b)) && !EsGigante(Palabra(0, b))
      requires Llegar(t, raiz, 4, p, n[f]) == En(f)
      ensures var u := Colgar(t, f, i, nuevo, b); var m := n[nuevo := n[f] - 1];
              && Arbol(u, m, raiz) && MismaTraduccion(t, u, raiz)
              && Llegar(u, raiz, 4, p, n[f] - 1) == En(nuevo)
    {
      hide Caminar, Llegar, Colgar, Indice, Arbol;
      RootIsHere(t, n, raiz);
      TableIsWhole(t, n, raiz, f);
      HangKeepsTree(t, n, raiz, f, i, nuevo, b);
      HangIsReached(t, n, raiz, raiz, f, nuevo, b, p);
      var u := Colgar(t, f, i, nuevo, b);
      forall q: nat ensures Caminar(u, raiz, 4, q) == Caminar(t, raiz, 4, q) {
        HangChangesNothing(t, n, raiz, f, i, nuevo, b, raiz, q);
      }
    }

    lemma HangPermissions(t: Memoria, n: map<nat, nat>, f: nat, i: nat, nuevo: nat, banderas: bv64, b: bv64, p: nat)
      requires Arbol(t, n, raiz) && f in t && n[f] > 1 && i == Indice(p, n[f]) && nuevo !in t
      requires !EsPresente(t[f][i]) && b == PRESENTE | ESCRITURA | (banderas & USUARIO)
      requires Llegar(t, raiz, 4, p, n[f]) == En(f)
      ensures var u := Colgar(t, f, i, nuevo, b);
              MismosPermisos(t, u, raiz) && MismoCamino(t, u, raiz, p, banderas)
    {
      hide Llegar, Colgar, Indice, Arbol, Permite, Camino, Concede;
      RootIsHere(t, n, raiz);
      TableIsWhole(t, n, raiz, f);
      LinkFlags(banderas);
      LinkGrants(banderas);
      var u := Colgar(t, f, i, nuevo, b);
      forall q: nat, x: Permiso ensures Permite(u, raiz, 4, q, x) <==> Permite(t, raiz, 4, q, x) {
        HangPermitsNothing(t, n, raiz, f, i, nuevo, b, raiz, q, x);
      }
      forall x: Permiso | x.DeEscritura? || Concede(banderas, x)
        ensures Camino(u, raiz, 4, p, x) <==> Camino(t, raiz, 4, p, x)
      {
        HangExtendsWay(t, n, raiz, raiz, f, nuevo, b, p, x);
        assert x == DeEscritura || x == DeUsuario;
      }
    }

    /** From the root to the last table of the walk of page `p`, hanging what is missing. */
    method BajarHastaUltima(va: nat, banderas: bv64, coordinador: bool) returns (r: int, pt: nat, quebrado: bool)
      requires Valid()
      modifies `tablas, `nivel, pmm
      ensures Valid() && !quebrado && (r == 0 || r == -2 || r == -3)
      ensures MismaTraduccion(old(tablas), tablas, raiz)
      ensures r == -2 ==> !coordinador || pmm.cadena == []
      ensures r == -3 <==> TopaGigante(old(tablas), raiz, 4, va / PAGINA)
      ensures RaizGigante(tablas, raiz) == RaizGigante(old(tablas), raiz)
      ensures SinFugas(old(tablas), old(pmm.asignados), tablas, pmm.asignados)
      ensures r == 0 ==> pt in tablas && nivel[pt] == 1 && Llegar(tablas, raiz, 4, va / PAGINA, 1) == En(pt)
      ensures MismosPermisos(old(tablas), tablas, raiz) && MismoCamino(old(tablas), tablas, raiz, va / PAGINA, banderas)
    {
      hide Caminar, Llegar, Indice, Arbol, MismaTraduccion, SinFugas, Encadenada, EnRegla, RangosValidos,
           MismosPermisos, MismoCamino, PermisosSalvo, RaizGigante;
      ghost var p, t0, a0 := va / PAGINA, tablas, pmm.asignados;
      IndicesOfAddress(va);
      StartAtRoot(p);
      var pdpt, pd;
      r, pdpt, quebrado := Descender(raiz, va / 0x80_0000_0000 % 512, banderas, coordinador, p);
      pt := 0;
      if r != 0 {
        return;
      }
      ghost var t1, a1 := tablas, pmm.asignados;
      r, pd, quebrado := Descender(pdpt, va / 0x4000_0000 % 512, banderas, coordinador, p);
      ThenSame(t0, t1, tablas, raiz);
      ThenPermissions(t0, t1, tablas, raiz, p);
      ThenWay(t0, t1, tablas, raiz, p, banderas);
      NoLeakThen(t0, a0, t1, a1, tablas, pmm.asignados);
      if r != 0 {
        return;
      }
      ghost var t2, a2 := tablas, pmm.asignados;
      r, pt, quebrado := Descender(pd, va / 0x20_0000 % 512, banderas, coordinador, p);
      ThenSame(t0, t2, tablas, raiz);
      ThenPermissions(t0, t2, tablas, raiz, p);
      ThenWay(t0, t2, tablas, raiz, p, banderas);
      NoLeakThen(t0, a0, t2, a2, tablas, pmm.asignados);
    }

    lemma StartAtRoot(p: nat)
      requires Arbol(tablas, nivel, raiz)
      ensures raiz in tablas && raiz in nivel && nivel[raiz] == 4 && Llegar(tablas, raiz, 4, p, 4) == En(raiz)
    {
    }

    /** Maps one page. Success changes the translation of that page only; failure, even after tables
        have been hung, changes none. Every frame taken has become a table. */
    method Mapear(enCurso: bool, coordinador: bool, va: nat, fisica: nat, banderas: bv64)
      returns (r: int, quebrado: bool)
      requires Valid() && fisica < FISICO && banderas & MASCARA_DIRECCION == 0
      modifies `tablas, `nivel, pmm
      ensures Valid() && !quebrado && (r == 0 || r == -1 || r == -2 || r == -3)
      ensures r == -1 <==> enCurso || !iniciada
      ensures r == -2 ==> !coordinador || pmm.cadena == []
      ensures r == -3 <==> !enCurso && iniciada && TopaGigante(old(tablas), raiz, 4, va / PAGINA)
      ensures RaizGigante(tablas, raiz) == RaizGigante(old(tablas), raiz)
      ensures r == 0 ==> UnaPagina(old(tablas), tablas, raiz, va / PAGINA, PaginaDe(fisica, banderas))
      ensures r != 0 ==> MismaTraduccion(old(tablas), tablas, raiz)
      ensures SinFugas(old(tablas), old(pmm.asignados), tablas, pmm.asignados)
      ensures r == 0 ==> Permitida(old(tablas), tablas, raiz, va / PAGINA, banderas)
      ensures r == 0 ==>
                Caminar(tablas, raiz, 4, va / 4096) == Final(Palabra(fisica / 4096 * 4096, banderas | PRESENTE), 1)
      ensures r != 0 ==> MismosPermisos(old(tablas), tablas, raiz)
    {
      hide Caminar, Llegar, Indice, Arbol, MismaTraduccion, UnaPagina, Encadenada, EnRegla, RangosValidos, Escribir,
           MismosPermisos, MismoCamino, PermisosSalvo, Permitida, TopaGigante, RaizGigante;
      SameAsItself(tablas, raiz);
      SamePermissions(tablas, raiz);
      quebrado := false;
      if enCurso || !iniciada {
        return -1, false;
      }
      var pt;
      ghost var t0, p := tablas, va / PAGINA;
      r, pt, quebrado := BajarHastaUltima(va, banderas, coordinador);
      if r != 0 {
        return;
      }
      IndicesOfAddress(va);
      TableIsWhole(tablas, nivel, raiz, pt);
      var w := Palabra(fisica / PAGINA * PAGINA, banderas | PRESENTE);
      PresentFlag(banderas);
      WriteLeaf(tablas, p, pt, w);
      LeafPermissions(t0, tablas, p, pt, w, banderas);
      LeafKeepsRoot(tablas, pt, p, w);
      ghost var t1 := tablas;
      tablas := Escribir(tablas, pt, va / PAGINA % 512, w);
      ThenOnePage(t0, t1, tablas, raiz, p, Final(w, 1));
      ThatPage(t0, tablas, raiz, p, Final(w, 1));
    }

    lemma PresentFlag(b: bv64)
      ensures (b | PRESENTE) & PRESENTE != 0
    {
    }

    lemma LeafPermissions(t0: Memoria, t: Memoria, p: nat, pt: nat, w: Palabra, banderas: bv64)
      requires Arbol(t, nivel, raiz) && pt in t && nivel[pt] == 1 && Llegar(t, raiz, 4, p, 1) == En(pt)
      requires MismosPermisos(t0, t, raiz) && MismoCamino(t0, t, raiz, p, banderas) && w.banderas == banderas | PRESENTE
      ensures |t[pt]| == ENTRADAS
      ensures Permitida(t0, Escribir(t, pt, Indice(p, 1), w), raiz, p, banderas)
    {
      hide Llegar, Indice, Arbol, Escribir, Permite, Camino, Concede, MismosPermisos, PermisosSalvo;
      TableIsWhole(t, nivel, raiz, pt);
      PresentFlag(banderas);
      PresentGrants(banderas);
      LeafWriteDecides(t, nivel, raiz, p, pt, w);
      ThenPermissions(t0, t, Escribir(t, pt, Indice(p, 1), w), raiz, p);
    }

    lemma LeafKeepsRoot(t: Memoria, pt: nat, p: nat, w: Palabra)
      requires Arbol(t, nivel, raiz) && pt in t && nivel[pt] == 1
      ensures |t[pt]| == ENTRADAS && RaizGigante(Escribir(t, pt, Indice(p, 1), w), raiz) == RaizGigante(t, raiz)
    {
      hide Arbol, Escribir, Indice, EsPresente, EsGigante;
      TableIsWhole(t, nivel, raiz, pt);
      RootIsHere(t, nivel, raiz);
    }

    lemma PresentGrants(b: bv64)
      ensures forall x: Permiso :: Concede(b | PRESENTE, x) <==> Concede(b, x)
    {
    }

    lemma WriteLeaf(t: Memoria, p: nat, pt: nat, w: Palabra)
      requires Arbol(t, nivel, raiz) && pt in t && nivel[pt] == 1 && Llegar(t, raiz, 4, p, 1) == En(pt)
      ensures |t[pt]| == ENTRADAS
      ensures var u := Escribir(t, pt, Indice(p, 1), w); Arbol(u, nivel, raiz) && UnaPagina(t, u, raiz, p, Como(w))
    {
      hide Caminar, Llegar, Indice, Arbol, Escribir;
      TableIsWhole(t, nivel, raiz, pt);
      LeafWriteKeepsTree(t, nivel, raiz, pt, Indice(p, 1), w);
      LeafWriteChangesOnePage(t, nivel, raiz, p, pt, w);
    }

    /** Unmaps one page: afterwards it translates to nothing, and every other page as before. */
    method Desmapear(enCurso: bool, va: nat) returns (r: int)
      requires Valid()
      requires Caminar(tablas, raiz, 4, va / PAGINA).Final? ==> Caminar(tablas, raiz, 4, va / PAGINA).nivel == 1
      modifies `tablas
      ensures Valid() && tablas.Keys == old(tablas).Keys
      ensures enCurso || !iniciada ==> r == -1 && tablas == old(tablas)
      ensures !enCurso && iniciada ==> UnaPagina(old(tablas), tablas, raiz, va / PAGINA, Ninguna)
      ensures r == 0 || (r == -1 && tablas == old(tablas))
      ensures PermisosSalvo(old(tablas), tablas, raiz, va / PAGINA)
    {
      hide Llegar, Indice, Arbol, UnaPagina, Encadenada, EnRegla, RangosValidos, Escribir, PermisosSalvo;
      OtherPermissions(tablas, raiz, va / PAGINA);
      if enCurso || !iniciada {
        return -1;
      }
      ghost var p := va / PAGINA;
      IndicesOfAddress(va);
      StartAtRoot(p);
      var sigue, pdpt, pd, pt;
      sigue, pdpt := Pasar(raiz, va / 0x80_0000_0000 % 512, p);
      if !sigue {
        return -1;
      }
      sigue, pd := Pasar(pdpt, va / 0x4000_0000 % 512, p);
      if !sigue {
        return -1;
      }
      sigue, pt := Pasar(pd, va / 0x20_0000 % 512, p);
      if !sigue {
        return -1;
      }
      WriteLeaf(tablas, p, pt, CERO);
      LeafWriteDecides(tablas, nivel, raiz, p, pt, CERO);
      tablas := Escribir(tablas, pt, va / PAGINA % 512, CERO);
      r := 0;
    }

    /** One level down from table `f`, if its entry is present; the caller knows it is not a large page. */
    method Pasar(f: nat, i: nat, ghost p: nat) returns (sigue: bool, hijo: nat)
      requires Valid() && f in tablas && nivel[f] > 1 && i == Indice(p, nivel[f])
      requires Llegar(tablas, raiz, 4, p, nivel[f]) == En(f)
      requires Caminar(tablas, raiz, 4, p).Final? ==> Caminar(tablas, raiz, 4, p).nivel == 1
      ensures sigue ==> hijo in tablas && nivel[hijo] == nivel[f] - 1
                        && Llegar(tablas, raiz, 4, p, nivel[f] - 1) == En(hijo)
      ensures !sigue ==> UnaPagina(tablas, tablas, raiz, p, Ninguna)
    {
      hide Llegar, Indice, Arbol, UnaPagina, Encadenada, EnRegla, RangosValidos;
      TableIsWhole(tablas, nivel, raiz, f);
      WalkFromReached(tablas, raiz, 4, p, nivel[f]);
      if !EsPresente(tablas[f][i]) {
        NothingToUnmap(tablas, raiz, p);
        return false, 0;
      }
      EntryFollowed(f, i, p);
      return true, tablas[f][i].marco;
    }

    lemma EntryFollowed(f: nat, i: nat, p: nat)
      requires Arbol(tablas, nivel, raiz) && f in tablas && nivel[f] > 1 && i == Indice(p, nivel[f]) && i < |tablas[f]|
      requires EsPresente(tablas[f][i]) && Llegar(tablas, raiz, 4, p, nivel[f]) == En(f)
      requires Sigue(tablas[f][i], nivel[f])
      ensures var h := tablas[f][i].marco;
              h in tablas && h in nivel && nivel[h] == nivel[f] - 1 && Llegar(tablas, raiz, 4, p, nivel[f] - 1) == En(h)
    {
      hide Caminar, Llegar, Indice;
      RootIsHere(tablas, nivel, raiz);
      assert EsEnlace(tablas, nivel, f, i);
      FollowIsReached(tablas, nivel, raiz, raiz, f, p);
    }

    /** The physical address of a virtual one, 0 when nothing is mapped there. */
    method ObtenerFisica(va: nat) returns (r: nat)
      requires Valid()
      ensures r == if iniciada then Fisica(Traduccion(tablas, raiz, va), va) else 0
    {
      hide Llegar, Indice, Arbol, Encadenada, EnRegla, RangosValidos;
      if !iniciada {
        return 0;
      }
      ghost var p := va / PAGINA;
      IndicesOfAddress(va);
      StartAtRoot(p);
      var i4, i3, i2, i1 := va / 0x80_0000_0000 % 512, va / 0x4000_0000 % 512, va / 0x20_0000 % 512, va / PAGINA % 512;
      TableIsWhole(tablas, nivel, raiz, raiz);
      if !EsPresente(tablas[raiz][i4]) {
        return 0;
      }
      EntryFollowed(raiz, i4, p);
      var pdpt := tablas[raiz][i4].marco;
      TableIsWhole(tablas, nivel, raiz, pdpt);
      WalkFromReached(tablas, raiz, 4, p, 3);
      if !EsPresente(tablas[pdpt][i3]) {
        return 0;
      }
      if EsGigante(tablas[pdpt][i3]) {
        return tablas[pdpt][i3].marco / 0x4000_0000 * 0x4000_0000 + va % 0x4000_0000;
      }
      EntryFollowed(pdpt, i3, p);
      var pd := tablas[pdpt][i3].marco;
      TableIsWhole(tablas, nivel, raiz, pd);
      WalkFromReached(tablas, raiz, 4, p, 2);
      if !EsPresente(tablas[pd][i2]) {
        return 0;
      }
      if EsGigante(tablas[pd][i2]) {
        return tablas[pd][i2].marco / 0x20_0000 * 0x20_0000 + va % 0x20_0000;
      }
      EntryFollowed(pd, i2, p);
      var pt := tablas[pd][i2].marco;
      TableIsWhole(tablas, nivel, raiz, pt);
      WalkFromReached(tablas, raiz, 4, p, 1);
      if !EsPresente(tablas[pt][i1]) {
        return 0;
      }
      return tablas[pt][i1].marco + va % PAGINA;
    }
  }

  // ----- Every byte of a page -----

  /** Two addresses lie in one page, as the walk sees addresses. */
  predicate MismaPagina(x: nat, y: nat) {
    x / 4096 % 0x10_0000_0000 == y / 4096 % 0x10_0000_0000
  }

  lemma MappedByte(t: Memoria, u: Memoria, raiz: nat, va: nat, fisica: nat, banderas: bv64, x: nat)
    requires UnaPagina(t, u, raiz, va / PAGINA, PaginaDe(fisica, banderas))
    ensures MismaPagina(x, va) ==> Fisica(Traduccion(u, raiz, x), x) == fisica / 4096 * 4096 + x % 4096
    ensures !MismaPagina(x, va) ==> Traduccion(u, raiz, x) == Traduccion(t, raiz, x)
  {
    hide Caminar;
  }

  lemma UnmappedByte(t: Memoria, u: Memoria, raiz: nat, va: nat, x: nat)
    requires UnaPagina(t, u, raiz, va / PAGINA, Ninguna)
    ensures MismaPagina(x, va) ==> Fisica(Traduccion(u, raiz, x), x) == 0
    ensures !MismaPagina(x, va) ==> Traduccion(u, raiz, x) == Traduccion(t, raiz, x)
  {
    hide Caminar;
  }

  lemma SameByte(t: Memoria, u: Memoria, raiz: nat, x: nat)
    requires MismaTraduccion(t, u, raiz)
    ensures Traduccion(u, raiz, x) == Traduccion(t, raiz, x)
  {
    hide Caminar;
  }

  lemma MappedLeaf(t: Memoria, u: Memoria, raiz: nat, va: nat, fisica: nat, banderas: bv64)
    requires UnaPagina(t, u, raiz, va / PAGINA, PaginaDe(fisica, banderas))
    ensures Caminar(u, raiz, 4, va / PAGINA).Final? && Caminar(u, raiz, 4, va / PAGINA).nivel == 1
  {
    hide Caminar;
  }

  /** Any address asked for before a mapping, under it, and after it has been undone: in the mapped page
      every byte is found where the physical page has it, and then nowhere; other pages never notice. */
  method MapearYDesmapear(p: Paginador, enCurso: bool, coordinador: bool, va: nat, fisica: nat, banderas: bv64, x: nat)
    returns (r: int, antes: nat, durante: nat, despues: nat)
    requires p.Valid() && fisica < FISICO && banderas & MASCARA_DIRECCION == 0
    modifies p`tablas, p`nivel, p.pmm
    ensures p.Valid()
    ensures r == 0 && MismaPagina(x, va) ==> durante == fisica / 4096 * 4096 + x % 4096 && despues == 0
    ensures r == 0 && !MismaPagina(x, va) ==> antes == durante == despues
    ensures r != 0 ==> antes == durante == despues
  {
    hide Caminar, Fisica, Traduccion, PaginaDe, UnaPagina, MismaTraduccion, Arbol, MismosPermisos, Permitida, PermisosSalvo;
    hide TopaGigante, RaizGigante, SinFugas, Encadenada, EnRegla, RangosValidos;
    ghost var t := p.tablas;
    antes := p.ObtenerFisica(x);
    var quebrado;
    r, quebrado := p.Mapear(enCurso, coordinador, va, fisica, banderas);
    ghost var u := p.tablas;
    durante := p.ObtenerFisica(x);
    despues := durante;
    if r == 0 {
      MappedByte(t, u, p.raiz, va, fisica, banderas, x);
      MappedLeaf(t, u, p.raiz, va, fisica, banderas);
      var q := p.Desmapear(enCurso, va);
      UnmappedByte(u, p.tablas, p.raiz, va, x);
      despues := p.ObtenerFisica(x);
    } else {
      SameByte(t, u, p.raiz, x);
    }
  }

  // ----- Large pages -----

  /** The bytes that an entry with the large-page bit covers at a level. */
  function Tamano(nivel: nat): nat {
    if nivel == 2 then 0x20_0000 else 0x4000_0000
  }

  lemma SameLargePage(x: nat, y: nat, n: nat)
    requires n == 2 || n == 3
    requires x / Tamano(n) == y / Tamano(n)
    ensures forall m :: n <= m <= 4 ==> Indice(x / PAGINA, m) == Indice(y / PAGINA, m)
  {
    hide Indice;
    Shifts(x);
    Shifts(y);
    IndexSteps(x / PAGINA);
    IndexSteps(y / PAGINA);
  }

  /** An entry that maps a large page answers every address of it: the page's frame, aligned, and the
      low 21 or 30 bits of the address. */
  lemma LargePageTranslates(t: Memoria, raiz: nat, va: nat, n: nat, f: nat, x: nat)
    requires (n == 2 && x / 0x20_0000 == va / 0x20_0000) || (n == 3 && x / 0x4000_0000 == va / 0x4000_0000)
    requires Llegar(t, raiz, 4, va / PAGINA, n) == En(f) && f in t && |t[f]| == ENTRADAS
    requires EsPresente(t[f][Indice(va / PAGINA, n)]) && EsGigante(t[f][Indice(va / PAGINA, n)])
    ensures var marco := t[f][Indice(va / PAGINA, n)].marco;
            Fisica(Traduccion(t, raiz, x), x) ==
            if n == 2 then marco / 0x20_0000 * 0x20_0000 + x % 0x20_0000
            else marco / 0x4000_0000 * 0x4000_0000 + x % 0x4000_0000
  {
    hide Indice, Llegar, EsPresente, EsGigante;
    SameLargePage(x, va, n);
    SameWaySameTable(t, raiz, 4, x / PAGINA, va / PAGINA, n);
    WalkFromReached(t, raiz, 4, x / PAGINA, n);
    assert Indice(x / PAGINA, n) == Indice(va / PAGINA, n);
  }
}
