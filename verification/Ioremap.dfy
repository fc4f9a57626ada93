/** Mapping device registers into a window of kernel addresses that is handed out once, with a guard
    page after every region, and rolled back when a page cannot be mapped. */
module Ioremap {
  import opened Bytes
  import opened Marcos
  import opened Tablas
  import opened Paginacion

  const BASE: nat := 0xFFFF_FD00_0000_0000
  const FIN_VIRTUAL: nat := DOS64
  const MAX_MAPEOS: nat := 64

  datatype Registro = Registro(activo: bool, virt: nat, fis: nat, tam: nat)
  datatype Region = Region(fis: nat, tam: nat, atributos: bv64)

  // ----- Runs of pages -----

  /** Page `q` is one of the `k` pages from `v`, as the walk sees page numbers. */
  predicate EnTramo(q: nat, v: nat, k: nat) {
    v % PAGINAS_VIRTUALES <= q % PAGINAS_VIRTUALES < v % PAGINAS_VIRTUALES + k
  }

  function PaginaDelTramo(q: nat, v: nat, fis: nat, atributos: bv64): Hoja
    requires v % PAGINAS_VIRTUALES <= q % PAGINAS_VIRTUALES
  {
    PaginaDe(fis + (q % PAGINAS_VIRTUALES - v % PAGINAS_VIRTUALES) * PAGINA, atributos)
  }

  /** `u` is `t` with the `k` pages from `v` mapped, in order, from `fis` on. */
  ghost predicate Mapeado(t: Memoria, u: Memoria, raiz: nat, v: nat, k: nat, fis: nat, atributos: bv64) {
    forall q: nat :: Caminar(u, raiz, 4, q) ==
      if EnTramo(q, v, k) then PaginaDelTramo(q, v, fis, atributos) else Caminar(t, raiz, 4, q)
  }

  ghost predicate Desmapeado(t: Memoria, u: Memoria, raiz: nat, v: nat, k: nat) {
    forall q: nat :: Caminar(u, raiz, 4, q) == if EnTramo(q, v, k) then Ninguna else Caminar(t, raiz, 4, q)
  }

  lemma PageAfter(v: nat, k: nat)
    requires v % PAGINAS_VIRTUALES + k < PAGINAS_VIRTUALES
    ensures (v + k) % PAGINAS_VIRTUALES == v % PAGINAS_VIRTUALES + k
  {
  }

  lemma MapNext(t: Memoria, u: Memoria, w: Memoria, raiz: nat, v: nat, k: nat, fis: nat, atributos: bv64)
    requires Mapeado(t, u, raiz, v, k, fis, atributos) && v % PAGINAS_VIRTUALES + k < PAGINAS_VIRTUALES
    requires UnaPagina(u, w, raiz, v + k, PaginaDe(fis + k * PAGINA, atributos))
    ensures Mapeado(t, w, raiz, v, k + 1, fis, atributos)
  {
    hide Caminar, PaginaDe;
    PageAfter(v, k);
  }

  lemma UnmapNext(t: Memoria, u: Memoria, w: Memoria, raiz: nat, v: nat, k: nat)
    requires Desmapeado(t, u, raiz, v, k) && v % PAGINAS_VIRTUALES + k < PAGINAS_VIRTUALES
    requires UnaPagina(u, w, raiz, v + k, Ninguna)
    ensures Desmapeado(t, w, raiz, v, k + 1)
  {
    hide Caminar;
    PageAfter(v, k);
  }

  lemma NoPages(t: Memoria, raiz: nat, v: nat, fis: nat, atributos: bv64)
    ensures Mapeado(t, t, raiz, v, 0, fis, atributos) && Desmapeado(t, t, raiz, v, 0)
  {
    hide Caminar;
  }

  /** Mapping pages that were empty and unmapping them again changes nothing. */
  lemma RollbackRestores(t: Memoria, u: Memoria, w: Memoria, raiz: nat, v: nat, k: nat, fis: nat, atributos: bv64)
    requires Mapeado(t, u, raiz, v, k, fis, atributos) && Desmapeado(u, w, raiz, v, k)
    requires forall q: nat :: EnTramo(q, v, k) ==> Caminar(t, raiz, 4, q) == Ninguna
    ensures MismaTraduccion(t, w, raiz)
  {
    hide Caminar, PaginaDe, EnTramo, PaginaDelTramo;
  }

  lemma MapSame(t: Memoria, u: Memoria, w: Memoria, raiz: nat, v: nat, k: nat, fis: nat, atributos: bv64)
    requires Mapeado(t, u, raiz, v, k, fis, atributos) && MismaTraduccion(u, w, raiz)
    ensures Mapeado(t, w, raiz, v, k, fis, atributos)
  {
    hide Caminar, PaginaDe, EnTramo, PaginaDelTramo;
  }

  /** Byte `k` of a range, through the pages that were mapped for it. */
  lemma ByteOfRun(t: Memoria, u: Memoria, raiz: nat, virt: nat, offset: nat, size: nat, atributos: bv64, k: nat)
    requires virt % PAGINA == 0 && virt / PAGINA % PAGINAS_VIRTUALES + Abarca(offset, size) / PAGINA <= PAGINAS_VIRTUALES
    requires k < size
    requires Mapeado(t, u, raiz, virt / PAGINA, Abarca(offset, size) / PAGINA, Inicio(offset), atributos)
    ensures var x := virt + offset % PAGINA + k; Fisica(Traduccion(u, raiz, x), x) == offset + k
  {
    hide Caminar, Abarca, Inicio;
    var x, j, v := virt + offset % PAGINA + k, (offset % PAGINA + k) / PAGINA, virt / PAGINA;
    ByteInRange(offset, size, k);
    assert x / PAGINA == v + j && x % PAGINA == (offset % PAGINA + k) % PAGINA;
    PageAfter(v, j);
  }

  lemma ByteInRange(offset: nat, size: nat, k: nat)
    requires k < size
    ensures (offset % PAGINA + k) / PAGINA < Abarca(offset, size) / PAGINA
    ensures Inicio(offset) % PAGINA == 0 && Inicio(offset) + offset % PAGINA == offset
  {
  }

  // ----- The window -----

  predicate Dentro(virt: nat, r: Region, n: nat) {
    virt <= n * PAGINA < virt + r.tam
  }

  /** The live regions lie below the cursor, apart from each other by a guard page at least. */
  ghost predicate Separadas(vivas: map<nat, Region>, cursor: nat) {
    && cursor % PAGINA == 0 && BASE <= cursor
    && (forall v :: v in vivas ==>
          BASE <= v && v % PAGINA == 0 && vivas[v].tam % PAGINA == 0 && vivas[v].tam > 0
          && v + vivas[v].tam + PAGINA <= cursor)
    && forall v, w :: v in vivas && w in vivas && v < w ==> v + vivas[v].tam + PAGINA <= w
  }

  /** Each is mapped page by page to its physical range. */
  ghost predicate Visibles(vivas: map<nat, Region>, t: Memoria, raiz: nat) {
    forall v, n: nat :: v in vivas && Dentro(v, vivas[v], n) ==>
      Caminar(t, raiz, 4, n) == PaginaDe(vivas[v].fis + (n * PAGINA - v), vivas[v].atributos)
  }

  predicate Fuera(vivas: map<nat, Region>, n: nat) {
    forall v :: v in vivas ==> !Dentro(v, vivas[v], n)
  }

  /** And nothing else in the window is mapped. */
  ghost predicate NadaMas(vivas: map<nat, Region>, t: Memoria, raiz: nat, limite: nat) {
    forall n: nat :: BASE <= n * PAGINA < limite && Fuera(vivas, n) ==> Caminar(t, raiz, 4, n) == Ninguna
  }

  ghost predicate Ventana(vivas: map<nat, Region>, t: Memoria, raiz: nat, cursor: nat, limite: nat) {
    cursor <= limite <= FIN_VIRTUAL && Separadas(vivas, cursor) && Visibles(vivas, t, raiz) && NadaMas(vivas, t, raiz, limite)
  }

  const ARRIBA: nat := 0xFFFF * PAGINAS_VIRTUALES

  /** All window pages share their high bits, so page numbers behave as the walk's. */
  lemma WindowPage(n: nat)
    requires BASE <= n * PAGINA < FIN_VIRTUAL
    ensures n % PAGINAS_VIRTUALES == n - ARRIBA
  {
    assert 0xFFFF * 0x10_0000_0000 <= n < 0x1_0000 * 0x10_0000_0000;
    DivModUnique(n, PAGINAS_VIRTUALES, 0xFFFF, n - ARRIBA);
  }

  lemma WindowRun(virt: nat, k: nat)
    requires BASE <= virt && virt % PAGINA == 0 && k > 0 && virt + k * PAGINA <= FIN_VIRTUAL
    ensures var v := virt / PAGINA;
            && v * PAGINA == virt && v % PAGINAS_VIRTUALES == v - ARRIBA && v % PAGINAS_VIRTUALES + k <= PAGINAS_VIRTUALES
    ensures forall n: nat :: BASE <= n * PAGINA < FIN_VIRTUAL ==>
              (EnTramo(n, virt / PAGINA, k) <==> virt <= n * PAGINA < virt + k * PAGINA)
  {
    var v := virt / PAGINA;
    WindowPage(v);
    forall n: nat | BASE <= n * PAGINA < FIN_VIRTUAL
      ensures EnTramo(n, v, k) <==> virt <= n * PAGINA < virt + k * PAGINA
    {
      WindowPage(n);
    }
  }

  lemma WalkIsPeriodic(t: Memoria, raiz: nat, p: nat, q: nat)
    requires p % PAGINAS_VIRTUALES == q % PAGINAS_VIRTUALES
    ensures Caminar(t, raiz, 4, p) == Caminar(t, raiz, 4, q)
  {
    hide Indice, Caminar;
    SamePageSameIndices(p, q);
    SameWaySameWalk(t, raiz, 4, p, q);
  }

  /** Nothing is mapped from the cursor on. */
  lemma EmptyAhead(vivas: map<nat, Region>, t: Memoria, raiz: nat, cursor: nat, limite: nat, k: nat)
    requires Ventana(vivas, t, raiz, cursor, limite) && k > 0 && cursor + k * PAGINA <= limite
    ensures forall q: nat :: EnTramo(q, cursor / PAGINA, k) ==> Caminar(t, raiz, 4, q) == Ninguna
  {
    hide Caminar;
    var v := cursor / PAGINA;
    WindowRun(cursor, k);
    forall q: nat | EnTramo(q, v, k) ensures Caminar(t, raiz, 4, q) == Ninguna {
      var j := q % PAGINAS_VIRTUALES - v % PAGINAS_VIRTUALES;
      PageAfter(v, j);
      WalkIsPeriodic(t, raiz, q, v + j);
      assert BASE <= (v + j) * PAGINA < limite;
      assert Fuera(vivas, v + j);
    }
  }

  lemma WindowSame(vivas: map<nat, Region>, t: Memoria, u: Memoria, raiz: nat, cursor: nat, limite: nat)
    requires Ventana(vivas, t, raiz, cursor, limite) && MismaTraduccion(t, u, raiz)
    ensures Ventana(vivas, u, raiz, cursor, limite)
  {
    hide Caminar, PaginaDe, Dentro;
  }

  lemma AddedIsVisible(vivas: map<nat, Region>, t: Memoria, u: Memoria, raiz: nat, cursor: nat, k: nat, fis: nat,
                       atributos: bv64)
    requires Separadas(vivas, cursor) && Visibles(vivas, t, raiz) && k > 0 && cursor + k * PAGINA <= FIN_VIRTUAL
    requires Mapeado(t, u, raiz, cursor / PAGINA, k, fis, atributos)
    ensures Visibles(vivas[cursor := Region(fis, k * PAGINA, atributos)], u, raiz)
  {
    hide Caminar, PaginaDe, EnTramo;
    var mas := vivas[cursor := Region(fis, k * PAGINA, atributos)];
    WindowRun(cursor, k);
    forall w, n: nat | w in mas && Dentro(w, mas[w], n)
      ensures Caminar(u, raiz, 4, n) == PaginaDe(mas[w].fis + (n * PAGINA - w), mas[w].atributos)
    {
      assert BASE <= n * PAGINA < FIN_VIRTUAL;
      if w == cursor {
        WindowPage(n);
        assert EnTramo(n, cursor / PAGINA, k);
      } else {
        assert !EnTramo(n, cursor / PAGINA, k);
      }
    }
  }

  lemma AddedLeavesRestEmpty(vivas: map<nat, Region>, t: Memoria, u: Memoria, raiz: nat, cursor: nat, limite: nat,
                             k: nat, fis: nat, atributos: bv64)
    requires Separadas(vivas, cursor) && NadaMas(vivas, t, raiz, limite) && k > 0 && cursor + k * PAGINA <= limite <= FIN_VIRTUAL
    requires Mapeado(t, u, raiz, cursor / PAGINA, k, fis, atributos)
    ensures NadaMas(vivas[cursor := Region(fis, k * PAGINA, atributos)], u, raiz, limite)
  {
    hide Caminar, PaginaDe, EnTramo;
    var mas := vivas[cursor := Region(fis, k * PAGINA, atributos)];
    WindowRun(cursor, k);
    forall n: nat | BASE <= n * PAGINA < limite && Fuera(mas, n) ensures Caminar(u, raiz, 4, n) == Ninguna {
      assert !Dentro(cursor, mas[cursor], n);
      assert !EnTramo(n, cursor / PAGINA, k);
      forall w | w in vivas ensures !Dentro(w, vivas[w], n) {
        assert w != cursor && w in mas && mas[w] == vivas[w];
      }
      assert Fuera(vivas, n);
    }
  }

  lemma RegionAdded(vivas: map<nat, Region>, t: Memoria, u: Memoria, raiz: nat, cursor: nat, limite: nat,
                    k: nat, fis: nat, atributos: bv64)
    requires Ventana(vivas, t, raiz, cursor, limite) && k > 0 && cursor + k * PAGINA + PAGINA <= limite
    requires Mapeado(t, u, raiz, cursor / PAGINA, k, fis, atributos)
    ensures Ventana(vivas[cursor := Region(fis, k * PAGINA, atributos)], u, raiz, cursor + k * PAGINA + PAGINA, limite)
  {
    hide Caminar, PaginaDe, EnTramo, Visibles, NadaMas, Mapeado;
    AddedIsVisible(vivas, t, u, raiz, cursor, k, fis, atributos);
    AddedLeavesRestEmpty(vivas, t, u, raiz, cursor, limite, k, fis, atributos);
  }

  lemma RemovedIsGone(vivas: map<nat, Region>, t: Memoria, u: Memoria, raiz: nat, cursor: nat, limite: nat, v: nat, k: nat)
    requires Separadas(vivas, cursor) && cursor <= limite <= FIN_VIRTUAL && v in vivas && k * PAGINA == vivas[v].tam
    requires NadaMas(vivas, t, raiz, limite) && Desmapeado(t, u, raiz, v / PAGINA, k)
    ensures NadaMas(vivas - {v}, u, raiz, limite)
  {
    hide Caminar, PaginaDe, EnTramo;
    var menos := vivas - {v};
    WindowRun(v, k);
    forall n: nat | BASE <= n * PAGINA < limite && Fuera(menos, n) ensures Caminar(u, raiz, 4, n) == Ninguna {
      if !Dentro(v, vivas[v], n) {
        forall w | w in vivas ensures !Dentro(w, vivas[w], n) {
          assert w != v ==> w in menos && menos[w] == vivas[w];
        }
        assert Fuera(vivas, n);
      } else {
        assert EnTramo(n, v / PAGINA, k);
      }
    }
  }

  lemma RemovedLeavesOthers(vivas: map<nat, Region>, t: Memoria, u: Memoria, raiz: nat, cursor: nat, v: nat, k: nat)
    requires Separadas(vivas, cursor) && cursor <= FIN_VIRTUAL && v in vivas && k * PAGINA == vivas[v].tam
    requires Visibles(vivas, t, raiz) && Desmapeado(t, u, raiz, v / PAGINA, k)
    ensures Visibles(vivas - {v}, u, raiz)
  {
    hide Caminar, PaginaDe, EnTramo;
    var menos := vivas - {v};
    WindowRun(v, k);
    forall w, n: nat | w in menos && Dentro(w, menos[w], n)
      ensures Caminar(u, raiz, 4, n) == PaginaDe(menos[w].fis + (n * PAGINA - w), menos[w].atributos)
    {
      assert w in vivas && vivas[w] == menos[w] && w != v;
      assert BASE <= n * PAGINA < FIN_VIRTUAL;
      assert !EnTramo(n, v / PAGINA, k);
    }
  }

  lemma RegionRemoved(vivas: map<nat, Region>, t: Memoria, u: Memoria, raiz: nat, cursor: nat, limite: nat, v: nat, k: nat)
    requires Ventana(vivas, t, raiz, cursor, limite) && v in vivas && k * PAGINA == vivas[v].tam
    requires Desmapeado(t, u, raiz, v / PAGINA, k)
    ensures Ventana(vivas - {v}, u, raiz, cursor, limite)
  {
    hide Caminar, PaginaDe, EnTramo, Visibles, NadaMas, Desmapeado;
    RemovedIsGone(vivas, t, u, raiz, cursor, limite, v, k);
    RemovedLeavesOthers(vivas, t, u, raiz, cursor, v, k);
  }

  class Mapeador {
    var cursor: nat
    const tabla: array<Registro>
    var conteo: nat
    const pag: Paginador
    const limite: nat
    ghost var vivas: map<nat, Region>

    /** The registered regions are live, and no two records hold the same one. */
    ghost predicate Registradas()
      reads `vivas, tabla
    {
      && tabla.Length == MAX_MAPEOS
      && (forall i :: 0 <= i < MAX_MAPEOS && tabla[i].activo ==>
            && tabla[i].virt in vivas && tabla[i].tam == vivas[tabla[i].virt].tam && tabla[i].fis == vivas[tabla[i].virt].fis)
      && forall i, j :: 0 <= i < j < MAX_MAPEOS && tabla[i].activo && tabla[j].activo ==> tabla[i].virt != tabla[j].virt
    }

    ghost predicate Valid()
      reads this, tabla, pag, pag.pmm
    {
      && pag.Valid() && Ventana(vivas, pag.tablas, pag.raiz, cursor, limite) && Registradas()
      && (vivas != map[] ==> pag.iniciada)
    }

    constructor (p: Paginador, tope: nat)
      requires p.Valid() && BASE <= tope <= FIN_VIRTUAL
      requires forall n: nat :: BASE <= n * PAGINA < tope ==> Caminar(p.tablas, p.raiz, 4, n) == Ninguna
      ensures Valid() && vivas == map[] && cursor == BASE && conteo == 0 && pag == p
    {
      cursor, conteo, pag, limite := BASE, 0, p, tope;
      tabla := new Registro[MAX_MAPEOS](i => Registro(false, 0, 0, 0));
      vivas := map[];
    }

    /** Unmaps the `k` pages from `virt`. */
    method DesmapearTramo(enCurso: bool, virt: nat, tam: nat)
      requires pag.Valid() && virt % PAGINA == 0 && tam % PAGINA == 0 && pag.iniciada
      requires virt / PAGINA % PAGINAS_VIRTUALES + tam / PAGINA <= PAGINAS_VIRTUALES
      requires forall q: nat :: EnTramo(q, virt / PAGINA, tam / PAGINA) && Caminar(pag.tablas, pag.raiz, 4, q).Final? ==>
                 Caminar(pag.tablas, pag.raiz, 4, q).nivel == 1
      modifies pag`tablas
      ensures pag.Valid()
      ensures enCurso ==> pag.tablas == old(pag.tablas)
      ensures !enCurso ==> Desmapeado(old(pag.tablas), pag.tablas, pag.raiz, virt / PAGINA, tam / PAGINA)
    {
      hide Caminar, Arbol, Encadenada, EnRegla, RangosValidos, EnTramo, UnaPagina, Desmapeado;
      ghost var v := virt / PAGINA;
      NoPages(pag.tablas, pag.raiz, v, 0, 0);
      var q := 0;
      while q < tam
        invariant q % PAGINA == 0 && q <= tam && pag.Valid()
        invariant enCurso ==> pag.tablas == old(pag.tablas)
        invariant !enCurso ==> Desmapeado(old(pag.tablas), pag.tablas, pag.raiz, v, q / PAGINA)
      {
        ghost var k, antes := q / PAGINA, pag.tablas;
        PageOffset(virt, q);
        if !enCurso {
          SmallPageAhead(old(pag.tablas), antes, pag.raiz, v, k, tam / PAGINA);
        } else {
          SmallPageHere(antes, pag.raiz, v, k, tam / PAGINA);
        }
        var r := pag.Desmapear(enCurso, virt + q);
        if !enCurso {
          UnmapNext(old(pag.tablas), antes, pag.tablas, pag.raiz, v, k);
        }
        q := q + PAGINA;
      }
    }

    /** Maps `tam` bytes of pages from `virt` to `fis`; if one fails, unmaps those already mapped. */
    method MapearTramo(enCurso: bool, coordinador: bool, virt: nat, fis: nat, tam: nat, atributos: bv64)
      returns (hecho: bool, quebrado: bool)
      requires pag.Valid() && virt % PAGINA == 0 && tam % PAGINA == 0 && fis % PAGINA == 0 && tam > 0
      requires fis + tam <= FISICO && atributos & MASCARA_DIRECCION == 0
      requires virt / PAGINA % PAGINAS_VIRTUALES + tam / PAGINA <= PAGINAS_VIRTUALES
      requires forall q: nat :: EnTramo(q, virt / PAGINA, tam / PAGINA) ==> Caminar(pag.tablas, pag.raiz, 4, q) == Ninguna
      modifies pag`tablas, pag`nivel, pag.pmm
      ensures pag.Valid() && !quebrado
      ensures hecho ==> pag.iniciada
      ensures hecho ==> Mapeado(old(pag.tablas), pag.tablas, pag.raiz, virt / PAGINA, tam / PAGINA, fis, atributos)
      ensures !hecho ==> MismaTraduccion(old(pag.tablas), pag.tablas, pag.raiz)
      ensures !hecho ==> enCurso || !pag.iniciada || !coordinador || pag.pmm.cadena == [] || RaizGigante(old(pag.tablas), pag.raiz)
    {
      hide RaizGigante, TopaGigante, Caminar, Arbol, Encadenada, EnRegla, RangosValidos, EnTramo, UnaPagina, Mapeado, Desmapeado, MismaTraduccion,
           PaginaDe, SinFugas;
      ghost var v, t0 := virt / PAGINA, pag.tablas;
      NoPages(t0, pag.raiz, v, fis, atributos);
      quebrado := false;
      var p := 0;
      while p < tam
        invariant p % PAGINA == 0 && p <= tam && pag.Valid() && !quebrado
        invariant p > 0 ==> !enCurso && pag.iniciada
        invariant Mapeado(t0, pag.tablas, pag.raiz, v, p / PAGINA, fis, atributos)
        invariant RaizGigante(pag.tablas, pag.raiz) == RaizGigante(t0, pag.raiz)
      {
        ghost var k, antes := p / PAGINA, pag.tablas;
        PageOffset(virt, p);
        NextIsEmpty(t0, antes, pag.raiz, v, k, tam / PAGINA, fis, atributos);
        var r;
        r, quebrado := pag.Mapear(enCurso, coordinador, virt + p, fis + p, atributos);
        if r != 0 {
          MapSame(t0, antes, pag.tablas, pag.raiz, v, k, fis, atributos);
          if p > 0 {
            ghost var t1 := pag.tablas;
            MappedIsSmall(t0, t1, pag.raiz, v, k, tam / PAGINA, fis, atributos);
            DesmapearTramo(enCurso, virt, p);
            FewerPages(t0, pag.raiz, v, k, tam / PAGINA);
            RollbackRestores(t0, t1, pag.tablas, pag.raiz, v, k, fis, atributos);
          } else {
            NothingMapped(t0, pag.tablas, pag.raiz, v, fis, atributos);
          }
          return false, false;
        }
        MapNext(t0, antes, pag.tablas, pag.raiz, v, k, fis, atributos);
        p := p + PAGINA;
      }
      hecho := true;
    }

    /** Takes the first record not in use; a full table leaves the region without one. */
    method Registrar(virt: nat, fis: nat, tam: nat, ghost atributos: bv64)
      requires Registradas() && virt !in vivas
      modifies tabla, `vivas
      ensures Registradas() && vivas == old(vivas)[virt := Region(fis, tam, atributos)]
      ensures tabla[..] == ConRegistro(old(tabla[..]), Registro(true, virt, fis, tam))
    {
      vivas := vivas[virt := Region(fis, tam, atributos)];
      ghost var r := Registro(true, virt, fis, tam);
      var i := 0;
      while i < MAX_MAPEOS
        invariant i <= MAX_MAPEOS && Registradas() && tabla[..] == old(tabla[..])
        invariant vivas == old(vivas)[virt := Region(fis, tam, atributos)]
        invariant forall k :: 0 <= k < i ==> tabla[k].activo
      {
        if !tabla[i].activo {
          tabla[i] := Registro(true, virt, fis, tam);
          RecordAt(old(tabla[..]), r, i);
          return;
        }
        i := i + 1;
      }
      NoRecord(tabla[..], r);
    }

    method Soltar(enCurso: bool, virt: nat, tam: nat)
      requires pag.Valid() && Ventana(vivas, pag.tablas, pag.raiz, cursor, limite) && virt in vivas && tam == vivas[virt].tam
      requires pag.iniciada
      modifies `vivas, pag`tablas
      ensures pag.Valid() && Ventana(vivas, pag.tablas, pag.raiz, cursor, limite)
      ensures enCurso ==> vivas == old(vivas) && pag.tablas == old(pag.tablas)
      ensures !enCurso ==> vivas == old(vivas) - {virt}
                           && Desmapeado(old(pag.tablas), pag.tablas, pag.raiz, virt / PAGINA, tam / PAGINA)
    {
      hide Caminar, Arbol, Encadenada, EnRegla, RangosValidos, EnTramo, Desmapeado, Visibles, NadaMas, PaginaDe;
      ghost var t0 := pag.tablas;
      PageOffset(virt, tam);
      WindowRun(virt, tam / PAGINA);
      LiveIsSmall(vivas, t0, pag.raiz, cursor, limite, virt);
      DesmapearTramo(enCurso, virt, tam);
      if !enCurso {
        RegionRemoved(vivas, t0, pag.tablas, pag.raiz, cursor, limite, virt, tam / PAGINA);
        vivas := vivas - {virt};
      }
    }

    /** Maps a range of device memory at the cursor. On failure nothing has changed: the cursor, the
        live regions and every translation are as before. */
    method Mapear(enCurso: bool, coordinador: bool, offset: nat, size: nat, atributos: bv64)
      returns (r: nat, quebrado: bool)
      requires Valid() && Inicio(offset) + Abarca(offset, size) <= FISICO && atributos & MASCARA_DIRECCION == 0
      requires cursor + Abarca(offset, size) + PAGINA <= limite
      modifies this, tabla, pag`tablas, pag`nivel, pag.pmm
      ensures Valid() && !quebrado
      ensures size == 0 ==> r == 0
      ensures r == 0 ==> vivas == old(vivas) && cursor == old(cursor) && conteo == old(conteo)
                         && tabla[..] == old(tabla[..]) && MismaTraduccion(old(pag.tablas), pag.tablas, pag.raiz)
      ensures r == 0 && size > 0 ==>
                enCurso || !pag.iniciada || !coordinador || pag.pmm.cadena == [] || RaizGigante(old(pag.tablas), pag.raiz)
      ensures r != 0 ==> pag.iniciada && size > 0
      ensures r != 0 ==>
                && r == old(cursor) + offset % PAGINA && conteo == old(conteo) + 1
                && cursor == old(cursor) + Abarca(offset, size) + PAGINA
                && old(cursor) !in old(vivas) && !Registrada(old(tabla[..]), old(cursor))
                && tabla[..] == ConRegistro(old(tabla[..]), Registro(true, old(cursor), Inicio(offset), Abarca(offset, size)))
                && vivas == old(vivas)[old(cursor) := Region(Inicio(offset), Abarca(offset, size), atributos)]
                && Mapeado(old(pag.tablas), pag.tablas, pag.raiz, old(cursor) / PAGINA, Abarca(offset, size) / PAGINA,
                           Inicio(offset), atributos)
    {
      hide RaizGigante, Caminar, Arbol, Encadenada, EnRegla, RangosValidos, EnTramo, Mapeado, MismaTraduccion, Visibles, NadaMas,
           PaginaDe, SinFugas;
      r, quebrado := 0, false;
      NothingRegistered(cursor);
      if size == 0 {
        SameAsItself(pag.tablas, pag.raiz);
        return;
      }
      var fis, dentro, tam := Inicio(offset), offset % PAGINA, Abarca(offset, size);
      var virt := cursor;
      cursor := cursor + tam + PAGINA;
      ghost var t0 := pag.tablas;
      Pages(offset, size);
      EmptyAhead(vivas, t0, pag.raiz, virt, limite, tam / PAGINA);
      WindowRun(virt, tam / PAGINA);
      var hecho;
      hecho, quebrado := MapearTramo(enCurso, coordinador, virt, fis, tam, atributos);
      if !hecho {
        cursor := virt;
        WindowSame(vivas, t0, pag.tablas, pag.raiz, cursor, limite);
        return;
      }
      RegionAdded(vivas, t0, pag.tablas, pag.raiz, virt, limite, tam / PAGINA, fis, atributos);
      Registrar(virt, fis, tam, atributos);
      conteo := conteo + 1;
      r := virt + dentro;
    }

    method BuscarRegistro(virt: nat) returns (i: nat)
      requires tabla.Length == MAX_MAPEOS
      ensures i <= MAX_MAPEOS
      ensures i < MAX_MAPEOS <==> Registrada(tabla[..], virt)
      ensures i < MAX_MAPEOS ==> tabla[i].activo && tabla[i].virt == virt
    {
      i := 0;
      while i < MAX_MAPEOS
        invariant i <= MAX_MAPEOS
        invariant forall j :: 0 <= j < i ==> !(tabla[j].activo && tabla[j].virt == virt)
      {
        if tabla[i].activo && tabla[i].virt == virt {
          assert tabla[..][i] == tabla[i];
          return;
        }
        i := i + 1;
      }
    }

    /** Releases the region that starts at the page of `addr`, if it is registered. Afterwards its
        pages translate to nothing and all others as before. While a batch of work is in course the
        pages stay mapped, though the record is gone. */
    method Desmapear(enCurso: bool, addr: nat)
      requires Valid()
      modifies tabla, `conteo, `vivas, pag`tablas
      ensures Valid()
      ensures addr == 0 || !Registrada(old(tabla[..]), Inicio(addr)) ==>
                vivas == old(vivas) && conteo == old(conteo) && pag.tablas == old(pag.tablas) && tabla[..] == old(tabla[..])
      ensures addr != 0 && Registrada(old(tabla[..]), Inicio(addr)) ==>
                && Inicio(addr) in old(vivas) && !Registrada(tabla[..], Inicio(addr)) && conteo == Max(old(conteo) - 1, 0)
                && (if enCurso then vivas == old(vivas) && pag.tablas == old(pag.tablas)
                    else vivas == old(vivas) - {Inicio(addr)}
                         && Desmapeado(old(pag.tablas), pag.tablas, pag.raiz, Inicio(addr) / PAGINA,
                                       old(vivas)[Inicio(addr)].tam / PAGINA))
      ensures forall v :: v != Inicio(addr) ==> (Registrada(tabla[..], v) <==> Registrada(old(tabla[..]), v))
    {
      hide Caminar, Arbol, Encadenada, EnRegla, RangosValidos, EnTramo, Desmapeado, Visibles, NadaMas, PaginaDe, Ventana,
           Inicio, Registrada;
      if addr == 0 {
        return;
      }
      var virt := Inicio(addr);
      var i := BuscarRegistro(virt);
      if i < MAX_MAPEOS {
        Soltar(enCurso, virt, tabla[i].tam);
        ghost var antes := tabla[..];
        tabla[i] := tabla[i].(activo := false);
        NotRegistered(virt);
        RecordDropped(antes, i);
        conteo := Max(conteo - 1, 0);
      }
    }

    /** Every byte of a mapped range is found at its own physical address, page borders included. */
    method MapearYConsultar(enCurso: bool, coordinador: bool, offset: nat, size: nat, atributos: bv64, k: nat)
      returns (r: nat, fisica: nat, quebrado: bool)
      requires Valid() && Inicio(offset) + Abarca(offset, size) <= FISICO && atributos & MASCARA_DIRECCION == 0
      requires cursor + Abarca(offset, size) + PAGINA <= limite && k < size
      modifies this, tabla, pag`tablas, pag`nivel, pag.pmm
      ensures Valid() && !quebrado
      ensures r != 0 ==> fisica == offset + k
    {
      hide Caminar, Arbol, Encadenada, EnRegla, RangosValidos, EnTramo, Mapeado, Desmapeado, MismaTraduccion, Visibles,
           NadaMas, PaginaDe, SinFugas, Ventana, Registrada, ConRegistro, HayHueco, Registradas, Fisica, Traduccion, Valid;
      ghost var t0, virt := pag.tablas, cursor;
      WindowIsThere();
      Pages(offset, size);
      WindowRun(virt, Abarca(offset, size) / PAGINA);
      r, quebrado := Mapear(enCurso, coordinador, offset, size, atributos);
      PagerIsThere();
      fisica := pag.ObtenerFisica(r + k);
      if r != 0 {
        ByteOfRun(t0, pag.tablas, pag.raiz, virt, offset, size, atributos, k);
      }
    }

    lemma PagerIsThere()
      requires Valid()
      ensures pag.Valid()
    {
    }

    /** A region mapped and released again. It is gone, and every translation and record is as before,
        if and only if a record was free and no batch of work was in course at the release; otherwise
        it stays, mapped and without a record. */
    method MapearYDesmapear(enCurso: bool, coordinador: bool, offset: nat, size: nat, atributos: bv64, despues: bool)
      returns (r: nat, quebrado: bool)
      requires Valid() && Inicio(offset) + Abarca(offset, size) <= FISICO && atributos & MASCARA_DIRECCION == 0
      requires cursor + Abarca(offset, size) + PAGINA <= limite
      modifies this, tabla, pag`tablas, pag`nivel, pag.pmm
      ensures Valid() && !quebrado
      ensures r == 0 ==> vivas == old(vivas) && MismaTraduccion(old(pag.tablas), pag.tablas, pag.raiz)
      ensures r != 0 ==> Inicio(r) !in old(vivas) && !Registrada(tabla[..], Inicio(r))
      ensures r != 0 && HayHueco(old(tabla[..])) && !despues ==>
                vivas == old(vivas) && MismaTraduccion(old(pag.tablas), pag.tablas, pag.raiz)
      ensures r != 0 && !(HayHueco(old(tabla[..])) && !despues) ==>
                && vivas == old(vivas)[Inicio(r) := Region(Inicio(offset), Abarca(offset, size), atributos)]
                && Mapeado(old(pag.tablas), pag.tablas, pag.raiz, Inicio(r) / PAGINA, Abarca(offset, size) / PAGINA,
                           Inicio(offset), atributos)
      ensures forall v :: v != Inicio(r) ==> (Registrada(tabla[..], v) <==> Registrada(old(tabla[..]), v))
    {
      hide Caminar, Arbol, Encadenada, EnRegla, RangosValidos, EnTramo, Mapeado, Desmapeado, MismaTraduccion, Visibles,
           NadaMas, PaginaDe, SinFugas, Ventana, Registrada, ConRegistro, HayHueco, Registradas;
      ghost var t0, tabla0, v, virt := pag.tablas, tabla[..], vivas, cursor;
      WindowIsThere();
      if size > 0 {
        Pages(offset, size);
        EmptyAhead(vivas, t0, pag.raiz, cursor, limite, Abarca(offset, size) / PAGINA);
      }
      r, quebrado := Mapear(enCurso, coordinador, offset, size, atributos);
      if r != 0 {
        Offsets(virt, offset);
        RecordedIff(tabla0, Registro(true, virt, Inicio(offset), Abarca(offset, size)));
        ghost var t1, tabla1 := pag.tablas, tabla[..];
        Desmapear(despues, r);
        if HayHueco(tabla0) && !despues {
          RollbackRestores(t0, t1, pag.tablas, pag.raiz, virt / PAGINA, Abarca(offset, size) / PAGINA, Inicio(offset), atributos);
          assert vivas == v;
        }
      }
    }

    lemma WindowIsThere()
      requires Valid()
      ensures Ventana(vivas, pag.tablas, pag.raiz, cursor, limite) && cursor % PAGINA == 0 && cursor > 0
      ensures BASE <= cursor && limite <= FIN_VIRTUAL
    {
      hide Visibles, NadaMas, Registradas;
    }

    ghost function Retrato(): Foto
      reads this, tabla, pag, pag.pmm
    {
      Foto(cursor, vivas, tabla[..], pag.pmm.cadena, pag.tablas)
    }

    /** Any mappings and releases, each with its effect. What is live without a record stays so through
        all of them, mapped page by page as it was: nothing can release it any more. */
    method Sesion(ordenes: seq<Orden>) returns (rs: seq<nat>, ghost fs: seq<Foto>)
      requires Valid() && Cumplibles(ordenes) && cursor + Gasto(ordenes) <= limite
      modifies this, tabla, pag`tablas, pag`nivel, pag.pmm
      ensures Valid() && |rs| == |ordenes| && |fs| == |rs| + 1 && fs[0] == old(Retrato()) && fs[|rs|] == Retrato()
      ensures forall j :: 0 <= j < |rs| ==> Efecto(pag.raiz, pag.iniciada, ordenes[j], rs[j], fs[j], fs[j + 1])
      ensures forall j, v :: 0 <= j < |fs| && v in old(vivas) && !Registrada(old(tabla[..]), v) ==>
                v in fs[j].vivas && fs[j].vivas[v] == old(vivas)[v] && !Registrada(fs[j].tabla, v)
      ensures forall v, n: nat :: v in old(vivas) && !Registrada(old(tabla[..]), v) && Dentro(v, old(vivas)[v], n) ==>
                Caminar(pag.tablas, pag.raiz, 4, n) == Caminar(old(pag.tablas), pag.raiz, 4, n)
    {
      hide Arbol, Encadenada, EnRegla, RangosValidos, EnTramo, Mapeado, Desmapeado, MismaTraduccion, NadaMas, SinFugas,
           PaginaDe, Caminar, Registrada, ConRegistro, Registradas, Separadas, Dentro, RaizGigante, Efecto;
      rs, fs := [], [Retrato()];
      while |rs| < |ordenes|
        invariant Valid() && |rs| <= |ordenes| && |fs| == |rs| + 1 && fs[0] == old(Retrato()) && fs[|rs|] == Retrato()
        invariant cursor + Gasto(ordenes[|rs|..]) <= limite
        invariant forall j :: 0 <= j < |rs| ==> Efecto(pag.raiz, pag.iniciada, ordenes[j], rs[j], fs[j], fs[j + 1])
        invariant forall j, v :: 0 <= j < |fs| && v in old(vivas) && !Registrada(old(tabla[..]), v) ==>
                    v in fs[j].vivas && fs[j].vivas[v] == old(vivas)[v] && !Registrada(fs[j].tabla, v)
      {
        ghost var f := Retrato();
        var o := ordenes[|rs|];
        assert o in ordenes && ordenes[|rs|..][0] == o && ordenes[|rs|..][1..] == ordenes[|rs| + 1..];
        var r := Cumplir(o);
        assert forall v :: v in old(vivas) && !Registrada(old(tabla[..]), v) ==> v in f.vivas && !Registrada(f.tabla, v);
        rs, fs := rs + [r], fs + [Retrato()];
      }
    }

    /** One mapping or release. */
    method Cumplir(o: Orden) returns (r: nat)
      requires Valid() && Cumplible(o) && cursor + GastoDe(o) <= limite
      modifies this, tabla, pag`tablas, pag`nivel, pag.pmm
      ensures Valid() && Efecto(pag.raiz, pag.iniciada, o, r, old(Retrato()), Retrato()) && cursor <= old(cursor) + GastoDe(o)
      ensures forall v :: v in old(vivas) && !Registrada(old(tabla[..]), v) ==>
                v in vivas && vivas[v] == old(vivas)[v] && !Registrada(tabla[..], v)
    {
      hide Arbol, Encadenada, EnRegla, RangosValidos, EnTramo, Mapeado, Desmapeado, MismaTraduccion, NadaMas, SinFugas, Visibles,
           PaginaDe, Caminar, Registrada, ConRegistro, Registradas, Separadas, RaizGigante, Ventana;
      match o {
        case Mapeo(enCurso, coordinador, offset, size, atributos) =>
          ghost var tabla0 := tabla[..];
          ghost var nuevo := Registro(true, cursor, Inicio(offset), Abarca(offset, size));
          var quebrado;
          r, quebrado := Mapear(enCurso, coordinador, offset, size, atributos);
          if r != 0 {
            RecordedIff(tabla0, nuevo);
          }
        case Liberacion(enCurso, addr) =>
          Desmapear(enCurso, addr);
          r := 0;
      }
    }

    /** No record holds an address that is not live. */
    lemma NothingRegistered(virt: nat)
      requires Registradas()
      ensures virt !in vivas ==> !Registrada(tabla[..], virt)
    {
    }

    lemma NotRegistered(virt: nat)
      requires forall j :: 0 <= j < tabla.Length && tabla[j].activo ==> tabla[j].virt != virt
      ensures !Registrada(tabla[..], virt)
    {
    }
  }

  /** The page an address lies in, by its first address. */
  function Inicio(x: nat): nat {
    x / PAGINA * PAGINA
  }

  function Abarca(offset: nat, size: nat): nat {
    (size + offset % PAGINA + 4095) / PAGINA * PAGINA
  }

  lemma Pages(offset: nat, size: nat)
    requires size > 0
    ensures Abarca(offset, size) > 0 && Abarca(offset, size) % PAGINA == 0
    ensures Abarca(offset, size) / PAGINA * PAGINA == Abarca(offset, size) && Abarca(offset, size) / PAGINA > 0
    ensures Inicio(offset) % PAGINA == 0
  {
  }

  datatype Orden =
    | Mapeo(enCurso: bool, coordinador: bool, offset: nat, size: nat, atributos: bv64)
    | Liberacion(enCurso: bool, addr: nat)

  /** The state that mappings and releases change. */
  datatype Foto = Foto(cursor: nat, vivas: map<nat, Region>, tabla: seq<Registro>, libres: seq<nat>, tablas: Memoria)

  predicate Cumplible(o: Orden) {
    o.Mapeo? ==> Inicio(o.offset) + Abarca(o.offset, o.size) <= FISICO && o.atributos & MASCARA_DIRECCION == 0
  }

  predicate Cumplibles(os: seq<Orden>) {
    forall o :: o in os ==> Cumplible(o)
  }

  /** The addresses of the window that an order may take. */
  function GastoDe(o: Orden): nat {
    if o.Mapeo? then Abarca(o.offset, o.size) + PAGINA else 0
  }

  function Gasto(os: seq<Orden>): nat {
    if os == [] then 0 else GastoDe(os[0]) + Gasto(os[1..])
  }

  /** What one order does, by its result. A mapping fails only for a reason. */
  ghost predicate Efecto(raiz: nat, iniciada: bool, o: Orden, r: nat, f: Foto, g: Foto) {
    match o
    case Mapeo(enCurso, coordinador, offset, size, atributos) =>
      if r == 0 then
        && g.cursor == f.cursor && g.vivas == f.vivas && g.tabla == f.tabla && MismaTraduccion(f.tablas, g.tablas, raiz)
        && (size == 0 || enCurso || !iniciada || !coordinador || g.libres == [] || RaizGigante(f.tablas, raiz))
      else
        && r == f.cursor + offset % PAGINA && g.cursor == f.cursor + Abarca(offset, size) + PAGINA
        && g.vivas == f.vivas[f.cursor := Region(Inicio(offset), Abarca(offset, size), atributos)]
        && g.tabla == ConRegistro(f.tabla, Registro(true, f.cursor, Inicio(offset), Abarca(offset, size)))
        && Mapeado(f.tablas, g.tablas, raiz, f.cursor / PAGINA, Abarca(offset, size) / PAGINA, Inicio(offset), atributos)
    case Liberacion(enCurso, addr) =>
      && r == 0 && g.cursor == f.cursor
      && (if addr == 0 || !Registrada(f.tabla, Inicio(addr)) then
            g.vivas == f.vivas && g.tabla == f.tabla && g.tablas == f.tablas
          else
            && Inicio(addr) in f.vivas && !Registrada(g.tabla, Inicio(addr))
            && (if enCurso then g.vivas == f.vivas && g.tablas == f.tablas
                else g.vivas == f.vivas - {Inicio(addr)}
                     && Desmapeado(f.tablas, g.tablas, raiz, Inicio(addr) / PAGINA, f.vivas[Inicio(addr)].tam / PAGINA)))
      && forall v :: v != Inicio(addr) ==> (Registrada(g.tabla, v) <==> Registrada(f.tabla, v))
  }

  predicate HayHueco(regs: seq<Registro>) {
    exists i :: 0 <= i < |regs| && !regs[i].activo
  }

  /** The table with a record in the first place not in use, if there is one. */
  function ConRegistro(regs: seq<Registro>, r: Registro): (q: seq<Registro>)
    ensures |q| == |regs|
  {
    if regs == [] then []
    else if !regs[0].activo then [r] + regs[1..]
    else [regs[0]] + ConRegistro(regs[1..], r)
  }

  lemma {:induction false} RecordAt(regs: seq<Registro>, r: Registro, i: nat)
    requires i < |regs| && !regs[i].activo && forall k :: 0 <= k < i ==> regs[k].activo
    ensures ConRegistro(regs, r) == regs[i := r]
  {
    if i > 0 {
      RecordAt(regs[1..], r, i - 1);
    }
  }

  lemma {:induction false} NoRecord(regs: seq<Registro>, r: Registro)
    requires forall k :: 0 <= k < |regs| ==> regs[k].activo
    ensures ConRegistro(regs, r) == regs
  {
    if regs != [] {
      NoRecord(regs[1..], r);
    }
  }

  /** A new region has a record if and only if one was free; no other record changes. */
  lemma RecordedIff(regs: seq<Registro>, r: Registro)
    requires r.activo && !Registrada(regs, r.virt)
    ensures Registrada(ConRegistro(regs, r), r.virt) <==> HayHueco(regs)
    ensures forall v :: v != r.virt ==> (Registrada(ConRegistro(regs, r), v) <==> Registrada(regs, v))
  {
    hide ConRegistro;
    if HayHueco(regs) {
      var i := FirstFree(regs);
      RecordAt(regs, r, i);
      var q := regs[i := r];
      assert q[i].activo && q[i].virt == r.virt;
      forall v | v != r.virt ensures Registrada(q, v) <==> Registrada(regs, v) {
        if Registrada(regs, v) {
          var j :| 0 <= j < |regs| && regs[j].activo && regs[j].virt == v;
          assert q[j] == regs[j];
        }
        if Registrada(q, v) {
          var j :| 0 <= j < |q| && q[j].activo && q[j].virt == v;
          assert q[j] == regs[j];
        }
      }
    } else {
      NoRecord(regs, r);
    }
  }

  lemma {:induction false} FirstFree(regs: seq<Registro>) returns (i: nat)
    requires HayHueco(regs)
    ensures i < |regs| && !regs[i].activo && forall k :: 0 <= k < i ==> regs[k].activo
  {
    i := 0;
    while regs[i].activo
      invariant i < |regs| && forall k :: 0 <= k < i ==> regs[k].activo
      decreases |regs| - i
    {
      var w :| 0 <= w < |regs| && !regs[w].activo;
      i := i + 1;
    }
  }

  lemma RecordDropped(regs: seq<Registro>, i: nat)
    requires i < |regs|
    ensures forall v :: v != regs[i].virt ==>
              (Registrada(regs[i := regs[i].(activo := false)], v) <==> Registrada(regs, v))
  {
    var q := regs[i := regs[i].(activo := false)];
    forall v | v != regs[i].virt ensures Registrada(q, v) <==> Registrada(regs, v) {
      if Registrada(regs, v) {
        var j :| 0 <= j < |regs| && regs[j].activo && regs[j].virt == v;
        assert q[j] == regs[j];
      }
    }
  }

  lemma Offsets(virt: nat, offset: nat)
    requires virt % PAGINA == 0
    ensures Inicio(virt + offset % PAGINA) == virt
  {
  }

  /** The page after those already mapped meets a large page in the root only. */
  lemma NextIsEmpty(t: Memoria, u: Memoria, raiz: nat, v: nat, k: nat, n: nat, fis: nat, atributos: bv64)
    requires Mapeado(t, u, raiz, v, k, fis, atributos) && k < n && v % PAGINAS_VIRTUALES + n <= PAGINAS_VIRTUALES
    requires forall q: nat :: EnTramo(q, v, n) ==> Caminar(t, raiz, 4, q) == Ninguna
    ensures TopaGigante(u, raiz, 4, v + k) ==> RaizGigante(u, raiz)
  {
    hide Caminar, RaizGigante, TopaGigante, PaginaDe;
    PageAfter(v, k);
    assert EnTramo(v + k, v, n) && !EnTramo(v + k, v, k);
    if TopaGigante(u, raiz, 4, v + k) {
      LargeIsInRoot(u, raiz, v + k);
    }
  }

  predicate Registrada(regs: seq<Registro>, virt: nat) {
    exists i :: 0 <= i < |regs| && regs[i].activo && regs[i].virt == virt
  }

  lemma MappedIsSmall(t: Memoria, u: Memoria, raiz: nat, v: nat, k: nat, n: nat, fis: nat, atributos: bv64)
    requires Mapeado(t, u, raiz, v, k, fis, atributos) && k <= n
    ensures forall q: nat :: EnTramo(q, v, k) && Caminar(u, raiz, 4, q).Final? ==> Caminar(u, raiz, 4, q).nivel == 1
  {
    hide Caminar;
  }

  lemma LiveIsSmall(vivas: map<nat, Region>, t: Memoria, raiz: nat, cursor: nat, limite: nat, v: nat)
    requires Ventana(vivas, t, raiz, cursor, limite) && v in vivas
    ensures forall q: nat :: EnTramo(q, v / PAGINA, vivas[v].tam / PAGINA) && Caminar(t, raiz, 4, q).Final? ==>
              Caminar(t, raiz, 4, q).nivel == 1
  {
    hide Caminar;
    var p, k := v / PAGINA, vivas[v].tam / PAGINA;
    PageOffset(v, vivas[v].tam);
    WindowRun(v, k);
    forall q: nat | EnTramo(q, p, k) && Caminar(t, raiz, 4, q).Final? ensures Caminar(t, raiz, 4, q).nivel == 1 {
      var j := q % PAGINAS_VIRTUALES - p % PAGINAS_VIRTUALES;
      PageAfter(p, j);
      WalkIsPeriodic(t, raiz, q, p + j);
      assert Dentro(v, vivas[v], p + j);
    }
  }

  lemma FewerPages(t: Memoria, raiz: nat, v: nat, k: nat, n: nat)
    requires k <= n && forall q: nat :: EnTramo(q, v, n) ==> Caminar(t, raiz, 4, q) == Ninguna
    ensures forall q: nat :: EnTramo(q, v, k) ==> Caminar(t, raiz, 4, q) == Ninguna
  {
    hide Caminar;
  }

  lemma NothingMapped(t: Memoria, u: Memoria, raiz: nat, v: nat, fis: nat, atributos: bv64)
    requires Mapeado(t, u, raiz, v, 0, fis, atributos)
    ensures MismaTraduccion(t, u, raiz)
  {
    hide Caminar;
  }

  lemma PageOffset(virt: nat, q: nat)
    requires virt % PAGINA == 0 && q % PAGINA == 0
    ensures (virt + q) / PAGINA == virt / PAGINA + q / PAGINA && (q + PAGINA) / PAGINA == q / PAGINA + 1
    ensures q / PAGINA * PAGINA == q && (virt + q) % PAGINA == 0
  {
  }

  lemma SmallPageHere(t: Memoria, raiz: nat, v: nat, k: nat, n: nat)
    requires k < n && v % PAGINAS_VIRTUALES + n <= PAGINAS_VIRTUALES
    requires forall q: nat :: EnTramo(q, v, n) && Caminar(t, raiz, 4, q).Final? ==> Caminar(t, raiz, 4, q).nivel == 1
    ensures Caminar(t, raiz, 4, v + k).Final? ==> Caminar(t, raiz, 4, v + k).nivel == 1
  {
    hide Caminar;
    PageAfter(v, k);
    assert EnTramo(v + k, v, n);
  }

  lemma SmallPageAhead(t: Memoria, u: Memoria, raiz: nat, v: nat, k: nat, n: nat)
    requires Desmapeado(t, u, raiz, v, k) && k < n && v % PAGINAS_VIRTUALES + n <= PAGINAS_VIRTUALES
    requires forall q: nat :: EnTramo(q, v, n) && Caminar(t, raiz, 4, q).Final? ==> Caminar(t, raiz, 4, q).nivel == 1
    ensures Caminar(u, raiz, 4, v + k).Final? ==> Caminar(u, raiz, 4, v + k).nivel == 1
  {
    hide Caminar;
    PageAfter(v, k);
    assert EnTramo(v + k, v, n);
  }
}
