/** Four-level page tables as a map from frames to tables: the walk, and what writing one entry does
    to the translation of every address. */
module Tablas {
  import opened Bytes

  const ENTRADAS: nat := 512
  const FISICO: nat := 0x10_0000_0000_0000          // addresses an entry can hold: 52 bits
  const PAGINAS_VIRTUALES: nat := 0x10_0000_0000    // 2^36 pages in the 48 bits the walk reads

  const MASCARA_DIRECCION: bv64 := 0x000F_FFFF_FFFF_F000
  const PRESENTE: bv64 := 1
  const ESCRITURA: bv64 := 2
  const USUARIO: bv64 := 4
  const GIGANTE: bv64 := 0x80

  /** A table entry, split into the bits under the address mask and the others. */
  datatype Palabra = Palabra(marco: nat, banderas: bv64)

  const CERO: Palabra := Palabra(0, 0)

  type Tabla = seq<Palabra>
  type Memoria = map<nat, Tabla>

  /** Splitting is faithful: an address in the mask and flags outside it do not mix when or-ed. */
  lemma WordSplits(fisica: bv64, banderas: bv64)
    requires fisica & MASCARA_DIRECCION == fisica && banderas & MASCARA_DIRECCION == 0
    ensures (fisica | banderas | PRESENTE) & MASCARA_DIRECCION == fisica
    ensures (fisica | banderas | PRESENTE) & !MASCARA_DIRECCION == banderas | PRESENTE
  {
  }

  predicate EsPresente(w: Palabra) { w.banderas & PRESENTE != 0 }

  predicate EsGigante(w: Palabra) { w.banderas & GIGANTE != 0 }

  /** The nine bits of a page number that index the table of a level, 1 being the last. */
  function Indice(p: nat, nivel: nat): (i: nat)
    requires nivel > 0
    ensures i < ENTRADAS
  {
    if nivel == 1 then p % ENTRADAS else Indice(p / ENTRADAS, nivel - 1)
  }

  lemma IndicesDeterminePage(p: nat, q: nat)
    requires forall n :: 1 <= n <= 4 ==> Indice(p, n) == Indice(q, n)
    ensures p % PAGINAS_VIRTUALES == q % PAGINAS_VIRTUALES
  {
    PageFromIndices(p);
    PageFromIndices(q);
    assert Indice(p, 1) == Indice(q, 1) && Indice(p, 2) == Indice(q, 2);
    assert Indice(p, 3) == Indice(q, 3) && Indice(p, 4) == Indice(q, 4);
  }

  lemma PageFromIndices(p: nat)
    ensures p % PAGINAS_VIRTUALES ==
            Indice(p, 1) + 512 * (Indice(p, 2) + 512 * (Indice(p, 3) + 512 * Indice(p, 4)))
  {
    hide Indice;
    IndexSteps(p);
    var a := p / 512;
    var b := a / 512;
    var c := b / 512;
    DigitStep(p, a, 0x800_0000);
    DigitStep(a, b, 0x4_0000);
    DigitStep(b, c, 0x200);
  }

  lemma DigitStep(p: nat, a: nat, m: nat)
    requires a == p / 512 && (m == 0x800_0000 || m == 0x4_0000 || m == 0x200)
    ensures p % (512 * m) == p % 512 + 512 * (a % m)
  {
  }

  lemma IndexSteps(p: nat)
    ensures Indice(p, 1) == p % 512 && Indice(p, 2) == p / 512 % 512
    ensures Indice(p, 3) == p / 512 / 512 % 512 && Indice(p, 4) == p / 512 / 512 / 512 % 512
  {
    assert Indice(p, 4) == Indice(p / 512, 3) == Indice(p / 512 / 512, 2) == Indice(p / 512 / 512 / 512, 1);
    assert Indice(p, 3) == Indice(p / 512, 2) == Indice(p / 512 / 512, 1);
    assert Indice(p, 2) == Indice(p / 512, 1);
  }

  lemma SamePageSameIndices(p: nat, q: nat)
    requires p % PAGINAS_VIRTUALES == q % PAGINAS_VIRTUALES
    ensures forall n :: 1 <= n <= 4 ==> Indice(p, n) == Indice(q, n)
  {
    hide Indice;
    PageFromIndices(p);
    PageFromIndices(q);
    DigitsAreUnique(Indice(p, 1), Indice(p, 2), Indice(p, 3), Indice(p, 4),
                    Indice(q, 1), Indice(q, 2), Indice(q, 3), Indice(q, 4));
    forall n | 1 <= n <= 4 ensures Indice(p, n) == Indice(q, n) {
      if n == 1 {} else if n == 2 {} else if n == 3 {} else {}
    }
  }

  lemma DigitsAreUnique(a: nat, b: nat, c: nat, d: nat, e: nat, f: nat, g: nat, h: nat)
    requires a < 512 && b < 512 && c < 512 && d < 512 && e < 512 && f < 512 && g < 512 && h < 512
    requires a + 512 * (b + 512 * (c + 512 * d)) == e + 512 * (f + 512 * (g + 512 * h))
    ensures a == e && b == f && c == g && d == h
  {
    LastDigit(a, b + 512 * (c + 512 * d), e, f + 512 * (g + 512 * h));
    LastDigit(b, c + 512 * d, f, g + 512 * h);
    LastDigit(c, d, g, h);
  }

  lemma LastDigit(a: nat, x: nat, e: nat, y: nat)
    requires a < 512 && e < 512 && a + 512 * x == e + 512 * y
    ensures a == e && x == y
  {
  }

  // ----- The walk -----

  /** Where a walk ends: nowhere, or at a present entry of the level that maps 4 KiB, 2 MiB or 1 GiB. */
  datatype Hoja = Ninguna | Final(palabra: Palabra, nivel: nat)

  /** Whether an entry of a table of that level is followed to another table. */
  predicate Sigue(w: Palabra, nivel: nat) {
    EsPresente(w) && nivel > 1 && (nivel == 4 || !EsGigante(w))
  }

  function Caminar(t: Memoria, f: nat, nivel: nat, p: nat): (h: Hoja)
    requires nivel > 0
    decreases nivel
  {
    if f !in t || |t[f]| != ENTRADAS then Ninguna
    else
      var w := t[f][Indice(p, nivel)];
      if !EsPresente(w) then Ninguna
      else if Sigue(w, nivel) then Caminar(t, w.marco, nivel - 1, p)
      else Final(w, nivel)
  }

  /** The last table of a walk, if the walk gets there. */
  datatype Paso = Nada | En(marco: nat)

  function Llegar(t: Memoria, f: nat, nivel: nat, p: nat, hasta: nat): (r: Paso)
    requires 0 < hasta <= nivel
    decreases nivel
  {
    if f !in t || |t[f]| != ENTRADAS then Nada
    else if nivel == hasta then En(f)
    else
      var w := t[f][Indice(p, nivel)];
      if Sigue(w, nivel) then Llegar(t, w.marco, nivel - 1, p, hasta) else Nada
  }

  // ----- The tree -----

  /** An entry of a table in the memory that is followed to another table. */
  predicate EsEnlace(t: Memoria, nivel: map<nat, nat>, f: nat, i: nat) {
    f in t && f in nivel && |t[f]| == ENTRADAS && i < ENTRADAS && Sigue(t[f][i], nivel[f])
  }

  function Destino(t: Memoria, f: nat, i: nat): nat {
    if f in t && i < |t[f]| then t[f][i].marco else 0
  }

  /** Tables hang from the root by level, each from one entry only. */
  ghost predicate Arbol(t: Memoria, nivel: map<nat, nat>, raiz: nat) {
    && t.Keys == nivel.Keys && raiz in nivel && nivel[raiz] == 4
    && (forall f :: f in t ==> |t[f]| == ENTRADAS && 1 <= nivel[f] <= 4)
    && (forall f, i: nat :: EsEnlace(t, nivel, f, i) ==>
          Destino(t, f, i) in t && nivel[Destino(t, f, i)] == nivel[f] - 1)
    && forall f, i: nat, g, j: nat ::
         EsEnlace(t, nivel, f, i) && EsEnlace(t, nivel, g, j) && Destino(t, f, i) == Destino(t, g, j) ==>
           f == g && i == j
  }

  /** Reaching a level means having reached the one above, and followed one of its entries. */
  lemma {:induction false} ReachStep(t: Memoria, nivel: map<nat, nat>, raiz: nat, f: nat, p: nat, hasta: nat)
    requires Arbol(t, nivel, raiz) && f in t && 0 < hasta < nivel[f]
    requires Llegar(t, f, nivel[f], p, hasta).En?
    ensures Llegar(t, f, nivel[f], p, hasta + 1).En?
    ensures var g := Llegar(t, f, nivel[f], p, hasta + 1).marco;
            && g in t && nivel[g] == hasta + 1 && EsEnlace(t, nivel, g, Indice(p, hasta + 1))
            && Destino(t, g, Indice(p, hasta + 1)) == Llegar(t, f, nivel[f], p, hasta).marco
    decreases nivel[f]
  {
    hide Indice;
    var i := Indice(p, nivel[f]);
    assert EsEnlace(t, nivel, f, i);
    var h := Destino(t, f, i);
    if nivel[f] > hasta + 1 {
      ReachStep(t, nivel, raiz, h, p, hasta);
    }
  }

  /** Two walks from the root that meet in a table took the same way to it. */
  lemma {:induction false} SameTableSameWay(t: Memoria, nivel: map<nat, nat>, raiz: nat, p: nat, q: nat, hasta: nat, n: nat)
    requires Arbol(t, nivel, raiz) && 0 < hasta < n <= 4
    requires Llegar(t, raiz, 4, p, hasta).En? && Llegar(t, raiz, 4, p, hasta) == Llegar(t, raiz, 4, q, hasta)
    ensures Indice(p, n) == Indice(q, n)
    decreases 4 - hasta
  {
    hide Indice, Llegar, Arbol;
    RootIsHere(t, nivel, raiz);
    ReachStep(t, nivel, raiz, raiz, p, hasta);
    ReachStep(t, nivel, raiz, raiz, q, hasta);
    var g, h := Llegar(t, raiz, 4, p, hasta + 1).marco, Llegar(t, raiz, 4, q, hasta + 1).marco;
    OneParent(t, nivel, raiz, g, Indice(p, hasta + 1), h, Indice(q, hasta + 1));
    if n > hasta + 1 {
      SameTableSameWay(t, nivel, raiz, p, q, hasta + 1, n);
    }
  }

  lemma RootIsHere(t: Memoria, nivel: map<nat, nat>, raiz: nat)
    requires Arbol(t, nivel, raiz)
    ensures raiz in t && raiz in nivel && nivel[raiz] == 4
  {
  }

  lemma OneParent(t: Memoria, nivel: map<nat, nat>, raiz: nat, f: nat, i: nat, g: nat, j: nat)
    requires Arbol(t, nivel, raiz) && EsEnlace(t, nivel, f, i) && EsEnlace(t, nivel, g, j)
    requires Destino(t, f, i) == Destino(t, g, j)
    ensures f == g && i == j
  {
  }

  lemma {:induction false} SameWaySameTable(t: Memoria, f: nat, n: nat, p: nat, q: nat, hasta: nat)
    requires 0 < hasta <= n && forall m :: hasta < m <= n ==> Indice(p, m) == Indice(q, m)
    ensures Llegar(t, f, n, p, hasta) == Llegar(t, f, n, q, hasta)
    decreases n
  {
    hide Indice;
    if f in t && |t[f]| == ENTRADAS && n > hasta {
      assert Indice(p, n) == Indice(q, n);
      var w := t[f][Indice(p, n)];
      if Sigue(w, n) {
        SameWaySameTable(t, w.marco, n - 1, p, q, hasta);
      }
    }
  }

  // ----- Writing a leaf -----

  function Escribir(t: Memoria, f: nat, i: nat, w: Palabra): (r: Memoria)
    requires f in t && i < |t[f]|
    ensures r.Keys == t.Keys && |r[f]| == |t[f]| && r[f][i] == w
    ensures forall g :: g in t && g != f ==> r[g] == t[g]
    ensures forall j :: 0 <= j < |t[f]| && j != i ==> r[f][j] == t[f][j]
  {
    t[f := t[f][i := w]]
  }

  function Como(w: Palabra): Hoja {
    if EsPresente(w) then Final(w, 1) else Ninguna
  }

  lemma LeafWriteKeepsTree(t: Memoria, nivel: map<nat, nat>, raiz: nat, f: nat, i: nat, w: Palabra)
    requires Arbol(t, nivel, raiz) && f in t && nivel[f] == 1 && i < ENTRADAS
    ensures Arbol(Escribir(t, f, i, w), nivel, raiz)
  {
    hide Escribir;
    var r := Escribir(t, f, i, w);
    forall g, j: nat | EsEnlace(r, nivel, g, j) ensures EsEnlace(t, nivel, g, j) && Destino(r, g, j) == Destino(t, g, j) {
      assert g != f;
    }
  }

  /** A leaf write is seen by exactly the walks that reach that table and use that entry. */
  lemma {:induction false} LeafWriteSeen(t: Memoria, nivel: map<nat, nat>, raiz: nat, g: nat, f: nat, i: nat,
                                         w: Palabra, q: nat)
    requires Arbol(t, nivel, raiz) && g in t && f in t && nivel[f] == 1 && i < ENTRADAS
    ensures Caminar(Escribir(t, f, i, w), g, nivel[g], q) ==
            if Llegar(t, g, nivel[g], q, 1) == En(f) && Indice(q, 1) == i then Como(w)
            else Caminar(t, g, nivel[g], q)
    decreases nivel[g]
  {
    hide Indice, Escribir;
    var r := Escribir(t, f, i, w);
    if nivel[g] > 1 {
      assert g != f && r[g] == t[g];
      var j := Indice(q, nivel[g]);
      if EsEnlace(t, nivel, g, j) {
        LeafWriteSeen(t, nivel, raiz, Destino(t, g, j), f, i, w, q);
      }
    }
  }

  /** Writing the leaf that the walk of page `p` ends at changes the translation of that page only. */
  lemma LeafWriteChangesOnePage(t: Memoria, nivel: map<nat, nat>, raiz: nat, p: nat, f: nat, w: Palabra)
    requires Arbol(t, nivel, raiz) && Llegar(t, raiz, 4, p, 1) == En(f) && f in t && nivel[f] == 1
    ensures forall q: nat :: Caminar(Escribir(t, f, Indice(p, 1), w), raiz, 4, q) ==
              if q % PAGINAS_VIRTUALES == p % PAGINAS_VIRTUALES then Como(w) else Caminar(t, raiz, 4, q)
  {
    hide Indice, Escribir, Caminar, Llegar, Arbol;
    RootIsHere(t, nivel, raiz);
    TableIsWhole(t, nivel, raiz, f);
    forall q: nat ensures Caminar(Escribir(t, f, Indice(p, 1), w), raiz, 4, q) ==
                     if q % PAGINAS_VIRTUALES == p % PAGINAS_VIRTUALES then Como(w) else Caminar(t, raiz, 4, q) {
      LeafWriteSeen(t, nivel, raiz, raiz, f, Indice(p, 1), w, q);
      if q % PAGINAS_VIRTUALES == p % PAGINAS_VIRTUALES {
        SamePageSameIndices(p, q);
        SameWaySameTable(t, raiz, 4, p, q, 1);
        assert Indice(q, 1) == Indice(p, 1);
      } else if Llegar(t, raiz, 4, q, 1) == En(f) && Indice(q, 1) == Indice(p, 1) {
        forall n | 1 <= n <= 4 ensures Indice(p, n) == Indice(q, n) {
          if n > 1 {
            SameTableSameWay(t, nivel, raiz, p, q, 1, n);
          }
        }
        IndicesDeterminePage(p, q);
      }
    }
  }

  lemma TableIsWhole(t: Memoria, nivel: map<nat, nat>, raiz: nat, f: nat)
    requires Arbol(t, nivel, raiz) && f in t
    ensures |t[f]| == ENTRADAS && f in nivel && 1 <= nivel[f] <= 4
  {
  }

  // ----- Hanging a new table -----

  function Vacia(): (t: Tabla)
    ensures |t| == ENTRADAS && forall i :: 0 <= i < ENTRADAS ==> t[i] == CERO
  {
    seq(ENTRADAS, i => CERO)
  }

  function Colgar(t: Memoria, f: nat, i: nat, nuevo: nat, banderas: bv64): (r: Memoria)
    requires f in t && i < |t[f]| && nuevo !in t
    ensures r.Keys == t.Keys + {nuevo} && r[nuevo] == Vacia()
    ensures |r[f]| == |t[f]| && r[f][i] == Palabra(nuevo, banderas)
    ensures forall g :: g in t && g != f ==> r[g] == t[g]
    ensures forall j :: 0 <= j < |t[f]| && j != i ==> r[f][j] == t[f][j]
  {
    Escribir(t[nuevo := Vacia()], f, i, Palabra(nuevo, banderas))
  }

  lemma LinkFlags(banderas: bv64)
    ensures var w := Palabra(0, PRESENTE | ESCRITURA | (banderas & USUARIO)); EsPresente(w) && !EsGigante(w)
  {
  }

  lemma NothingInEmpty(i: nat)
    requires i < ENTRADAS
    ensures |Vacia()| == ENTRADAS && !EsPresente(Vacia()[i])
  {
  }

  lemma HangKeepsTree(t: Memoria, nivel: map<nat, nat>, raiz: nat, f: nat, i: nat, nuevo: nat, banderas: bv64)
    requires Arbol(t, nivel, raiz) && f in t && nivel[f] > 1 && i < ENTRADAS && nuevo !in t && !EsPresente(t[f][i])
    ensures Arbol(Colgar(t, f, i, nuevo, banderas), nivel[nuevo := nivel[f] - 1], raiz)
  {
    hide Colgar;
    var r, n := Colgar(t, f, i, nuevo, banderas), nivel[nuevo := nivel[f] - 1];
    assert |Vacia()| == ENTRADAS;
    forall g, j: nat | EsEnlace(r, n, g, j)
      ensures (g == f && j == i && Destino(r, g, j) == nuevo) || (EsEnlace(t, nivel, g, j) && Destino(r, g, j) == Destino(t, g, j))
    {
      if g == nuevo {
        NothingInEmpty(j);
      }
    }
    forall g, j: nat, h, k: nat | EsEnlace(r, n, g, j) && EsEnlace(r, n, h, k) && Destino(r, g, j) == Destino(r, h, k)
      ensures g == h && j == k
    {
    }
  }

  /** A new empty table changes no translation: what ended nowhere there still ends nowhere. */
  lemma {:induction false} HangChangesNothing(t: Memoria, nivel: map<nat, nat>, raiz: nat, f: nat, i: nat, nuevo: nat,
                                              banderas: bv64, g: nat, q: nat)
    requires Arbol(t, nivel, raiz) && f in t && nivel[f] > 1 && i < ENTRADAS && nuevo !in t && !EsPresente(t[f][i])
    requires g in t && Sigue(Palabra(nuevo, banderas), nivel[f])
    ensures Caminar(Colgar(t, f, i, nuevo, banderas), g, nivel[g], q) == Caminar(t, g, nivel[g], q)
    decreases nivel[g]
  {
    hide Indice, Colgar;
    var r, j := Colgar(t, f, i, nuevo, banderas), Indice(q, nivel[g]);
    if g == f && j == i {
      NothingInEmpty(Indice(q, nivel[f] - 1));
      assert Caminar(r, nuevo, nivel[f] - 1, q) == Ninguna;
    } else if EsEnlace(t, nivel, g, j) {
      assert r[g][j] == t[g][j];
      HangChangesNothing(t, nivel, raiz, f, i, nuevo, banderas, Destino(t, g, j), q);
    } else {
      assert r[g][j] == t[g][j];
    }
  }

  /** And a walk that had reached the table it hangs from now reaches it. */
  lemma {:induction false} HangIsReached(t: Memoria, nivel: map<nat, nat>, raiz: nat, g: nat, f: nat, nuevo: nat,
                                         banderas: bv64, p: nat)
    requires Arbol(t, nivel, raiz) && f in t && g in t && 1 < nivel[f] <= nivel[g] && nuevo !in t
    requires !EsPresente(t[f][Indice(p, nivel[f])]) && Sigue(Palabra(nuevo, banderas), nivel[f])
    requires Llegar(t, g, nivel[g], p, nivel[f]) == En(f)
    ensures Llegar(Colgar(t, f, Indice(p, nivel[f]), nuevo, banderas), g, nivel[g], p, nivel[f] - 1) == En(nuevo)
    decreases nivel[g]
  {
    hide Indice, Colgar;
    var j := Indice(p, nivel[g]);
    var r := Colgar(t, f, Indice(p, nivel[f]), nuevo, banderas);
    if nivel[g] == nivel[f] {
      assert r[g][j] == Palabra(nuevo, banderas);
      assert Llegar(r, nuevo, nivel[f] - 1, p, nivel[f] - 1) == En(nuevo) by {
        assert |Vacia()| == ENTRADAS;
      }
    } else {
      assert EsEnlace(t, nivel, g, j);
      assert g != f && r[g] == t[g];
      HangIsReached(t, nivel, raiz, Destino(t, g, j), f, nuevo, banderas, p);
    }
  }

  /** Following an entry of the table reached reaches the next. */
  lemma {:induction false} FollowIsReached(t: Memoria, nivel: map<nat, nat>, raiz: nat, g: nat, f: nat, p: nat)
    requires Arbol(t, nivel, raiz) && f in t && g in t && 1 < nivel[f] <= nivel[g]
    requires Llegar(t, g, nivel[g], p, nivel[f]) == En(f) && EsEnlace(t, nivel, f, Indice(p, nivel[f]))
    ensures var h := Destino(t, f, Indice(p, nivel[f]));
            h in t && nivel[h] == nivel[f] - 1 && Llegar(t, g, nivel[g], p, nivel[f] - 1) == En(h)
    decreases nivel[g]
  {
    hide Indice;
    var j := Indice(p, nivel[g]);
    if nivel[g] > nivel[f] {
      assert EsEnlace(t, nivel, g, j);
      FollowIsReached(t, nivel, raiz, Destino(t, g, j), f, p);
    }
  }

  // ----- Physical addresses -----

  /** The address a translation gives for a virtual address: the page plus the offset within it. */
  function Fisica(h: Hoja, va: nat): nat {
    match h
    case Ninguna => 0
    case Final(w, n) =>
      if n == 1 then w.marco + va % PAGINA
      else if n == 2 then w.marco / 0x20_0000 * 0x20_0000 + va % 0x20_0000
      else w.marco / 0x4000_0000 * 0x4000_0000 + va % 0x4000_0000
  }

  /** The translation, as the walker sees it: only 48 bits of the address count. */
  function Traduccion(t: Memoria, raiz: nat, va: nat): Hoja {
    Caminar(t, raiz, 4, va / PAGINA)
  }
}
