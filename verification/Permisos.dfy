/** What a page may be used for: a permission holds when every entry of the walk grants it. */
module Permisos {
  import opened Tablas

  datatype Permiso = DeEscritura | DeUsuario

  predicate Concede(banderas: bv64, b: Permiso) {
    banderas & (if b.DeUsuario? then USUARIO else ESCRITURA) != 0
  }

  /** Every entry of the walk, the last included, grants it. */
  predicate Permite(t: Memoria, f: nat, nivel: nat, p: nat, b: Permiso)
    requires nivel > 0
    decreases nivel
  {
    f in t && |t[f]| == ENTRADAS &&
    var w := t[f][Indice(p, nivel)];
    EsPresente(w) && Concede(w.banderas, b) && (Sigue(w, nivel) ==> Permite(t, w.marco, nivel - 1, p, b))
  }

  /** Every entry followed on the way, as far as the way goes, grants it. */
  predicate Camino(t: Memoria, f: nat, nivel: nat, p: nat, b: Permiso)
    requires nivel > 0
    decreases nivel
  {
    if f !in t || |t[f]| != ENTRADAS then true
    else
      var w := t[f][Indice(p, nivel)];
      Sigue(w, nivel) ==> Concede(w.banderas, b) && Camino(t, w.marco, nivel - 1, p, b)
  }

  /** Pages other than `p` may be used as before. */
  ghost predicate PermisosSalvo(t: Memoria, u: Memoria, raiz: nat, p: nat) {
    forall q: nat, b: Permiso :: q % PAGINAS_VIRTUALES != p % PAGINAS_VIRTUALES ==>
      (Permite(u, raiz, 4, q, b) <==> Permite(t, raiz, 4, q, b))
  }

  ghost predicate MismosPermisos(t: Memoria, u: Memoria, raiz: nat) {
    forall q: nat, b: Permiso :: Permite(u, raiz, 4, q, b) <==> Permite(t, raiz, 4, q, b)
  }

  lemma {:induction false} LeafWritePermits(t: Memoria, nivel: map<nat, nat>, raiz: nat, g: nat, f: nat, i: nat,
                                            w: Palabra, q: nat, b: Permiso)
    requires Arbol(t, nivel, raiz) && g in t && f in t && nivel[f] == 1 && i < ENTRADAS
    ensures Permite(Escribir(t, f, i, w), g, nivel[g], q, b) <==>
            if Llegar(t, g, nivel[g], q, 1) == En(f) && Indice(q, 1) == i
            then Camino(t, g, nivel[g], q, b) && EsPresente(w) && Concede(w.banderas, b)
            else Permite(t, g, nivel[g], q, b)
    decreases nivel[g]
  {
    hide Indice, Escribir, Concede, EsPresente;
    var r := Escribir(t, f, i, w);
    if nivel[g] > 1 {
      assert g != f && r[g] == t[g];
      var j := Indice(q, nivel[g]);
      if EsEnlace(t, nivel, g, j) {
        LeafWritePermits(t, nivel, raiz, Destino(t, g, j), f, i, w, q, b);
      }
    }
  }

  /** A leaf write decides what its page may be used for: what the leaf and the way both grant. No other
      page is affected. */
  lemma LeafWriteDecides(t: Memoria, nivel: map<nat, nat>, raiz: nat, p: nat, f: nat, w: Palabra)
    requires Arbol(t, nivel, raiz) && Llegar(t, raiz, 4, p, 1) == En(f) && f in t && nivel[f] == 1
    ensures |t[f]| == ENTRADAS
    ensures var u := Escribir(t, f, Indice(p, 1), w);
            && PermisosSalvo(t, u, raiz, p)
            && forall b: Permiso :: Permite(u, raiz, 4, p, b) <==>
                 Camino(t, raiz, 4, p, b) && EsPresente(w) && Concede(w.banderas, b)
  {
    hide Indice, Escribir, Concede, EsPresente, Permite, Camino, Llegar, Arbol;
    RootIsHere(t, nivel, raiz);
    TableIsWhole(t, nivel, raiz, f);
    var u := Escribir(t, f, Indice(p, 1), w);
    forall q: nat, b: Permiso | q % PAGINAS_VIRTUALES != p % PAGINAS_VIRTUALES
      ensures Permite(u, raiz, 4, q, b) <==> Permite(t, raiz, 4, q, b)
    {
      LeafWritePermits(t, nivel, raiz, raiz, f, Indice(p, 1), w, q, b);
      if Llegar(t, raiz, 4, q, 1) == En(f) && Indice(q, 1) == Indice(p, 1) {
        forall n | 1 <= n <= 4 ensures Indice(p, n) == Indice(q, n) {
          if n > 1 {
            SameTableSameWay(t, nivel, raiz, p, q, 1, n);
          }
        }
        IndicesDeterminePage(p, q);
      }
    }
    forall b: Permiso
      ensures Permite(u, raiz, 4, p, b) <==> Camino(t, raiz, 4, p, b) && EsPresente(w) && Concede(w.banderas, b)
    {
      LeafWritePermits(t, nivel, raiz, raiz, f, Indice(p, 1), w, p, b);
    }
  }

  /** Hanging an empty table permits nothing new, and forbids nothing. */
  lemma {:induction false} HangPermitsNothing(t: Memoria, nivel: map<nat, nat>, raiz: nat, f: nat, i: nat, nuevo: nat,
                                              banderas: bv64, g: nat, q: nat, b: Permiso)
    requires Arbol(t, nivel, raiz) && f in t && nivel[f] > 1 && i < ENTRADAS && nuevo !in t && !EsPresente(t[f][i])
    requires g in t && Sigue(Palabra(nuevo, banderas), nivel[f])
    ensures Permite(Colgar(t, f, i, nuevo, banderas), g, nivel[g], q, b) <==> Permite(t, g, nivel[g], q, b)
    decreases nivel[g]
  {
    hide Indice, Colgar, Concede, EsPresente;
    var r, j := Colgar(t, f, i, nuevo, banderas), Indice(q, nivel[g]);
    if g == f && j == i {
      NothingInEmpty(Indice(q, nivel[f] - 1));
      assert !Permite(r, nuevo, nivel[f] - 1, q, b);
    } else if EsEnlace(t, nivel, g, j) {
      assert r[g][j] == t[g][j];
      HangPermitsNothing(t, nivel, raiz, f, i, nuevo, banderas, Destino(t, g, j), q, b);
    } else {
      assert r[g][j] == t[g][j];
    }
  }

  /** The way of a page goes one entry further, and is granted what it was and what that entry grants. */
  lemma {:induction false} HangExtendsWay(t: Memoria, nivel: map<nat, nat>, raiz: nat, g: nat, f: nat, nuevo: nat,
                                          banderas: bv64, p: nat, b: Permiso)
    requires Arbol(t, nivel, raiz) && f in t && g in t && 1 < nivel[f] <= nivel[g] && nuevo !in t
    requires !EsPresente(t[f][Indice(p, nivel[f])]) && Sigue(Palabra(nuevo, banderas), nivel[f])
    requires Llegar(t, g, nivel[g], p, nivel[f]) == En(f)
    ensures Camino(Colgar(t, f, Indice(p, nivel[f]), nuevo, banderas), g, nivel[g], p, b) <==>
            Camino(t, g, nivel[g], p, b) && Concede(banderas, b)
    decreases nivel[g]
  {
    hide Indice, Colgar, Concede, EsPresente;
    var j := Indice(p, nivel[g]);
    var r := Colgar(t, f, Indice(p, nivel[f]), nuevo, banderas);
    if nivel[g] == nivel[f] {
      assert r[g][j] == Palabra(nuevo, banderas);
      NothingInEmpty(Indice(p, nivel[f] - 1));
      assert Camino(r, nuevo, nivel[f] - 1, p, b);
    } else {
      assert EsEnlace(t, nivel, g, j);
      assert g != f && r[g] == t[g];
      HangExtendsWay(t, nivel, raiz, Destino(t, g, j), f, nuevo, banderas, p, b);
    }
  }

  /** Each entry followed on the way, at whatever level, grants the permission. */
  ghost predicate TodasConceden(t: Memoria, f: nat, n: nat, p: nat, b: Permiso) {
    forall m: nat :: 0 < m <= n && Llegar(t, f, n, p, m).En? ==> ConcedeEn(t, Llegar(t, f, n, p, m).marco, m, p, b)
  }

  /** The way grants exactly what every entry followed on it grants. */
  lemma {:induction false} WayGrantsIff(t: Memoria, f: nat, n: nat, p: nat, b: Permiso)
    requires n > 0
    ensures Camino(t, f, n, p, b) <==> TodasConceden(t, f, n, p, b)
    decreases n
  {
    hide Indice, Concede, EsPresente, TodasConceden;
    if f in t && |t[f]| == ENTRADAS && Sigue(t[f][Indice(p, n)], n) {
      WayGrantsIff(t, t[f][Indice(p, n)].marco, n - 1, p, b);
      AllGrantStep(t, f, n, p, b);
    } else {
      NoneFollowed(t, f, n, p, b);
    }
  }

  lemma AllGrantStep(t: Memoria, f: nat, n: nat, p: nat, b: Permiso)
    requires n > 1 && f in t && |t[f]| == ENTRADAS && Sigue(t[f][Indice(p, n)], n)
    ensures TodasConceden(t, f, n, p, b) <==>
            Concede(t[f][Indice(p, n)].banderas, b) && TodasConceden(t, t[f][Indice(p, n)].marco, n - 1, p, b)
  {
    hide Indice, Concede, EsPresente;
    var g := t[f][Indice(p, n)].marco;
    assert Llegar(t, f, n, p, n) == En(f);
    forall m: nat | 0 < m < n ensures Llegar(t, f, n, p, m) == Llegar(t, g, n - 1, p, m) {
    }
    if Concede(t[f][Indice(p, n)].banderas, b) && TodasConceden(t, g, n - 1, p, b) {
      forall m: nat | 0 < m <= n && Llegar(t, f, n, p, m).En?
        ensures ConcedeEn(t, Llegar(t, f, n, p, m).marco, m, p, b)
      {
        if m < n {
          assert Llegar(t, f, n, p, m) == Llegar(t, g, n - 1, p, m);
        }
      }
    }
    if TodasConceden(t, f, n, p, b) {
      assert ConcedeEn(t, f, n, p, b);
      var k: nat := n - 1;
      forall m: nat | 0 < m <= k && Llegar(t, g, k, p, m).En? ensures ConcedeEn(t, Llegar(t, g, k, p, m).marco, m, p, b) {
        assert Llegar(t, f, n, p, m) == Llegar(t, g, k, p, m);
      }
    }
  }

  lemma NoneFollowed(t: Memoria, f: nat, n: nat, p: nat, b: Permiso)
    requires n > 0 && !(f in t && |t[f]| == ENTRADAS && Sigue(t[f][Indice(p, n)], n))
    ensures TodasConceden(t, f, n, p, b)
  {
    hide Indice, Concede, EsPresente;
    forall m: nat | 0 < m < n ensures Llegar(t, f, n, p, m).Nada? {
    }
  }

  /** The entry of a page in a table, when it is followed, grants the permission. */
  predicate ConcedeEn(t: Memoria, f: nat, n: nat, p: nat, b: Permiso)
    requires n > 0
  {
    f in t && |t[f]| == ENTRADAS && Sigue(t[f][Indice(p, n)], n) ==> Concede(t[f][Indice(p, n)].banderas, b)
  }

  /** A leaf for the user below a table that is the kernel's own, at whatever level, is not for the user. */
  lemma KernelTableForbids(t: Memoria, raiz: nat, p: nat, n: nat, b: Permiso)
    requires 0 < n <= 4 && Llegar(t, raiz, 4, p, n).En? && !ConcedeEn(t, Llegar(t, raiz, 4, p, n).marco, n, p, b)
    ensures !Camino(t, raiz, 4, p, b) && !Permite(t, raiz, 4, p, b)
  {
    hide Indice, Concede, EsPresente, ConcedeEn, Permite, Camino;
    WayGrantsIff(t, raiz, 4, p, b);
    PermittedOnTheWay(t, raiz, 4, p, b);
  }

  lemma {:induction false} PermittedOnTheWay(t: Memoria, f: nat, n: nat, p: nat, b: Permiso)
    requires n > 0
    ensures Permite(t, f, n, p, b) ==> Camino(t, f, n, p, b)
    decreases n
  {
    hide Indice, Concede, EsPresente;
    if f in t && |t[f]| == ENTRADAS && Sigue(t[f][Indice(p, n)], n) {
      PermittedOnTheWay(t, t[f][Indice(p, n)].marco, n - 1, p, b);
    }
  }

  lemma SamePermissions(t: Memoria, raiz: nat)
    ensures MismosPermisos(t, t, raiz)
  {
  }

  lemma ThenPermissions(t: Memoria, u: Memoria, v: Memoria, raiz: nat, p: nat)
    requires MismosPermisos(t, u, raiz)
    ensures MismosPermisos(u, v, raiz) ==> MismosPermisos(t, v, raiz)
    ensures PermisosSalvo(u, v, raiz, p) ==> PermisosSalvo(t, v, raiz, p)
  {
    hide Permite;
  }
}
