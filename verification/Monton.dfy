/** The kernel heap: block headers chained in place, first-fit allocation with splitting and
    expansion from the frame allocator, freeing with coalescing, reallocation, audit. */
module Monton {
  import opened Arranque
  import opened Bytes
  import opened Bloques
  import opened Marcos

  const CANARIO_INICIO: nat := 0x7AEE_CC05
  const CANARIO_FIN: nat := 0xCAFE_BABE_DEAD_1000
  const EXPANSION_MINIMA: nat := 0x20_0000
  const INTENTOS: nat := 128

  // ----- Memory: headers and data share the address space -----

  datatype Cabecera = Cabecera(inicio: nat, libre: bool, tam: nat, sig: nat, ant: nat, fin: nat)

  predicate Integra(c: Cabecera) {
    c.inicio == CANARIO_INICIO && c.fin == CANARIO_FIN
  }

  /** What is left of the headers once bytes `a .. a + n` have been overwritten. */
  function Pisadas(cab: map<nat, Cabecera>, a: nat, n: nat): (r: map<nat, Cabecera>) {
    map x | x in cab && (x + CABECERA <= a || a + n <= x) :: cab[x]
  }

  function Poner(cab: map<nat, Cabecera>, a: nat, c: Cabecera): (r: map<nat, Cabecera>)
    ensures a in r && r[a] == c
  {
    Pisadas(cab, a, CABECERA)[a := c]
  }

  /** Memory as the clients see it; a header write spoils the bytes under the header. */
  function Borrar(datos: nat -> byte, a: nat): (r: nat -> byte) {
    (x: nat) => if a <= x < a + CABECERA then 0 else datos(x)
  }

  function Copiar(datos: nat -> byte, dst: nat, src: nat, n: nat): (r: nat -> byte) {
    (x: nat) => if dst <= x < dst + n then datos(src + (x - dst)) else datos(x)
  }

  // ----- The chain of headers -----

  function DirEn(l: seq<Bloque>, i: int): nat {
    if 0 <= i < |l| then l[i].dir else 0
  }

  function CabeceraDe(l: seq<Bloque>, i: nat): Cabecera
    requires i < |l|
  {
    Cabecera(CANARIO_INICIO, l[i].libre, l[i].tam, DirEn(l, i + 1), DirEn(l, i - 1), CANARIO_FIN)
  }

  predicate Escrita(cab: map<nat, Cabecera>, l: seq<Bloque>, i: nat)
    requires i < |l|
  {
    l[i].dir in cab && cab[l[i].dir] == CabeceraDe(l, i)
  }

  /** Every block of the list, but those at the positions in `faltan`, has its header in place. */
  predicate EscritasSalvo(cab: map<nat, Cabecera>, l: seq<Bloque>, faltan: set<int>) {
    forall i :: 0 <= i < |l| && i !in faltan ==> Escrita(cab, l, i)
  }

  predicate EnLista(l: seq<Bloque>, a: nat) {
    exists i :: 0 <= i < |l| && l[i].dir == a
  }

  /** Headers that coalescing left behind still read as free blocks. */
  predicate Rancias(cab: map<nat, Cabecera>, l: seq<Bloque>) {
    forall a :: a in cab && !EnLista(l, a) ==> cab[a].libre && Integra(cab[a])
  }

  predicate EnVivo(l: seq<Bloque>, x: nat) {
    exists i :: 0 <= i < |l| && !l[i].libre && Puntero(l[i]) <= x < Fin(l[i])
  }

  lemma DirInList(l: seq<Bloque>, i: nat)
    requires i < |l|
    ensures EnLista(l, l[i].dir)
  {
  }

  lemma WriteOneHeader(cab: map<nat, Cabecera>, l: seq<Bloque>, i: nat, faltan: set<int>)
    requires i < |l| && Disjuntos(l) && EscritasSalvo(cab, l, faltan)
    ensures EscritasSalvo(Poner(cab, l[i].dir, CabeceraDe(l, i)), l, faltan - {i})
  {
    hide CabeceraDe, Disjuntos;
    var r := Poner(cab, l[i].dir, CabeceraDe(l, i));
    forall k | 0 <= k < |l| && k !in faltan - {i} ensures Escrita(r, l, k) {
      if k != i {
        BlocksApart(l, i, k);
        assert Escrita(cab, l, k);
      }
    }
  }

  lemma BlocksApart(l: seq<Bloque>, i: nat, j: nat)
    requires i < |l| && j < |l| && i != j && Disjuntos(l)
    ensures Ajenos(l[i], l[j])
  {
    assert Ajenos(l[if i < j then i else j], l[if i < j then j else i]);
  }

  lemma WriteKeepsStale(cab: map<nat, Cabecera>, l: seq<Bloque>, a: nat, c: Cabecera)
    requires Rancias(cab, l) && EnLista(l, a)
    ensures Rancias(Poner(cab, a, c), l)
  {
    hide EnLista;
  }

  /** Replacing blocks leaves every header right except those put in and the one after them. */
  lemma ChangeLinks(cab: map<nat, Cabecera>, l: seq<Bloque>, i: nat, n: nat, m: seq<Bloque>, faltan: set<int>)
    requires i + n <= |l| && n > 0 && |m| > 0 && m[0].dir == l[i].dir && EscritasSalvo(cab, l, {})
    requires forall k: int :: i <= k < i + |m| ==> k in faltan
    requires i + |m| in faltan || m[|m| - 1].dir == l[i + n - 1].dir
    ensures EscritasSalvo(cab, Cambiar(l, i, n, m), faltan)
  {
    hide Cambiar;
    var r := Cambiar(l, i, n, m);
    assert r[i + 0] == m[0] && r[i + (|m| - 1)] == m[|m| - 1];
    forall k | 0 <= k < |r| && k !in faltan ensures Escrita(cab, r, k) {
      var o := if k < i then k else k - |m| + n;
      assert r[k] == l[o] && Escrita(cab, l, o);
      assert DirEn(r, k + 1) == DirEn(l, o + 1);
      assert DirEn(r, k - 1) == DirEn(l, o - 1);
    }
  }

  lemma HeaderSparesLive(l: seq<Bloque>, j: nat, a: nat, datos: nat -> byte)
    requires Disjuntos(l) && j < |l|
    requires a == l[j].dir || (l[j].libre && l[j].dir <= a && a + CABECERA <= Fin(l[j]))
    ensures forall x: nat :: EnVivo(l, x) ==> Borrar(datos, a)(x) == datos(x)
  {
    hide Disjuntos;
    forall x: nat | EnVivo(l, x) ensures Borrar(datos, a)(x) == datos(x) {
      var i :| 0 <= i < |l| && !l[i].libre && Puntero(l[i]) <= x < Fin(l[i]);
      if i != j {
        BlocksApart(l, i, j);
      }
    }
  }

  lemma StaleAfterChange(cab: map<nat, Cabecera>, l: seq<Bloque>, r: seq<Bloque>)
    requires Rancias(cab, l)
    requires forall a :: EnLista(l, a) && a in cab ==> EnLista(r, a) || (cab[a].libre && Integra(cab[a]))
    ensures Rancias(cab, r)
  {
    hide EnLista;
  }

  lemma ChangeKeepsDirs(l: seq<Bloque>, i: nat, n: nat, m: seq<Bloque>, a: nat)
    requires i + n <= |l| && n > 0 && |m| > 0 && m[0].dir == l[i].dir
    requires EnLista(l, a) && forall k :: i < k < i + n ==> l[k].dir != a
    ensures EnLista(Cambiar(l, i, n, m), a)
  {
    hide Cambiar;
    var r := Cambiar(l, i, n, m);
    var k :| 0 <= k < |l| && l[k].dir == a;
    if k < i {
      assert r[k] == l[k];
    } else if k == i {
      assert r[i + 0] == m[0];
    } else {
      assert r[k - n + |m|] == l[k];
    }
  }

  lemma TakeKeepsStale(cab: map<nat, Cabecera>, l: seq<Bloque>, i: nat, bytes: nat)
    requires Rancias(cab, l) && i < |l| && Cabe(l[i], bytes)
    ensures Rancias(cab, Tomar(l, i, bytes))
  {
    hide EnLista, Cambiar;
    forall a | EnLista(l, a) ensures EnLista(Tomar(l, i, bytes), a) {
      ChangeKeepsDirs(l, i, 1, Partir(l[i], bytes), a);
    }
    StaleAfterChange(cab, l, Tomar(l, i, bytes));
  }

  lemma ListedIsNotNull(l: seq<Bloque>, i: nat)
    requires i < |l| && Alineados(l)
    ensures DirEn(l, i) != 0
  {
    assert Alineado(l[i]);
  }

  lemma PutKeepsApart(cab: map<nat, Cabecera>, a: nat, c: Cabecera, b: nat)
    requires b in cab && (b + CABECERA <= a || a + CABECERA <= b)
    ensures b in Poner(cab, a, c) && Poner(cab, a, c)[b] == cab[b]
  {
  }

  lemma PutTwice(cab: map<nat, Cabecera>, a: nat, c: Cabecera, d: Cabecera)
    ensures Poner(Poner(cab, a, c), a, d) == Poner(cab, a, d)
  {
  }

  /** Where a list is right but for block `i`, rewriting that header twice is rewriting it once. */
  lemma FinishHeader(cab: map<nat, Cabecera>, l: seq<Bloque>, i: nat)
    requires i < |l| && Disjuntos(l) && EscritasSalvo(cab, l, {i}) && Rancias(cab, l)
    ensures EscritasSalvo(Poner(cab, l[i].dir, CabeceraDe(l, i)), l, {})
    ensures Rancias(Poner(cab, l[i].dir, CabeceraDe(l, i)), l)
  {
    hide Fundir, Disjuntos, EscritasSalvo, CabeceraDe, Rancias, Poner, EnLista;
    WriteOneHeader(cab, l, i, {i});
    assert {i} - {i as int} == {};
    DirInList(l, i);
    WriteKeepsStale(cab, l, l[i].dir, CabeceraDe(l, i));
  }

  /** The first header a split writes: that of the rest. */
  lemma SplitWritesRest(cab: map<nat, Cabecera>, l: seq<Bloque>, i: nat, bytes: nat)
    requires Disjuntos(l) && Alineados(l) && EscritasSalvo(cab, l, {}) && Rancias(cab, l)
    requires i < |l| && Cabe(l[i], bytes) && bytes > 0 && bytes % 16 == 0 && l[i].tam >= bytes + CABECERA + 32
    ensures var r := Tomar(l, i, bytes); var c := Poner(cab, r[i + 1].dir, CabeceraDe(r, i + 1));
            && EscritasSalvo(c, r, {i, i + 2}) && Rancias(c, r)
            && l[i].dir in c && c[l[i].dir] == CabeceraDe(l, i)
            && (i + 1 < |l| ==> l[i + 1].dir in c && c[l[i + 1].dir] == CabeceraDe(l, i + 1))
  {
    hide Fundir, Disjuntos, EscritasSalvo, Rancias, EnLista, Poner, Cambiar, Alineados, Tomar, CabeceraDe;
    var r := Tomar(l, i, bytes);
    TakeKeepsLayout(l, i, bytes);
    TakeKeepsStale(cab, l, i, bytes);
    SplitHeaders(l, i, bytes);
    TakeLinks(cab, l, i, bytes);
    WriteOneHeader(cab, r, i + 1, {i, i + 1, i + 2});
    assert {i, i + 1, i + 2} - {i + 1 as int} == {i as int, i + 2};
    DirInList(r, i + 1);
    WriteKeepsStale(cab, r, r[i + 1].dir, CabeceraDe(r, i + 1));
    Written(cab, l, i);
    BlocksApart(r, i, i + 1);
    PutKeepsApart(cab, r[i + 1].dir, CabeceraDe(r, i + 1), l[i].dir);
    if i + 1 < |l| {
      BlocksApart(r, i + 1, i + 2);
      Written(cab, l, i + 1);
      PutKeepsApart(cab, r[i + 1].dir, CabeceraDe(r, i + 1), l[i + 1].dir);
    }
  }

  lemma TakeLinks(cab: map<nat, Cabecera>, l: seq<Bloque>, i: nat, bytes: nat)
    requires i < |l| && Cabe(l[i], bytes) && l[i].tam >= bytes + CABECERA + 32 && EscritasSalvo(cab, l, {})
    ensures EscritasSalvo(cab, Tomar(l, i, bytes), {i, i + 1, i + 2})
  {
    hide EscritasSalvo, Cambiar;
    ChangeLinks(cab, l, i, 1, Partir(l[i], bytes), {i, i + 1, i + 2});
  }

  /** The second: the back link of the block after it, if there is one. */
  lemma SplitWritesNext(c: map<nat, Cabecera>, l: seq<Bloque>, i: nat, bytes: nat)
    requires Disjuntos(l) && Alineados(l)
    requires i + 1 < |l| && Cabe(l[i], bytes) && bytes > 0 && bytes % 16 == 0 && l[i].tam >= bytes + CABECERA + 32
    requires EscritasSalvo(c, Tomar(l, i, bytes), {i, i + 2}) && Rancias(c, Tomar(l, i, bytes))
    requires l[i].dir in c && c[l[i].dir] == CabeceraDe(l, i)
    ensures var d := Poner(c, l[i + 1].dir, CabeceraDe(l, i + 1).(ant := l[i].dir + CABECERA + bytes));
            && EscritasSalvo(d, Tomar(l, i, bytes), {i}) && Rancias(d, Tomar(l, i, bytes))
            && l[i].dir in d && d[l[i].dir] == CabeceraDe(l, i)
  {
    hide Fundir, Disjuntos, EscritasSalvo, Rancias, EnLista, Poner, Cambiar, Alineados, Tomar, CabeceraDe;
    var r := Tomar(l, i, bytes);
    TakeKeepsLayout(l, i, bytes);
    SplitHeaders(l, i, bytes);
    WriteOneHeader(c, r, i + 2, {i, i + 2});
    assert {i, i + 2} - {i + 2 as int} == {i as int};
    DirInList(r, i + 2);
    WriteKeepsStale(c, r, l[i + 1].dir, CabeceraDe(r, i + 2));
    BlocksApart(r, i, i + 2);
    PutKeepsApart(c, l[i + 1].dir, CabeceraDe(r, i + 2), l[i].dir);
  }

  lemma SplitHeaders(l: seq<Bloque>, i: nat, bytes: nat)
    requires i < |l| && Cabe(l[i], bytes) && l[i].tam >= bytes + CABECERA + 32
    ensures var r := Tomar(l, i, bytes);
            && |r| == |l| + 1 && r[i].dir == l[i].dir && r[i + 1].dir == l[i].dir + CABECERA + bytes
            && (i + 1 < |l| ==> r[i + 2] == l[i + 1])
            && CabeceraDe(r, i + 1) == Cabecera(CANARIO_INICIO, true, CabeceraDe(l, i).tam - bytes - CABECERA,
                                                CabeceraDe(l, i).sig, l[i].dir, CANARIO_FIN)
            && CabeceraDe(r, i) == CabeceraDe(l, i).(sig := r[i + 1].dir, tam := bytes, libre := false)
            && (i + 1 < |l| ==> CabeceraDe(r, i + 2) == CabeceraDe(l, i + 1).(ant := r[i + 1].dir))
    ensures CabeceraDe(l, i).tam == l[i].tam && CabeceraDe(l, i).sig == DirEn(l, i + 1)
  {
    hide Cambiar;
    var r, q := Tomar(l, i, bytes), Partir(l[i], bytes);
    assert r[i + 0] == q[0] && r[i + 1] == q[1];
    assert i + 1 < |l| ==> r[i + 2] == l[i + 1];
    assert i + 2 < |l| ==> r[i + 3] == l[i + 2];
    assert i > 0 ==> r[i - 1] == l[i - 1];
  }

  lemma WholeHeader(l: seq<Bloque>, i: nat, bytes: nat)
    requires i < |l| && Cabe(l[i], bytes) && l[i].tam < bytes + CABECERA + 32
    ensures var r := Tomar(l, i, bytes);
            && |r| == |l| && r[i].dir == l[i].dir && CabeceraDe(r, i) == CabeceraDe(l, i).(libre := false)
            && Partir(l[i], bytes) == [l[i].(libre := false)]
  {
    hide Cambiar;
    var r, q := Tomar(l, i, bytes), Partir(l[i], bytes);
    assert r[i + 0] == q[0];
    assert i + 1 < |l| ==> r[i + 1] == l[i + 1];
    assert i > 0 ==> r[i - 1] == l[i - 1];
  }

  lemma Written(cab: map<nat, Cabecera>, l: seq<Bloque>, i: nat)
    requires i < |l| && EscritasSalvo(cab, l, {})
    ensures l[i].dir in cab && cab[l[i].dir] == CabeceraDe(l, i)
  {
    assert Escrita(cab, l, i);
  }

  lemma LinkedUnlessLast(l: seq<Bloque>, i: nat)
    requires i < |l| && Alineados(l)
    ensures CabeceraDe(l, i).sig == 0 <==> i + 1 == |l|
  {
    if i + 1 < |l| {
      assert Alineado(l[i + 1]);
    }
  }

  lemma LackingPastTheEnd(cab: map<nat, Cabecera>, l: seq<Bloque>, s: set<int>, t: set<int>)
    requires EscritasSalvo(cab, l, s) && forall k :: k in s && k < |l| ==> k in t
    ensures EscritasSalvo(cab, l, t)
  {
  }

  lemma SplitEnd(cab: map<nat, Cabecera>, l: seq<Bloque>, i: nat, bytes: nat)
    requires Disjuntos(l) && Alineados(l) && i < |l| && Cabe(l[i], bytes) && bytes > 0 && bytes % 16 == 0
    requires l[i].tam >= bytes + CABECERA + 32
    requires EscritasSalvo(cab, Tomar(l, i, bytes), {i}) && Rancias(cab, Tomar(l, i, bytes))
    ensures var h := CabeceraDe(l, i).(sig := l[i].dir + CABECERA + bytes, tam := bytes);
            var c := Poner(Poner(cab, l[i].dir, h), l[i].dir, h.(libre := false));
            EscritasSalvo(c, Tomar(l, i, bytes), {}) && Rancias(c, Tomar(l, i, bytes))
  {
    hide Fundir, Disjuntos, EscritasSalvo, Rancias, EnLista, Poner, Tomar, Alineados, CabeceraDe;
    var h := CabeceraDe(l, i).(sig := l[i].dir + CABECERA + bytes, tam := bytes);
    TakeKeepsLayout(l, i, bytes);
    SplitHeaders(l, i, bytes);
    PutTwice(cab, l[i].dir, h, h.(libre := false));
    FinishHeader(cab, Tomar(l, i, bytes), i);
  }

  lemma WholeWrites(cab: map<nat, Cabecera>, l: seq<Bloque>, i: nat, bytes: nat)
    requires Disjuntos(l) && Alineados(l) && EscritasSalvo(cab, l, {}) && Rancias(cab, l)
    requires i < |l| && Cabe(l[i], bytes) && bytes > 0 && bytes % 16 == 0 && l[i].tam < bytes + CABECERA + 32
    ensures var r := Tomar(l, i, bytes); var c := Poner(cab, l[i].dir, CabeceraDe(l, i).(libre := false));
            EscritasSalvo(c, r, {}) && Rancias(c, r)
  {
    hide Fundir, Disjuntos, EscritasSalvo, Rancias, EnLista, Poner, Cambiar, Alineados, CabeceraDe, Partir;
    var r := Tomar(l, i, bytes);
    TakeKeepsLayout(l, i, bytes);
    WholeHeader(l, i, bytes);
    ChangeLinks(cab, l, i, 1, [l[i].(libre := false)], {i});
    TakeKeepsStale(cab, l, i, bytes);
    FinishHeader(cab, r, i);
  }

  lemma TakenHead(l: seq<Bloque>, i: nat, bytes: nat)
    requires i < |l| && Cabe(l[i], bytes)
    ensures DirEn(Tomar(l, i, bytes), 0) == DirEn(l, 0)
    ensures Partir(l[i], bytes)[0].tam == if l[i].tam >= bytes + CABECERA + 32 then bytes else l[i].tam
  {
    hide Cambiar;
    var r, q := Tomar(l, i, bytes), Partir(l[i], bytes);
    assert r[i + 0] == q[0];
    assert i > 0 ==> r[0] == l[0];
  }

  // ----- Coalescing and arenas, header by header -----

  lemma MergedHeaders(l: seq<Bloque>, i: nat)
    requires TocanLibres(l, i)
    ensures var r := Unir(l, i);
            && |r| == |l| - 1 && r[i].dir == l[i].dir && DirEn(r, 0) == DirEn(l, 0)
            && CabeceraDe(r, i) == CabeceraDe(l, i).(tam := l[i].tam + CABECERA + l[i + 1].tam, sig := DirEn(l, i + 2))
            && (i + 2 < |l| ==> r[i + 1] == l[i + 2] && CabeceraDe(r, i + 1) == CabeceraDe(l, i + 2).(ant := l[i].dir))
  {
    hide Cambiar;
    var r, m := Unir(l, i), [Fusion(l[i], l[i + 1])];
    assert r == Cambiar(l, i, 2, m) && m[0] == Fusion(l[i], l[i + 1]);
    assert r[i + 0] == m[0];
    assert i + 2 < |l| ==> r[i + 1] == l[i + 2];
    assert i + 3 < |l| ==> r[i + 2] == l[i + 3];
    assert i > 0 ==> r[i - 1] == l[i - 1] && r[0] == l[0];
  }

  lemma MergeLinks(cab: map<nat, Cabecera>, l: seq<Bloque>, i: nat)
    requires TocanLibres(l, i) && EscritasSalvo(cab, l, {}) && Rancias(cab, l)
    ensures EscritasSalvo(cab, Unir(l, i), {i, i + 1}) && Rancias(cab, Unir(l, i))
  {
    hide EscritasSalvo, Rancias, EnLista, Cambiar, CabeceraDe;
    var m := [Fusion(l[i], l[i + 1])];
    ChangeLinks(cab, l, i, 2, m, {i, i + 1});
    forall a | EnLista(l, a) && a in cab
      ensures EnLista(Unir(l, i), a) || (cab[a].libre && Integra(cab[a]))
    {
      if a == l[i + 1].dir {
        Written(cab, l, i + 1);
        FieldsOfHeader(l, i + 1);
      } else {
        ChangeKeepsDirs(l, i, 2, m, a);
      }
    }
    StaleAfterChange(cab, l, Unir(l, i));
  }

  lemma FieldsOfHeader(l: seq<Bloque>, i: nat)
    requires i < |l|
    ensures CabeceraDe(l, i).libre == l[i].libre && CabeceraDe(l, i).tam == l[i].tam && Integra(CabeceraDe(l, i))
    ensures CabeceraDe(l, i).sig == DirEn(l, i + 1) && CabeceraDe(l, i).ant == DirEn(l, i - 1)
  {
  }

  /** The block itself swallows the next one. */
  lemma MergeWritesBlock(cab: map<nat, Cabecera>, l: seq<Bloque>, i: nat)
    requires Disjuntos(l) && Alineados(l) && EscritasSalvo(cab, l, {}) && Rancias(cab, l) && TocanLibres(l, i)
    ensures var r := Unir(l, i);
            var c := Poner(cab, l[i].dir,
                           CabeceraDe(l, i).(tam := l[i].tam + CABECERA + l[i + 1].tam, sig := DirEn(l, i + 2)));
            && EscritasSalvo(c, r, {i + 1}) && Rancias(c, r)
            && (i + 2 < |l| ==> l[i + 2].dir in c && c[l[i + 2].dir] == CabeceraDe(l, i + 2))
  {
    hide Fundir, Disjuntos, EscritasSalvo, Rancias, EnLista, Poner, Unir, Alineados, CabeceraDe;
    var r := Unir(l, i);
    MergeKeepsLayout(l, i);
    MergedHeaders(l, i);
    MergeLinks(cab, l, i);
    WriteOneHeader(cab, r, i, {i, i + 1});
    assert {i, i + 1} - {i as int} == {i as int + 1};
    DirInList(r, i);
    WriteKeepsStale(cab, r, l[i].dir, CabeceraDe(r, i));
    if i + 2 < |l| {
      Written(cab, l, i + 2);
      BlocksApart(l, i, i + 2);
      PutKeepsApart(cab, l[i].dir, CabeceraDe(r, i), l[i + 2].dir);
    }
  }

  /** And the block after that is linked back to it. */
  lemma MergeWritesNext(c: map<nat, Cabecera>, l: seq<Bloque>, i: nat)
    requires Disjuntos(l) && Alineados(l) && TocanLibres(l, i) && i + 2 < |l|
    requires EscritasSalvo(c, Unir(l, i), {i + 1}) && Rancias(c, Unir(l, i))
    ensures var d := Poner(c, l[i + 2].dir, CabeceraDe(l, i + 2).(ant := l[i].dir));
            EscritasSalvo(d, Unir(l, i), {}) && Rancias(d, Unir(l, i))
  {
    hide Fundir, Disjuntos, EscritasSalvo, Rancias, EnLista, Poner, Unir, Alineados, CabeceraDe;
    MergeKeepsLayout(l, i);
    MergedHeaders(l, i);
    FinishHeader(c, Unir(l, i), i + 1);
  }

  lemma FreeWrites(cab: map<nat, Cabecera>, l: seq<Bloque>, i: nat)
    requires Disjuntos(l) && Alineados(l) && EscritasSalvo(cab, l, {}) && Rancias(cab, l) && i < |l|
    ensures var r := Desocupar(l, i); var c := Poner(cab, l[i].dir, CabeceraDe(l, i).(libre := true));
            && |r| == |l| && DirEn(r, 0) == DirEn(l, 0) && EscritasSalvo(c, r, {}) && Rancias(c, r)
  {
    hide Fundir, Disjuntos, EscritasSalvo, Rancias, EnLista, Poner, Cambiar, Alineados, CabeceraDe;
    var r, m := Desocupar(l, i), [l[i].(libre := true)];
    FreeKeepsLayout(l, i);
    ChangeLinks(cab, l, i, 1, m, {i});
    FreedHeader(l, i);
    forall a | EnLista(l, a) ensures EnLista(r, a) {
      ChangeKeepsDirs(l, i, 1, m, a);
    }
    StaleAfterChange(cab, l, r);
    FinishHeader(cab, r, i);
  }

  lemma FreedHeader(l: seq<Bloque>, i: nat)
    requires i < |l|
    ensures var r := Desocupar(l, i);
            && r[i].dir == l[i].dir && r[i].libre && r[i].tam == l[i].tam
            && CabeceraDe(r, i) == CabeceraDe(l, i).(libre := true) && DirEn(r, 0) == DirEn(l, 0)
            && DirEn(r, i - 1) == DirEn(l, i - 1) && DirEn(r, i + 1) == DirEn(l, i + 1)
  {
    hide Cambiar;
    var r, m := Desocupar(l, i), [l[i].(libre := true)];
    assert r[i + 0] == m[0];
    assert i + 1 < |l| ==> r[i + 1] == l[i + 1];
    assert i > 0 ==> r[i - 1] == l[i - 1] && r[0] == l[0];
  }

  lemma AppendLinks(cab: map<nat, Cabecera>, l: seq<Bloque>, b: Bloque, c: Cabecera)
    requires EscritasSalvo(cab, l, {}) && Rancias(cab, l) && forall i :: 0 <= i < |l| ==> Ajenos(l[i], b)
    ensures EscritasSalvo(Poner(cab, b.dir, c), l, {})
    ensures EscritasSalvo(Poner(cab, b.dir, c), l + [b], {|l| - 1, |l|}) && Rancias(Poner(cab, b.dir, c), l + [b])
  {
    hide Rancias, EnLista, CabeceraDe;
    var d, r := Poner(cab, b.dir, c), l + [b];
    forall i | 0 <= i < |l| ensures Escrita(d, l, i) {
      assert Escrita(cab, l, i) && Ajenos(l[i], b);
    }
    forall i | 0 <= i < |r| && i !in {|l| - 1, |l|} ensures Escrita(d, r, i) {
      assert r[i] == l[i] && r[i + 1] == l[i + 1] && (i > 0 ==> r[i - 1] == l[i - 1]);
      assert Escrita(d, l, i);
      HeadersAgree(l, r, i);
    }
    forall a | EnLista(l, a) ensures EnLista(r, a) {
      PrefixInList(l, b, a);
    }
    StaleAfterChange(cab, l, r);
    DirInList(r, |l|);
    WriteKeepsStale(cab, r, b.dir, c);
  }

  lemma HeadersAgree(l: seq<Bloque>, r: seq<Bloque>, i: nat)
    requires i < |l| && i < |r| && l[i] == r[i] && DirEn(l, i + 1) == DirEn(r, i + 1) && DirEn(l, i - 1) == DirEn(r, i - 1)
    ensures CabeceraDe(l, i) == CabeceraDe(r, i)
  {
  }

  lemma PrefixInList(l: seq<Bloque>, b: Bloque, a: nat)
    requires EnLista(l, a)
    ensures EnLista(l + [b], a)
  {
    var i :| 0 <= i < |l| && l[i].dir == a;
    assert (l + [b])[i] == l[i];
  }

  /** The two writes that link a new last block to the one before it. */
  lemma AppendWrites(cab: map<nat, Cabecera>, l: seq<Bloque>, b: Bloque)
    requires Disjuntos(l + [b]) && l != [] && EscritasSalvo(cab, l, {})
    requires EscritasSalvo(cab, l + [b], {|l| - 1, |l|}) && Rancias(cab, l + [b])
    requires b.libre && b.dir in cab && cab[b.dir] == Cabecera(CANARIO_INICIO, true, b.tam, 0, 0, CANARIO_FIN)
    ensures var u := l[|l| - 1].dir;
            && u in cab
            && var c := Poner(cab, u, cab[u].(sig := b.dir));
            && b.dir in c
            && var d := Poner(c, b.dir, c[b.dir].(ant := u));
            EscritasSalvo(d, l + [b], {}) && Rancias(d, l + [b])
  {
    hide Fundir, Disjuntos, EscritasSalvo, Rancias, EnLista, Poner;
    var r, n := l + [b], |l|;
    var u := l[n - 1].dir;
    Written(cab, l, n - 1);
    assert r[n - 1] == l[n - 1] && r[n] == b && DirEn(r, n - 2) == DirEn(l, n - 2);
    var c := Poner(cab, u, cab[u].(sig := b.dir));
    assert cab[u].(sig := b.dir) == CabeceraDe(r, n - 1);
    WriteOneHeader(cab, r, n - 1, {n - 1, n});
    assert {n - 1, n} - {n - 1} == {n as int};
    DirInList(r, n - 1);
    WriteKeepsStale(cab, r, u, CabeceraDe(r, n - 1));
    BlocksApart(r, n - 1, n);
    PutKeepsApart(cab, u, CabeceraDe(r, n - 1), b.dir);
    assert c[b.dir].(ant := u) == CabeceraDe(r, n);
    FinishHeader(c, r, n);
  }

  lemma OnlyBlock(cab: map<nat, Cabecera>, b: Bloque)
    requires b.libre && b.dir in cab && cab[b.dir] == Cabecera(CANARIO_INICIO, true, b.tam, 0, 0, CANARIO_FIN)
    ensures EscritasSalvo(cab, [b], {})
  {
    assert forall i :: 0 <= i < |[b]| ==> Escrita(cab, [b], i);
  }

  lemma AppendSparesLive(l: seq<Bloque>, b: Bloque, datos: nat -> byte, j: nat)
    requires Disjuntos(l + [b]) && b.libre && j <= |l|
    ensures forall x: nat :: EnVivo(l, x) ==> Borrar(datos, (l + [b])[j].dir)(x) == datos(x)
  {
    hide Disjuntos;
    var r := l + [b];
    HeaderSparesLive(r, j, r[j].dir, datos);
    forall x: nat | EnVivo(l, x) ensures EnVivo(r, x) {
      var i :| 0 <= i < |l| && !l[i].libre && Puntero(l[i]) <= x < Fin(l[i]);
      assert r[i] == l[i];
    }
  }

  lemma MergeSparesLive(l: seq<Bloque>, i: int)
    ensures forall x: nat :: EnVivo(Unir(l, i), x) ==> EnVivo(l, x)
  {
    hide Cambiar;
    var r := Unir(l, i);
    if TocanLibres(l, i) {
      var m := [Fusion(l[i], l[i + 1])];
      assert r == Cambiar(l, i, 2, m) && m[0].libre;
      assert r[i + 0] == m[0];
      forall x: nat | EnVivo(r, x) ensures EnVivo(l, x) {
        var k :| 0 <= k < |r| && !r[k].libre && Puntero(r[k]) <= x < Fin(r[k]);
        assert r[k] == l[if k < i then k else k + 1];
      }
    }
  }

  lemma MergeStaysPut(l: seq<Bloque>, i: nat)
    requires i < |l| && l[i].libre
    ensures i < |Unir(l, i)| && Unir(l, i)[i].dir == l[i].dir && Unir(l, i)[i].libre
  {
    hide Cambiar;
    if TocanLibres(l, i) {
      var m := [Fusion(l[i], l[i + 1])];
      var r := Unir(l, i);
      assert r == Cambiar(l, i, 2, m) && m[0].libre;
      assert r[i + 0] == m[0];
    }
  }

  lemma FreeSparesLive(l: seq<Bloque>, i: nat)
    requires i < |l|
    ensures forall x: nat :: EnVivo(Desocupar(l, i), x) ==> EnVivo(l, x)
  {
    hide Cambiar;
    var r, m := Desocupar(l, i), [l[i].(libre := true)];
    assert r[i + 0] == m[0];
    forall x: nat | EnVivo(r, x) ensures EnVivo(l, x) {
      var k :| 0 <= k < |r| && !r[k].libre && Puntero(r[k]) <= x < Fin(r[k]);
      assert r[k] == l[k];
    }
  }

  // ----- Pointers -----

  predicate EsPuntero(l: seq<Bloque>, p: nat) {
    exists i :: 0 <= i < |l| && !l[i].libre && Puntero(l[i]) == p
  }

  /** The position of the block that a pointer belongs to, or the length of the list. */
  function IndiceDe(l: seq<Bloque>, p: nat): (i: nat)
    ensures i <= |l|
    ensures i < |l| ==> Puntero(l[i]) == p
    ensures forall k :: 0 <= k < i ==> Puntero(l[k]) != p
  {
    if l == [] then 0
    else if Puntero(l[0]) == p then 0
    else
      var i := IndiceDe(l[1..], p);
      assert forall k :: 0 < k < i + 1 ==> l[k] == l[1..][k - 1];
      i + 1
  }

  /** A header in memory is that of a live block exactly when it says it is not free. */
  lemma FreeHeaderIsNotLive(cab: map<nat, Cabecera>, l: seq<Bloque>, b: nat)
    requires EscritasSalvo(cab, l, {}) && Rancias(cab, l) && b in cab && Disjuntos(l)
    ensures Integra(cab[b]) && (cab[b].libre <==> !EsPuntero(l, b + CABECERA))
    ensures !cab[b].libre ==> var i := IndiceDe(l, b + CABECERA);
              i < |l| && l[i].dir == b && !l[i].libre && l[i].tam == cab[b].tam
  {
    hide Disjuntos, CabeceraDe;
    if EnLista(l, b) {
      var i :| 0 <= i < |l| && l[i].dir == b;
      assert Escrita(cab, l, i);
      FieldsOfHeader(l, i);
      OnlyOneBlockAt(l, i);
      assert Puntero(l[i]) == b + CABECERA;
    } else {
      PointerIsListed(l, b);
    }
  }

  lemma PointerIsListed(l: seq<Bloque>, b: nat)
    ensures EsPuntero(l, b + CABECERA) ==> EnLista(l, b)
  {
    if EsPuntero(l, b + CABECERA) {
      var i :| 0 <= i < |l| && !l[i].libre && Puntero(l[i]) == b + CABECERA;
      assert l[i].dir == b;
    }
  }

  lemma OnlyOneBlockAt(l: seq<Bloque>, i: nat)
    requires i < |l| && Disjuntos(l)
    ensures forall k :: 0 <= k < |l| && k != i ==> l[k].dir != l[i].dir
  {
    hide Disjuntos;
    forall k | 0 <= k < |l| && k != i ensures l[k].dir != l[i].dir {
      BlocksApart(l, i, k);
    }
  }

  // ----- Blocks and frames -----

  predicate Apartado(l: seq<Bloque>, v: nat) {
    forall i :: 0 <= i < |l| ==> Fin(l[i]) <= v || v + PAGINA <= l[i].dir
  }

  /** No block reaches into the pages of the frames `fs`, as mapped at `base`. */
  ghost predicate Apartados(l: seq<Bloque>, base: nat, fs: set<nat>) {
    forall f :: f in fs ==> Apartado(l, f + base)
  }

  lemma TakeKeepsApart(l: seq<Bloque>, i: nat, bytes: nat, base: nat, fs: set<nat>)
    requires i < |l| && Cabe(l[i], bytes) && Apartados(l, base, fs)
    ensures Apartados(Tomar(l, i, bytes), base, fs)
  {
    hide Apartado;
    forall f | f in fs ensures Apartado(Tomar(l, i, bytes), f + base) {
      TakeStaysApart(l, i, bytes, f + base);
    }
  }

  lemma ReleaseKeepsApart(l: seq<Bloque>, i: nat, base: nat, fs: set<nat>)
    requires i < |l| && Apartados(l, base, fs)
    ensures Apartados(Soltar(l, i), base, fs)
  {
    hide Apartado;
    forall f | f in fs ensures Apartado(Soltar(l, i), f + base) {
      ReleaseStaysApart(l, i, f + base);
    }
  }

  predicate EnArena(arenas: seq<Bloque>, v: nat) {
    exists k :: 0 <= k < |arenas| && arenas[k].dir <= v && v + PAGINA <= Fin(arenas[k])
  }

  lemma MergeStaysApart(l: seq<Bloque>, i: int, v: nat)
    requires Apartado(l, v)
    ensures Apartado(Unir(l, i), v)
  {
    hide Cambiar;
    var r := Unir(l, i);
    if TocanLibres(l, i) {
      var m := [Fusion(l[i], l[i + 1])];
      assert r == Cambiar(l, i, 2, m) && m[0] == Fusion(l[i], l[i + 1]);
      assert r[i + 0] == m[0];
      forall k | 0 <= k < |r| ensures Fin(r[k]) <= v || v + PAGINA <= r[k].dir {
        if k != i {
          assert r[k] == l[if k < i then k else k + 1];
        }
      }
    }
  }

  lemma FreeStaysApart(l: seq<Bloque>, i: nat, v: nat)
    requires i < |l| && Apartado(l, v)
    ensures Apartado(Desocupar(l, i), v)
  {
    hide Cambiar;
    var r, m := Desocupar(l, i), [l[i].(libre := true)];
    assert r[i + 0] == m[0];
    forall k | 0 <= k < |r| ensures Fin(r[k]) <= v || v + PAGINA <= r[k].dir {
      assert k != i ==> r[k] == l[k];
    }
  }

  lemma ReleaseStaysApart(l: seq<Bloque>, i: nat, v: nat)
    requires i < |l| && Apartado(l, v)
    ensures Apartado(Soltar(l, i), v)
  {
    hide Apartado, Unir, Desocupar;
    FreeStaysApart(l, i, v);
    MergeStaysApart(Desocupar(l, i), i, v);
    MergeStaysApart(Unir(Desocupar(l, i), i), i - 1, v);
  }

  lemma TakeStaysApart(l: seq<Bloque>, i: nat, bytes: nat, v: nat)
    requires i < |l| && Cabe(l[i], bytes) && Apartado(l, v)
    ensures Apartado(Tomar(l, i, bytes), v)
  {
    hide Cambiar;
    var r, m := Tomar(l, i, bytes), Partir(l[i], bytes);
    forall k | 0 <= k < |r| ensures Fin(r[k]) <= v || v + PAGINA <= r[k].dir {
      if k < i {
        assert r[k] == l[k];
      } else if k < i + |m| {
        assert r[i + (k - i)] == m[k - i];
      } else {
        assert r[k] == l[k - |m| + 1];
      }
    }
  }

  // ----- Runs of frames -----

  ghost function Elementos(c: seq<nat>): (r: set<nat>)
    ensures forall f :: f in r <==> f in c
  {
    set f | f in c
  }

  /** The page-aligned addresses of `n` pages from `primera`. */
  ghost predicate EsTramo(tramo: set<nat>, primera: nat, n: nat) {
    primera > 0 && primera % PAGINA == 0
    && forall f: nat :: f in tramo <==> primera <= f < primera + n * PAGINA && f % PAGINA == 0
  }

  /** A frame that would extend a run of `n` frames, at either end. */
  predicate Contigua(f: nat, primera: nat, n: nat) {
    f == primera + n * PAGINA || f + PAGINA == primera
  }

  predicate Sube(c: seq<nat>, n: nat) {
    n <= |c| && forall k: nat :: k < n ==> c[k] == c[0] + k * PAGINA
  }

  predicate Baja(c: seq<nat>, n: nat) {
    n <= |c| && forall k: nat :: k < n ==> c[k] + k * PAGINA == c[0]
  }

  /** The `n` frames on top of the stack follow one another, upwards or downwards. */
  predicate EnFila(c: seq<nat>, n: nat) {
    Sube(c, n) || Baja(c, n)
  }

  /** So the next one always extends the run. */
  lemma RunGoesOn(c: seq<nat>, n: nat, o: nat, primera: nat)
    requires EnFila(c, n) && 0 < o < n && EsTramo(Elementos(c[..o]), primera, o)
    ensures Contigua(c[o], primera, o)
  {
    assert c[..o][0] in Elementos(c[..o]) && c[..o][o - 1] in Elementos(c[..o]);
    assert primera in Elementos(c[..o]);
    var k :| 0 <= k < o && c[..o][k] == primera;
    if Sube(c, n) {
      assert c[k] == c[0] + k * PAGINA && c[o] == c[0] + o * PAGINA;
    } else {
      assert c[k] + k * PAGINA == c[0] && c[o] + o * PAGINA == c[0] && c[o - 1] + (o - 1) * PAGINA == c[0];
    }
  }

  lemma PrefixGrows(c: seq<nat>, n: nat)
    requires n < |c|
    ensures c[n..] != [] && c[n..][0] == c[n] && c[n..][1..] == c[n + 1..] && [c[n]] + c[n + 1..] == c[n..]
    ensures Elementos(c[..n + 1]) == Elementos(c[..n]) + {c[n]}
  {
    assert c[..n + 1] == c[..n] + [c[n]];
  }

  lemma NothingTaken(c: seq<nat>)
    ensures Elementos(c[..0]) == {} && c[0..] == c
  {
  }

  lemma RunStarts(f: nat)
    requires f > 0 && f % PAGINA == 0
    ensures EsTramo({f}, f, 1)
  {
  }

  lemma RunStartsAligned(tramo: set<nat>, primera: nat, n: nat)
    requires EsTramo(tramo, primera, n)
    ensures primera > 0 && primera % PAGINA == 0
  {
  }

  lemma RunGrowsUp(tramo: set<nat>, primera: nat, n: nat, nueva: nat)
    requires EsTramo(tramo, primera, n) && nueva == primera + n * PAGINA
    ensures EsTramo(tramo + {nueva}, primera, n + 1)
  {
  }

  lemma RunGrowsDown(tramo: set<nat>, primera: nat, n: nat, nueva: nat)
    requires EsTramo(tramo, primera, n) && nueva > 0 && nueva + PAGINA == primera
    ensures EsTramo(tramo + {nueva}, nueva, n + 1)
  {
  }

  function ArenaDe(dir: nat, paginas: nat): (b: Bloque)
    requires paginas > 0
  {
    Bloque(dir, paginas * PAGINA - CABECERA, true)
  }

  lemma {:induction false} BlockMissesRun(b: Bloque, v: nat, n: nat)
    requires forall k :: 0 <= k < n ==> Fin(b) <= v + k * PAGINA || v + k * PAGINA + PAGINA <= b.dir
    ensures n > 0 ==> Fin(b) <= v || v + n * PAGINA <= b.dir
  {
    if n > 1 {
      BlockMissesRun(b, v, n - 1);
      assert Fin(b) <= v + (n - 1) * PAGINA || v + (n - 1) * PAGINA + PAGINA <= b.dir;
    } else if n == 1 {
      assert Fin(b) <= v + 0 * PAGINA || v + 0 * PAGINA + PAGINA <= b.dir;
    }
  }

  lemma StackedFramesAvoidArena(mapa: seq<Entrada>, h: nat, d: nat, cadena: seq<nat>, base: nat)
    requires h > 0 && h % PAGINA == 0
    requires forall f :: f in cadena ==> f % PAGINA == 0
    requires forall f :: f in cadena ==> exists i :: 0 <= i < |mapa| && Apilable(mapa[i], h, d, f)
    ensures Apartados([Bloque(h + base, ARENA_HEAP - CABECERA, true)], base, Elementos(cadena))
  {
    forall f | f in Elementos(cadena) ensures Apartado([Bloque(h + base, ARENA_HEAP - CABECERA, true)], f + base) {
      var i :| 0 <= i < |mapa| && Apilable(mapa[i], h, d, f);
      assert !(h <= f < h + ARENA_HEAP);
    }
  }

  /** A run of frames that were nobody's memory is apart from every block. */
  lemma RunIsApart(l: seq<Bloque>, base: nat, fs: set<nat>, tramo: set<nat>, primera: nat, n: nat)
    requires Apartados(l, base, fs) && tramo <= fs && EsTramo(tramo, primera, n) && n > 0
    ensures forall i :: 0 <= i < |l| ==> Ajenos(l[i], ArenaDe(primera + base, n))
  {
    forall i | 0 <= i < |l| ensures Ajenos(l[i], ArenaDe(primera + base, n)) {
      forall k | 0 <= k < n
        ensures Fin(l[i]) <= primera + base + k * PAGINA || primera + base + k * PAGINA + PAGINA <= l[i].dir
      {
        PageOfRun(tramo, primera, n, k);
        assert Apartado(l, (primera + k * PAGINA) + base);
      }
      BlockMissesRun(l[i], primera + base, n);
    }
  }

  lemma PageOfRun(tramo: set<nat>, primera: nat, n: nat, k: nat)
    requires EsTramo(tramo, primera, n) && k < n
    ensures primera + k * PAGINA in tramo
  {
  }

  lemma ExpansionKeepsApart(l: seq<Bloque>, base: nat, fs: set<nat>, otros: set<nat>, tramo: set<nat>,
                            primera: nat, n: nat)
    requires Apartados(l, base, fs) && EsTramo(tramo, primera, n) && n > 0
    requires forall f :: f in otros ==> f in fs && f % PAGINA == 0 && f !in tramo
    ensures Apartados(l + [ArenaDe(primera + base, n)], base, otros)
  {
    var b := ArenaDe(primera + base, n);
    forall f | f in otros ensures Apartado(l + [b], f + base) {
      FrameOutsideRun(tramo, primera, n, f);
      assert Apartado(l, f + base);
    }
  }

  lemma FrameOutsideRun(tramo: set<nat>, primera: nat, n: nat, f: nat)
    requires EsTramo(tramo, primera, n) && f % PAGINA == 0 && f !in tramo
    ensures f + PAGINA <= primera || primera + n * PAGINA <= f
  {
  }

  lemma ExpansionKeepsInside(arenas: seq<Bloque>, base: nat, suyos: set<nat>, tramo: set<nat>, primera: nat, n: nat)
    requires EsTramo(tramo, primera, n) && n > 0 && forall f :: f in suyos ==> EnArena(arenas, f + base)
    ensures forall f :: f in suyos + tramo ==> EnArena(arenas + [ArenaDe(primera + base, n)], f + base)
  {
    var b := ArenaDe(primera + base, n);
    var r := arenas + [b];
    forall f | f in suyos + tramo ensures EnArena(r, f + base) {
      if f in tramo {
        FrameInsideRun(tramo, primera, n, f);
        assert r[|arenas|] == b;
      } else {
        var k :| 0 <= k < |arenas| && arenas[k].dir <= f + base && f + base + PAGINA <= Fin(arenas[k]);
        assert r[k] == arenas[k];
      }
    }
  }

  lemma FrameInsideRun(tramo: set<nat>, primera: nat, n: nat, f: nat)
    requires EsTramo(tramo, primera, n) && f in tramo
    ensures primera <= f && f + PAGINA <= primera + n * PAGINA
  {
  }

  lemma ArenaIsAligned(primera: nat, base: nat, n: nat)
    requires primera % PAGINA == 0 && base % PAGINA == 0 && n > 0
    ensures (primera + base) % 16 == 0 && (n * PAGINA) % 16 == 0
  {
    assert primera == 16 * (256 * (primera / PAGINA)) && base == 16 * (256 * (base / PAGINA));
    MultipleOf16(256 * (primera / PAGINA) + 256 * (base / PAGINA));
    MultipleOf16(256 * n);
  }

  lemma MultipleOf16(q: nat)
    ensures (16 * q) % 16 == 0
  {
  }

  lemma FirstFitAppend(l: seq<Bloque>, b: Bloque, bytes: nat)
    requires PrimerHueco(l, bytes) == |l|
    ensures PrimerHueco(l + [b], bytes) == if Cabe(b, bytes) then |l| else |l| + 1
  {
    hide PrimerHueco, Cabe;
    var r := l + [b];
    forall k | 0 <= k < |l| ensures !Cabe(r[k], bytes) {
      assert r[k] == l[k];
    }
    assert r[|l|] == b;
  }

  /** The list has grown by free blocks at the end, each of them an arena. */
  predicate Crecido(l: seq<Bloque>, arenas: seq<Bloque>, r: seq<Bloque>, mas: seq<Bloque>) {
    |arenas| <= |mas| && mas == arenas + mas[|arenas|..] && r == l + mas[|arenas|..]
    && forall k :: |arenas| <= k < |mas| ==> mas[k].libre
  }

  lemma CrecidoMas(l: seq<Bloque>, arenas: seq<Bloque>, r: seq<Bloque>, mas: seq<Bloque>, b: Bloque)
    requires Crecido(l, arenas, r, mas) && b.libre
    ensures Crecido(l, arenas, r + [b], mas + [b])
  {
    assert (mas + [b])[|arenas|..] == mas[|arenas|..] + [b];
  }

  /** The clients of the live blocks see the same bytes. */
  ghost predicate MismosDatos(l: seq<Bloque>, d: nat -> byte, e: nat -> byte) {
    forall x: nat :: EnVivo(l, x) ==> e(x) == d(x)
  }

  /** Every frame of the old chain is either still free or the heap's, and other owners' frames are theirs. */
  ghost predicate Repartidos(c: seq<nat>, a: set<nat>, s: set<nat>, c': seq<nat>, a': set<nat>, s': set<nat>) {
    && (forall f :: f in c ==> f in c' || f in s') && s <= s' && a - s == a' - s'
    && forall f :: f in c' ==> f in c
  }

  lemma NothingGrew(l: seq<Bloque>, arenas: seq<Bloque>, d: nat -> byte, c: seq<nat>, a: set<nat>, s: set<nat>)
    ensures Crecido(l, arenas, l, arenas) && MismosDatos(l, d, d) && Repartidos(c, a, s, c, a, s)
  {
  }

  lemma SameDataAfterGrowth(l: seq<Bloque>, arenas: seq<Bloque>, r: seq<Bloque>, mas: seq<Bloque>,
                            d: nat -> byte, e: nat -> byte, f: nat -> byte)
    requires Crecido(l, arenas, r, mas) && MismosDatos(l, d, e) && MismosDatos(r, e, f)
    ensures MismosDatos(l, d, f)
  {
    forall x: nat | EnVivo(l, x) ensures f(x) == d(x) {
      var i :| 0 <= i < |l| && !l[i].libre && Puntero(l[i]) <= x < Fin(l[i]);
      assert r[i] == l[i];
      assert EnVivo(r, x);
    }
  }

  lemma StillShared(c: seq<nat>, a: set<nat>, s: set<nat>, d: seq<nat>, b: set<nat>, t: set<nat>,
                    e: seq<nat>, f: set<nat>, u: set<nat>)
    requires Repartidos(c, a, s, d, b, t) && Repartidos(d, b, t, e, f, u)
    ensures Repartidos(c, a, s, e, f, u)
  {
  }

  lemma RunIsShared(c: seq<nat>, a: set<nat>, s: set<nat>, n: nat, tramo: set<nat>)
    requires n <= |c| && tramo == Elementos(c[..n]) && tramo !! a && s <= a
    ensures Repartidos(c, a, s, c[n..], a + tramo, s + tramo)
  {
    assert c == c[..n] + c[n..];
  }

  function Redondear(pedidos: nat): (n: nat)
    ensures n >= pedidos && n % 16 == 0 && (pedidos > 0 ==> n >= 16) && n < pedidos + 16
  {
    (pedidos + 15) / 16 * 16
  }

  lemma RoundedTwice(pedidos: nat)
    ensures Redondear(Redondear(pedidos)) == Redondear(pedidos)
  {
  }

  /** The outcome of a request for `n` bytes on list `l`: the heap may have grown by free arenas, and
      the first block of the grown list with room, if any, is the one taken. */
  ghost predicate Concedido(l: seq<Bloque>, arenas: seq<Bloque>, n: nat, p: nat, r: seq<Bloque>, mas: seq<Bloque>) {
    && |arenas| <= |mas| <= |arenas| + INTENTOS && Crecido(l, arenas, l + mas[|arenas|..], mas)
    && var crecida := l + mas[|arenas|..];
    && Disjuntos(crecida) && Alineados(crecida)
    && var i := PrimerHueco(crecida, n);
    && (i < |l| ==> mas == arenas)
    && (p != 0 <==> i < |crecida|)
    && r == (if p != 0 then Tomar(crecida, i, n) else crecida)
    && (p != 0 ==> p == Puntero(crecida[i]))
  }

  lemma GrantedAtOnce(l: seq<Bloque>, arenas: seq<Bloque>, n: nat)
    requires PrimerHueco(l, n) < |l| && Disjuntos(l) && Alineados(l)
    ensures var i := PrimerHueco(l, n); Concedido(l, arenas, n, Puntero(l[i]), Tomar(l, i, n), arenas)
  {
    hide PrimerHueco, Tomar, Alineado, Ajenos;
    assert arenas[|arenas|..] == [] && l + [] == l;
    ListedIsNotNull(l, PrimerHueco(l, n));
  }

  /** What a grown heap grants is what the heap granted; and a heap that grew in vain granted nothing. */
  lemma GrantedAfterGrowth(l: seq<Bloque>, arenas: seq<Bloque>, r: seq<Bloque>, mas: seq<Bloque>, n: nat)
    requires Crecido(l, arenas, r, mas) && |r| - |l| <= INTENTOS
    requires PrimerHueco(l, n) == |l| && Disjuntos(r) && Alineados(r)
    ensures PrimerHueco(r, n) == |r| ==> Concedido(l, arenas, n, 0, r, mas)
    ensures forall p, t :: Concedido(r, mas, n, p, t, mas) ==> Concedido(l, arenas, n, p, t, mas)
    ensures |mas| - |arenas| == |r| - |l|
  {
    hide PrimerHueco, Tomar, Alineado, Ajenos;
    assert mas[|mas|..] == [] && r + [] == r;
    assert l + mas[|arenas|..] == r;
    forall k | 0 <= k < |l| ensures !Cabe(r[k], n) {
      assert r[k] == l[k];
    }
  }

  function TamDe(l: seq<Bloque>, p: nat): nat {
    var i := IndiceDe(l, p);
    if i < |l| then l[i].tam else 0
  }

  lemma SizeOfLive(l: seq<Bloque>, p: nat, t: nat)
    requires EsVivo(l, p, t) && Disjuntos(l)
    ensures TamDe(l, p) == t && EsPuntero(l, p)
  {
    hide Disjuntos;
    var i :| 0 <= i < |l| && !l[i].libre && Puntero(l[i]) == p && l[i].tam == t;
    OnlyOneBlockAt(l, i);
  }

  lemma PointerIsLive(l: seq<Bloque>, p: nat)
    requires EsPuntero(l, p) && Disjuntos(l)
    ensures var i := IndiceDe(l, p); i < |l| && !l[i].libre && Puntero(l[i]) == p && EsVivo(l, p, TamDe(l, p))
  {
    hide Disjuntos;
    var i :| 0 <= i < |l| && !l[i].libre && Puntero(l[i]) == p;
    OnlyOneBlockAt(l, i);
  }

  lemma FreeBlocksAreNotLive(l: seq<Bloque>, m: seq<Bloque>, p: nat, t: nat)
    requires forall k :: 0 <= k < |m| ==> m[k].libre
    ensures EsVivo(l + m, p, t) <==> EsVivo(l, p, t)
  {
    LiveAppend(l, m, p, t);
  }

  /** A granted request adds exactly one live block: 16-aligned, at least as large as asked, at a
      pointer that was not live. A refused one changes no live block. */
  lemma GrantedIsLive(l: seq<Bloque>, arenas: seq<Bloque>, n: nat, p: nat, r: seq<Bloque>, mas: seq<Bloque>)
    requires Concedido(l, arenas, n, p, r, mas) && Disjuntos(r)
    ensures p == 0 ==> forall q, t :: EsVivo(r, q, t) <==> EsVivo(l, q, t)
    ensures p != 0 ==> p % 16 == 0 && !EsPuntero(l, p) && n <= TamDe(r, p) < n + 80
    ensures p != 0 ==> forall q, t :: EsVivo(r, q, t) <==> EsVivo(l, q, t) || (q == p && t == TamDe(r, p))
  {
    hide Disjuntos, Alineados, EsVivo, PrimerHueco, Tomar, EsPuntero, Crecido, TamDe;
    var nuevas := mas[|arenas|..];
    var crecida := l + nuevas;
    assert forall k :: 0 <= k < |nuevas| ==> nuevas[k].libre by {
      GrownByFree(l, arenas, crecida, mas);
    }
    var i := PrimerHueco(crecida, n);
    forall q, t ensures EsVivo(crecida, q, t) <==> EsVivo(l, q, t) {
      FreeBlocksAreNotLive(l, nuevas, q, t);
    }
    if p != 0 {
      var tam := Partir(crecida[i], n)[0].tam;
      forall q, t ensures EsVivo(r, q, t) <==> EsVivo(l, q, t) || (q == p && t == tam) {
        TakeAddsOneLive(crecida, i, n, q, t);
      }
      TakeAddsOneLive(crecida, i, n, p, tam);
      SizeOfLive(r, p, tam);
      NewPointer(crecida, i, l);
      PointersAreAligned(crecida, i);
    }
  }

  lemma GrownByFree(l: seq<Bloque>, arenas: seq<Bloque>, r: seq<Bloque>, mas: seq<Bloque>)
    requires Crecido(l, arenas, r, mas)
    ensures forall k :: 0 <= k < |mas| - |arenas| ==> mas[|arenas|..][k].libre
  {
  }

  lemma PointersAreAligned(l: seq<Bloque>, i: nat)
    requires Alineados(l) && i < |l|
    ensures Puntero(l[i]) % 16 == 0
  {
    assert Alineado(l[i]);
  }

  lemma NewPointer(crecida: seq<Bloque>, i: nat, l: seq<Bloque>)
    requires Disjuntos(crecida) && i < |crecida| && crecida[i].libre
    requires forall q, t :: EsVivo(crecida, q, t) <==> EsVivo(l, q, t)
    ensures !EsPuntero(l, Puntero(crecida[i]))
  {
    hide Disjuntos, EsVivo, EsPuntero;
    var p := Puntero(crecida[i]);
    forall t ensures !EsVivo(l, p, t) {
      LivePointersDiffer(crecida, i, t);
    }
    PointerHasSize(l, p);
  }

  lemma PointerHasSize(l: seq<Bloque>, p: nat)
    ensures EsPuntero(l, p) <==> exists t :: EsVivo(l, p, t)
  {
    if EsPuntero(l, p) {
      var k :| 0 <= k < |l| && !l[k].libre && Puntero(l[k]) == p;
      assert EsVivo(l, p, l[k].tam);
    }
  }

  // ----- Writes by the owners of live blocks -----

  /** Writing inside a live block spoils no header of the list. */
  lemma DataSparesHeaders(cab: map<nat, Cabecera>, l: seq<Bloque>, i: nat, a: nat, n: nat)
    requires Disjuntos(l) && EscritasSalvo(cab, l, {}) && Rancias(cab, l)
    requires i < |l| && Puntero(l[i]) <= a && a + n <= Fin(l[i])
    ensures EscritasSalvo(Pisadas(cab, a, n), l, {}) && Rancias(Pisadas(cab, a, n), l)
  {
    hide Disjuntos, CabeceraDe, EnLista;
    forall k | 0 <= k < |l| ensures Escrita(Pisadas(cab, a, n), l, k) {
      assert Escrita(cab, l, k);
      if k != i {
        BlocksApart(l, i, k);
      }
    }
  }

  lemma LiveByte(l: seq<Bloque>, p: nat, t: nat, k: nat)
    requires EsVivo(l, p, t) && k < t
    ensures EnVivo(l, p + k)
  {
    var i :| 0 <= i < |l| && !l[i].libre && Puntero(l[i]) == p && l[i].tam == t;
    assert Puntero(l[i]) <= p + k < Fin(l[i]);
  }

  lemma LiveBytesDiffer(l: seq<Bloque>, p: nat, t: nat, q: nat, s: nat)
    requires Disjuntos(l) && EsVivo(l, p, t) && EsVivo(l, q, s) && p != q
    ensures p + t <= q || q + s <= p
  {
    hide Disjuntos;
    var i :| 0 <= i < |l| && !l[i].libre && Puntero(l[i]) == p && l[i].tam == t;
    var j :| 0 <= j < |l| && !l[j].libre && Puntero(l[j]) == q && l[j].tam == s;
    BlocksApart(l, i, j);
  }

  /** The `n` bytes at `r` are those that were at `p`. */
  ghost predicate Copiado(d: nat -> byte, p: nat, e: nat -> byte, r: nat, n: nat) {
    forall x: nat :: r <= x < r + n ==> e(x) == d(p + (x - r))
  }

  predicate EnVivoSalvo(l: seq<Bloque>, p: nat, x: nat) {
    exists i :: 0 <= i < |l| && !l[i].libre && Puntero(l[i]) != p && Puntero(l[i]) <= x < Fin(l[i])
  }

  /** The owners of the live blocks other than `p` see the same bytes. */
  ghost predicate MismosDatosSalvo(l: seq<Bloque>, p: nat, d: nat -> byte, e: nat -> byte) {
    forall x: nat :: EnVivoSalvo(l, p, x) ==> e(x) == d(x)
  }

  ghost predicate MismosVivos(l: seq<Bloque>, r: seq<Bloque>) {
    forall q, t :: EsVivo(r, q, t) <==> EsVivo(l, q, t)
  }

  /** Allocate `r`, copy, free `p`: the live blocks are those before, with `p` replaced by `r`. */
  ghost predicate Trasladado(l: seq<Bloque>, p: nat, m: seq<Bloque>, r: nat) {
    forall q, t :: EsVivo(m, q, t) <==> (EsVivo(l, q, t) && q != p) || (q == r && t == TamDe(m, r))
  }

  lemma MoveKeepsOthers(l: seq<Bloque>, m: seq<Bloque>, f: seq<Bloque>, p: nat, r: nat, n: nat,
                        d0: nat -> byte, d1: nat -> byte, d3: nat -> byte)
    requires Disjuntos(m) && MismosDatos(l, d0, d1) && EsVivo(m, r, TamDe(m, r)) && n <= TamDe(m, r)
    requires forall q, t :: EsVivo(m, q, t) <==> EsVivo(l, q, t) || (q == r && t == TamDe(m, r))
    requires forall q, t :: EsVivo(f, q, t) <==> EsVivo(m, q, t) && q != p
    requires !EsPuntero(l, r) && MismosDatos(f, Copiar(d1, r, p, n), d3)
    ensures MismosDatosSalvo(l, p, d0, d3)
  {
    hide Disjuntos, EnVivo;
    forall x: nat | EnVivoSalvo(l, p, x) ensures d3(x) == d0(x) {
      var i :| 0 <= i < |l| && !l[i].libre && Puntero(l[i]) != p && Puntero(l[i]) <= x < Fin(l[i]);
      var q, t := Puntero(l[i]), l[i].tam;
      assert EsVivo(l, q, t);
      LiveByte(l, q, t, x - q);
      LiveByte(f, q, t, x - q);
      LiveBytesDiffer(m, q, t, r, TamDe(m, r));
    }
  }

  lemma MoveCopies(l: seq<Bloque>, f: seq<Bloque>, p: nat, r: nat, n: nat, t: nat,
                   d0: nat -> byte, d1: nat -> byte, d3: nat -> byte)
    requires EsVivo(l, p, n) && EsVivo(f, r, t) && n <= t
    requires MismosDatos(l, d0, d1) && MismosDatos(f, Copiar(d1, r, p, n), d3)
    ensures Copiado(d0, p, d3, r, n)
  {
    hide EnVivo, EsVivo;
    forall x: nat | r <= x < r + n ensures d3(x) == d0(p + (x - r)) {
      LiveByte(f, r, t, x - r);
      LiveByte(l, p, n, x - r);
    }
  }

  lemma MovedBlocks(l: seq<Bloque>, m: seq<Bloque>, f: seq<Bloque>, p: nat, r: nat)
    requires Disjuntos(f) && r != p
    requires forall q, t :: EsVivo(m, q, t) <==> EsVivo(l, q, t) || (q == r && t == TamDe(m, r))
    requires forall q, t :: EsVivo(f, q, t) <==> EsVivo(m, q, t) && q != p
    ensures Trasladado(l, p, f, r) && TamDe(f, r) == TamDe(m, r) && EsVivo(f, r, TamDe(f, r))
  {
    hide Disjuntos, EsVivo, TamDe;
    assert EsVivo(f, r, TamDe(m, r));
    SizeOfLive(f, r, TamDe(m, r));
  }

  lemma AllSame(l: seq<Bloque>, p: nat, d: nat -> byte, e: nat -> byte)
    requires MismosDatos(l, d, e)
    ensures MismosDatosSalvo(l, p, d, e)
  {
    forall x: nat | EnVivoSalvo(l, p, x) ensures EnVivo(l, x) {
    }
  }

  lemma SameAfterFree(l: seq<Bloque>, f: seq<Bloque>, p: nat, d: nat -> byte, e: nat -> byte)
    requires MismosDatos(f, d, e) && forall q, t :: EsVivo(f, q, t) <==> EsVivo(l, q, t) && q != p
    ensures MismosDatosSalvo(l, p, d, e)
  {
    hide EnVivo;
    forall x: nat | EnVivoSalvo(l, p, x) ensures e(x) == d(x) {
      var i :| 0 <= i < |l| && !l[i].libre && Puntero(l[i]) != p && Puntero(l[i]) <= x < Fin(l[i]);
      assert EsVivo(l, Puntero(l[i]), l[i].tam);
      LiveByte(f, Puntero(l[i]), l[i].tam, x - Puntero(l[i]));
    }
  }

  lemma SameData(l: seq<Bloque>, d: nat -> byte)
    ensures MismosDatos(l, d, d)
  {
  }

  lemma SameAfter(l: seq<Bloque>, d: nat -> byte, e: nat -> byte)
    requires forall x: nat :: EnVivo(l, x) ==> e(x) == d(x)
    ensures MismosDatos(l, d, e)
  {
  }

  lemma NullIsNotLive(l: seq<Bloque>)
    ensures forall t :: !EsVivo(l, 0, t)
  {
  }

  function PaginasDeExpansion(bytes: nat): (n: nat)
    ensures n > 0 && n * PAGINA >= bytes + CABECERA
  {
    var t := (bytes + CABECERA + PAGINA + PAGINA - 1) / PAGINA * PAGINA;
    (if t < EXPANSION_MINIMA then EXPANSION_MINIMA else t) / PAGINA
  }

  /** The pages asked for: the fewest that hold the bytes, their header and a page more, and 2 MiB at
      least. */
  lemma FewestPages(bytes: nat)
    ensures var n := PaginasDeExpansion(bytes);
            (n - 1) * 4096 < Max(0x20_0000, bytes + 48 + 4096) <= n * 4096
  {
  }

  lemma EmptyHeap()
    ensures Disjuntos([]) && Alineados([]) && EscritasSalvo(map[], [], {}) && Rancias(map[], []) && Sana([], [])
    ensures Suma([]) == 0 && SumaUsada([]) == 0 && Usados([]) == 0
    ensures forall base, fs :: Apartados([], base, fs)
  {
  }

  // ----- The audit of the headers -----

  /** The addresses that a walk from `cabeza` comes to. It goes no further than a header that is
      damaged. */
  predicate Recorrida(cab: map<nat, Cabecera>, cabeza: nat, dirs: seq<nat>) {
    && cabeza == (if dirs == [] then 0 else dirs[0])
    && forall i :: 0 <= i < |dirs| ==> Sigue(cab, dirs, i)
  }

  predicate Sigue(cab: map<nat, Cabecera>, dirs: seq<nat>, i: nat)
    requires i < |dirs|
  {
    && dirs[i] != 0 && dirs[i] in cab
    && (Integra(cab[dirs[i]]) ==> cab[dirs[i]].sig == if i + 1 < |dirs| then dirs[i + 1] else 0)
  }

  /** The header at `dirs[i]` has both canaries, and the next one points back at it. */
  predicate Firme(cab: map<nat, Cabecera>, dirs: seq<nat>, i: nat)
    requires i < |dirs|
  {
    && dirs[i] in cab && cab[dirs[i]].inicio == 0x7AEE_CC05 && cab[dirs[i]].fin == 0xCAFE_BABE_DEAD_1000
    && (i + 1 < |dirs| ==> dirs[i + 1] in cab && cab[dirs[i + 1]].ant == dirs[i])
  }

  /** Whatever the headers hold: the audit passes exactly when all are sound, and is a panic otherwise. */
  method Auditar(cab: map<nat, Cabecera>, cabeza: nat, ghost dirs: seq<nat>) returns (r: int, quebrado: bool)
    requires Recorrida(cab, cabeza, dirs)
    ensures r == 0 || r == 1
    ensures r == 1 <==> forall i :: 0 <= i < |dirs| ==> Firme(cab, dirs, i)
    ensures quebrado <==> r == 0
  {
    r, quebrado := 1, false;
    var curr := cabeza;
    ghost var i := 0;
    while curr != 0
      invariant i <= |dirs| && curr == (if i < |dirs| then dirs[i] else 0)
      invariant forall k :: 0 <= k < i ==> Firme(cab, dirs, k)
      decreases |dirs| - i
    {
      assert Sigue(cab, dirs, i);
      if !Integra(cab[curr]) {
        assert !Firme(cab, dirs, i);
        return 0, true;
      }
      var sig := cab[curr].sig;
      assert i + 1 < |dirs| ==> Sigue(cab, dirs, i + 1);
      if sig != 0 && cab[sig].ant != curr {
        assert !Firme(cab, dirs, i);
        return 0, true;
      }
      curr := sig;
      i := i + 1;
    }
    assert i < |dirs| ==> Sigue(cab, dirs, i);
  }

  function Direcciones(l: seq<Bloque>): (dirs: seq<nat>)
    ensures |dirs| == |l| && forall i :: 0 <= i < |l| ==> dirs[i] == l[i].dir
  {
    seq(|l|, i requires 0 <= i < |l| => l[i].dir)
  }

  lemma HeadersAreSound(cab: map<nat, Cabecera>, cabeza: nat, l: seq<Bloque>)
    requires EscritasSalvo(cab, l, {}) && cabeza == DirEn(l, 0) && forall i :: 0 <= i < |l| ==> l[i].dir != 0
    ensures Recorrida(cab, cabeza, Direcciones(l))
    ensures forall i :: 0 <= i < |l| ==> Firme(cab, Direcciones(l), i)
  {
    hide EscritasSalvo;
    var dirs := Direcciones(l);
    forall i | 0 <= i < |l| ensures Sigue(cab, dirs, i) && Firme(cab, dirs, i) {
      Written(cab, l, i);
      if i + 1 < |l| {
        Written(cab, l, i + 1);
      }
    }
  }

  class Monton {
    var cab: map<nat, Cabecera>
    var datos: nat -> byte
    var cabeza: nat
    var capacidad: nat
    var enUso: nat
    var activos: nat
    const pmm: Pmm
    const hhdm: nat
    ghost var lista: seq<Bloque>
    ghost var arenas: seq<Bloque>
    ghost var suyos: set<nat>

    ghost predicate Estructura()
      reads `cab, `cabeza, `lista
    {
      && Disjuntos(lista) && Alineados(lista)
      && EscritasSalvo(cab, lista, {}) && Rancias(cab, lista) && cabeza == DirEn(lista, 0)
    }

    ghost predicate Cuentas()
      reads `capacidad, `enUso, `activos, `lista
    {
      capacidad == Suma(lista) && enUso == SumaUsada(lista) && activos == Usados(lista)
    }

    /** An empty heap over a frame allocator and the direct map of physical memory. */
    constructor (p: Pmm, h: nat)
      requires p.Valid() && h > 0 && h % PAGINA == 0
      ensures Valid() && lista == [] && arenas == [] && suyos == {} && capacidad == 0 && pmm == p && hhdm == h
    {
      hide Sana, EscritasSalvo, Rancias, Apartados, Disjuntos, Alineados, Suma, SumaUsada, Usados, EnArena,
           Encadenada, EnRegla, RangosValidos, Repartidas, Ajenas;
      EmptyHeap();
      pmm, hhdm := p, h;
      cab, cabeza, capacidad, enUso, activos := map[], 0, 0, 0, 0;
      datos := x => 0;
      lista, arenas, suyos := [], [], {};
    }

    method Escribir(a: nat, c: Cabecera)
      modifies `cab, `datos
      ensures cab == Poner(old(cab), a, c) && datos == Borrar(old(datos), a)
    {
      cab := Poner(cab, a, c);
      datos := Borrar(datos, a);
    }

    /** The header chain walked from the head: first fit. */
    method BuscarHueco(bytes: nat) returns (b: nat, quebrado: bool, ghost i: nat)
      requires Estructura()
      ensures !quebrado && i == PrimerHueco(lista, bytes) && b == DirEn(lista, i)
    {
      hide Disjuntos, PrimerHueco;
      b, i, quebrado := cabeza, 0, false;
      while b != 0
        invariant i <= |lista| && b == DirEn(lista, i)
        invariant forall k :: 0 <= k < i ==> !Cabe(lista[k], bytes)
        decreases |lista| - i
      {
        assert Escrita(cab, lista, i);
        var c := cab[b];
        if !Integra(c) {
          quebrado := true;
          return;
        }
        if c.libre && c.tam >= bytes {
          return;
        }
        b := c.sig;
        i := i + 1;
      }
      if i < |lista| {
        ListedIsNotNull(lista, i);
      }
    }

    /** Writes the header of the rest of a free block, and links the block after it back to it. */
    method EnlazarSobrante(b: nat, bytes: nat, ghost i: nat)
      requires Estructura() && i < |lista| && b == lista[i].dir && Cabe(lista[i], bytes)
      requires bytes > 0 && bytes % 16 == 0 && lista[i].tam >= bytes + CABECERA + 32
      modifies `cab, `datos
      ensures b in cab && cab[b] == CabeceraDe(lista, i)
      ensures EscritasSalvo(cab, Tomar(lista, i, bytes), {i}) && Rancias(cab, Tomar(lista, i, bytes))
      ensures forall x: nat :: EnVivo(lista, x) ==> datos(x) == old(datos)(x)
    {
      hide Fundir, Disjuntos, EnVivo, EnLista, Borrar, Alineados, EscritasSalvo, Rancias, Poner, Tomar, CabeceraDe;
      Written(cab, lista, i);
      SplitHeaders(lista, i, bytes);
      SplitWritesRest(cab, lista, i, bytes);
      var c := cab[b];
      var sobrante := b + CABECERA + bytes;
      HeaderSparesLive(lista, i, sobrante, datos);
      Escribir(sobrante, Cabecera(CANARIO_INICIO, true, c.tam - bytes - CABECERA, c.sig, b, CANARIO_FIN));
      if c.sig != 0 {
        SplitWritesNext(cab, lista, i, bytes);
        HeaderSparesLive(lista, i + 1, c.sig, datos);
        Escribir(c.sig, cab[c.sig].(ant := sobrante));
      } else {
        LinkedUnlessLast(lista, i);
        LackingPastTheEnd(cab, Tomar(lista, i, bytes), {i, i + 2}, {i});
      }
    }

    /** Cuts a free block in two: the rest becomes a block of its own, linked after it. */
    method Dividir(b: nat, bytes: nat, ghost i: nat)
      requires Estructura() && i < |lista| && b == lista[i].dir && Cabe(lista[i], bytes)
      requires bytes > 0 && bytes % 16 == 0 && lista[i].tam >= bytes + CABECERA + 32
      modifies `cab, `datos
      ensures b in cab && EscritasSalvo(Poner(cab, b, cab[b].(libre := false)), Tomar(lista, i, bytes), {})
      ensures Rancias(Poner(cab, b, cab[b].(libre := false)), Tomar(lista, i, bytes))
      ensures cab[b].tam == bytes
      ensures forall x: nat :: EnVivo(lista, x) ==> datos(x) == old(datos)(x)
    {
      hide Fundir, Disjuntos, EnVivo, EnLista, Borrar, Alineados, EscritasSalvo, Rancias, Poner, Tomar, CabeceraDe;
      EnlazarSobrante(b, bytes, i);
      HeaderSparesLive(lista, i, b, datos);
      SplitEnd(cab, lista, i, bytes);
      Escribir(b, cab[b].(sig := b + CABECERA + bytes, tam := bytes));
    }

    /** Takes the first `bytes` of a free block, splitting off the rest when it is worth a block. */
    method Ocupar(b: nat, bytes: nat, ghost i: nat) returns (p: nat)
      requires Estructura() && i < |lista| && b == lista[i].dir && Cabe(lista[i], bytes)
      requires bytes > 0 && bytes % 16 == 0
      modifies `cab, `datos, `enUso, `activos, `lista
      ensures Estructura() && lista == Tomar(old(lista), i, bytes)
      ensures p == Puntero(old(lista)[i])
      ensures enUso == old(enUso) + Partir(old(lista)[i], bytes)[0].tam && activos == old(activos) + 1
      ensures forall x: nat :: EnVivo(old(lista), x) ==> datos(x) == old(datos)(x)
    {
      hide Fundir, Disjuntos, EnVivo, EnLista, Borrar, Alineados, EscritasSalvo, Rancias, Poner, Tomar;
      ghost var l, r := lista, Tomar(lista, i, bytes);
      TakeKeepsLayout(l, i, bytes);
      Written(cab, l, i);
      TakenHead(l, i, bytes);
      var c := cab[b];
      if c.tam >= bytes + CABECERA + 32 {
        Dividir(b, bytes, i);
      } else {
        WholeWrites(cab, l, i, bytes);
      }
      HeaderSparesLive(l, i, b, datos);
      Escribir(b, cab[b].(libre := false));
      enUso := enUso + cab[b].tam;
      activos := activos + 1;
      lista := r;
      p := b + CABECERA;
    }

    ghost predicate Sano()
      reads `cab, `cabeza, `lista, `arenas, `capacidad, `enUso, `activos
    {
      Estructura() && Sana(lista, arenas) && Cuentas()
    }

    method EnlazarAlFinal(dir: nat, ghost b: Bloque)
      requires Disjuntos(lista + [b]) && Alineados(lista) && EscritasSalvo(cab, lista, {}) && cabeza == DirEn(lista, 0)
      requires EscritasSalvo(cab, lista + [b], {|lista| - 1, |lista|}) && Rancias(cab, lista + [b])
      requires b.libre && b.dir == dir && dir in cab
      requires cab[dir] == Cabecera(CANARIO_INICIO, true, b.tam, 0, 0, CANARIO_FIN)
      modifies `cab, `datos, `cabeza
      ensures EscritasSalvo(cab, lista + [b], {}) && Rancias(cab, lista + [b]) && cabeza == DirEn(lista + [b], 0)
      ensures forall x: nat :: EnVivo(lista, x) ==> datos(x) == old(datos)(x)
    {
      hide Fundir, Disjuntos, EnVivo, EnLista, Borrar, Alineados, EscritasSalvo, Rancias, Poner, CabeceraDe;
      if lista != [] {
        ListedIsNotNull(lista, 0);
      }
      if cabeza == 0 {
        OnlyBlock(cab, b);
        assert lista + [b] == [b];
        cabeza := dir;
      } else {
        var ultimo := BuscarUltimo();
        AppendWrites(cab, lista, b);
        AppendSparesLive(lista, b, datos, |lista| - 1);
        Escribir(ultimo, cab[ultimo].(sig := dir));
        AppendSparesLive(lista, b, datos, |lista|);
        Escribir(dir, cab[dir].(ant := ultimo));
      }
    }

    /** Hands a region to the heap, as one free block linked at the end of the list. Regions too
        small for a header and 64 bytes are ignored. */
    method AgregarArena(dir: nat, tamano: nat)
      requires Sano()
      requires dir > 0 && dir % 16 == 0 && tamano % 16 == 0
      requires tamano >= CABECERA ==>
                 forall i :: 0 <= i < |lista| ==> Ajenos(lista[i], Bloque(dir, tamano - CABECERA, true))
      modifies `cab, `datos, `cabeza, `capacidad, `lista, `arenas
      ensures Sano()
      ensures tamano < CABECERA + 64 ==> unchanged(this)
      ensures tamano >= CABECERA + 64 ==>
                && lista == old(lista) + [Bloque(dir, tamano - CABECERA, true)]
                && arenas == old(arenas) + [Bloque(dir, tamano - CABECERA, true)]
                && capacidad == old(capacidad) + tamano
      ensures forall x: nat :: EnVivo(old(lista), x) ==> datos(x) == old(datos)(x)
    {
      hide Fundir, Disjuntos, EnVivo, EnLista, Borrar, Alineados, Fundidos, EscritasSalvo, Rancias, Poner, CabeceraDe,
           Suma, SumaUsada, Usados, Bases, Ajenos;
      if tamano < CABECERA + 64 {
        return;
      }
      ghost var b := Bloque(dir, tamano - CABECERA, true);
      ghost var r := lista + [b];
      ArenaKeepsHealth(lista, arenas, b);
      ArenaAccounts(lista, b);
      ghost var c := Cabecera(CANARIO_INICIO, true, tamano - CABECERA, 0, 0, CANARIO_FIN);
      AppendLinks(cab, lista, b, c);
      AppendSparesLive(lista, b, datos, |lista|);
      Escribir(dir, Cabecera(CANARIO_INICIO, true, tamano - CABECERA, 0, 0, CANARIO_FIN));
      capacidad := capacidad + tamano;
      EnlazarAlFinal(dir, b);
      lista, arenas := r, arenas + [b];
    }

    method BuscarUltimo() returns (ultimo: nat)
      requires Alineados(lista) && EscritasSalvo(cab, lista, {}) && cabeza == DirEn(lista, 0) && lista != []
      ensures ultimo == lista[|lista| - 1].dir && ultimo in cab
    {
      hide Alineados;
      ultimo := cabeza;
      ghost var i := 0;
      assert Escrita(cab, lista, 0);
      while cab[ultimo].sig != 0
        invariant i < |lista| && ultimo == lista[i].dir && Escrita(cab, lista, i)
        decreases |lista| - i
      {
        ultimo := cab[ultimo].sig;
        i := i + 1;
        assert Escrita(cab, lista, i);
      }
      LinkedUnlessLast(lista, i);
    }

    /** Joins block `b` with the block that follows it. */
    method Absorber(b: nat, s: nat, ghost i: nat)
      requires Estructura() && TocanLibres(lista, i) && b == lista[i].dir && s == lista[i + 1].dir
      modifies `cab, `datos, `lista
      ensures Estructura() && lista == Unir(old(lista), i)
      ensures forall x: nat :: EnVivo(old(lista), x) ==> datos(x) == old(datos)(x)
    {
      hide Fundir, Disjuntos, EnVivo, EnLista, Borrar, Alineados, EscritasSalvo, Rancias, Poner, CabeceraDe, Unir;
      ghost var l := lista;
      Written(cab, l, i);
      Written(cab, l, i + 1);
      FieldsOfHeader(l, i);
      FieldsOfHeader(l, i + 1);
      MergeKeepsLayout(l, i);
      MergedHeaders(l, i);
      MergeWritesBlock(cab, l, i);
      HeaderSparesLive(l, i, b, datos);
      var sig := cab[s].sig;
      LinkedUnlessLast(l, i + 1);
      Escribir(b, cab[b].(tam := cab[b].tam + CABECERA + cab[s].tam, sig := sig));
      if sig != 0 {
        MergeWritesNext(cab, l, i);
        HeaderSparesLive(l, i + 2, sig, datos);
        Escribir(sig, cab[sig].(ant := b));
      } else {
        LackingPastTheEnd(cab, Unir(l, i), {i + 1}, {});
      }
      lista := Unir(l, i);
    }

    method FundirConSiguiente(b: nat, ghost i: nat)
      requires Estructura() && i < |lista| && b == lista[i].dir && lista[i].libre
      modifies `cab, `datos, `lista
      ensures Estructura() && lista == Unir(old(lista), i)
      ensures forall x: nat :: EnVivo(lista, x) ==> datos(x) == old(datos)(x)
    {
      hide Fundir, Disjuntos, EnVivo, EnLista, Borrar, Alineados, EscritasSalvo, Rancias, Poner, CabeceraDe, Cambiar;
      Written(cab, lista, i);
      FieldsOfHeader(lista, i);
      LinkedUnlessLast(lista, i);
      if i + 1 < |lista| {
        Written(cab, lista, i + 1);
        FieldsOfHeader(lista, i + 1);
      }
      MergeSparesLive(lista, i);
      var sig := cab[b].sig;
      if sig != 0 && cab[sig].libre {
        if b + CABECERA + cab[b].tam == sig {
          Absorber(b, sig, i);
        }
      }
    }

    method FundirConAnterior(b: nat, ghost i: nat)
      requires Estructura() && i < |lista| && b == lista[i].dir && lista[i].libre
      modifies `cab, `datos, `lista
      ensures Estructura() && lista == Unir(old(lista), i - 1)
      ensures forall x: nat :: EnVivo(lista, x) ==> datos(x) == old(datos)(x)
    {
      hide Fundir, Disjuntos, EnVivo, EnLista, Borrar, Alineados, EscritasSalvo, Rancias, Poner, CabeceraDe, Cambiar;
      Written(cab, lista, i);
      FieldsOfHeader(lista, i);
      if i > 0 {
        ListedIsNotNull(lista, i - 1);
        Written(cab, lista, i - 1);
        FieldsOfHeader(lista, i - 1);
      }
      MergeSparesLive(lista, i - 1);
      var ant := cab[b].ant;
      if ant != 0 && cab[ant].libre {
        if ant + CABECERA + cab[ant].tam == b {
          Absorber(ant, b, i - 1);
        }
      }
    }

    /** Marks a live block free and joins it with the free blocks it touches. */
    method Desligar(b: nat, ghost i: nat)
      requires Estructura() && i < |lista| && b == lista[i].dir && !lista[i].libre
      modifies `cab, `datos, `lista
      ensures Estructura() && lista == Soltar(old(lista), i)
      ensures forall x: nat :: EnVivo(lista, x) ==> datos(x) == old(datos)(x)
    {
      hide Fundir, Disjuntos, EnVivo, EnLista, Borrar, Alineados, EscritasSalvo, Rancias, Poner, CabeceraDe, Unir,
           Desocupar;
      ghost var l, a := lista, Desocupar(lista, i);
      Written(cab, l, i);
      FreeWrites(cab, l, i);
      FreeKeepsLayout(l, i);
      FreedHeader(l, i);
      FreeSparesLive(l, i);
      HeaderSparesLive(l, i, b, datos);
      Escribir(b, cab[b].(libre := true));
      lista := a;
      MergeStaysPut(a, i);
      MergeSparesLive(a, i);
      FundirConSiguiente(b, i);
      MergeSparesLive(lista, i - 1);
      FundirConAnterior(b, i);
    }

    /** The frames that are not the heap's: free ones and those other owners hold. */
    ghost function Ajenas(): set<nat>
      reads `suyos, pmm`cadena, pmm`asignados
    {
      (set f | f in pmm.cadena) + (pmm.asignados - suyos)
    }

    lemma TopExists()
      requires pmm.Valid()
      ensures pmm.pila == 0 <==> pmm.cadena == []
    {
    }

    lemma ForeignFrames()
      ensures Ajenas() == Elementos(pmm.cadena) + (pmm.asignados - suyos)
      ensures forall f :: f in Ajenas() <==> f in pmm.cadena || f in pmm.asignados - suyos
    {
    }

    ghost predicate Paginas()
      reads `lista, `arenas, `suyos, pmm`cadena, pmm`asignados
    {
      && hhdm > 0 && hhdm % PAGINA == 0 && suyos <= pmm.asignados
      && Apartados(lista, hhdm, Ajenas())
      && forall f :: f in suyos ==> EnArena(arenas, f + hhdm)
    }

    ghost predicate Valid()
      reads this, pmm
    {
      Sano() && pmm.Valid() && Paginas()
    }

    /** Gives a block back. A pointer that is not live is a panic that changes nothing. */
    method Liberar(coordinador: bool, p: nat) returns (quebrado: bool)
      requires Valid() && (p == 0 || (p >= CABECERA && p - CABECERA in cab))
      modifies `cab, `datos, `lista, `enUso, `activos
      ensures Valid()
      ensures quebrado <==> coordinador && p != 0 && !EsPuntero(old(lista), p)
      ensures !coordinador || p == 0 || quebrado ==> unchanged(this)
      ensures coordinador && p != 0 && !quebrado ==>
                && lista == Soltar(old(lista), IndiceDe(old(lista), p))
                && (forall q, t :: EsVivo(lista, q, t) <==> EsVivo(old(lista), q, t) && q != p)
      ensures forall x: nat :: EnVivo(lista, x) ==> datos(x) == old(datos)(x)
    {
      hide Fundir, Disjuntos, EnVivo, EnLista, Borrar, Alineados, EscritasSalvo, Rancias, Poner, CabeceraDe, Soltar,
           Suma, SumaUsada, Usados, EsVivo, EsPuntero, Apartados, EnArena, Bases, Fundidos;
      if !coordinador || p == 0 {
        return false;
      }
      var b := p - CABECERA;
      FreeHeaderIsNotLive(cab, lista, b);
      if !Integra(cab[b]) {
        return true;
      }
      if cab[b].libre {
        return true;
      }
      ghost var l, i := lista, IndiceDe(lista, p);
      var tam := cab[b].tam;
      ReleaseAccounts(l, i);
      ReleaseKeepsHealth(l, arenas, i);
      forall q, t ensures EsVivo(Soltar(l, i), q, t) <==> EsVivo(l, q, t) && q != p {
        ReleaseRemovesOneLive(l, i, q, t);
      }
      ReleaseKeepsApart(l, i, hhdm, Ajenas());
      enUso := Max(enUso - tam, 0);
      if activos > 0 {
        activos := activos - 1;
      }
      Desligar(b, i);
      quebrado := false;
    }

    method PrimeraArena(ghost mapa: seq<Entrada>, h: nat, ghost d: nat)
      requires Valid() && lista == [] && arenas == [] && suyos == {} && pmm.asignados == {} && capacidad == 0
      requires h > 0 && h % PAGINA == 0
      requires forall f :: f in pmm.cadena ==> exists i :: 0 <= i < |mapa| && Apilable(mapa[i], h, d, f)
      modifies `cab, `datos, `cabeza, `capacidad, `lista, `arenas
      ensures Valid() && lista == [Bloque(h + hhdm, ARENA_HEAP - CABECERA, true)] && capacidad == ARENA_HEAP
    {
      hide Sano, Apartados, EnArena, Apilable, Encadenada, EnRegla, RangosValidos, Ajenas, Elementos;
      ArenaIsAligned(h, hhdm, ARENA_HEAP / PAGINA);
      AgregarArena(hhdm + h, ARENA_HEAP);
      assert lista == [Bloque(h + hhdm, ARENA_HEAP - CABECERA, true)];
      pmm.FramesAreAligned();
      StackedFramesAvoidArena(mapa, h, d, pmm.cadena, hhdm);
      ForeignFrames();
      assert Ajenas() == Elementos(pmm.cadena);
    }

    /** Without such an arena the heap starts on one page, if there is one. */
    method PrimeraPagina()
      requires Valid() && lista == [] && arenas == [] && suyos == {} && pmm.asignados == {}
      modifies this, pmm
      ensures Valid() && pmm.listo == old(pmm.listo) && forall k :: 0 <= k < |lista| ==> lista[k].libre
      ensures Repartidos(old(pmm.cadena), {}, {}, pmm.cadena, pmm.asignados, suyos) && |arenas| <= 1
    {
      hide Sano, Paginas, Repartidos, MismosDatos;
      NothingGrew(lista, arenas, datos, pmm.cadena, pmm.asignados, suyos);
      TopExists();
      if pmm.pila != 0 {
        var obtenidas, quebrado;
        ghost var b;
        obtenidas, quebrado, b := Crecer(1);
      }
    }

    // ----- Expansion -----

    /** The allocator has handed out the top `n` frames of chain `c`, the set `tramo`, and no more. */
    ghost predicate Tomados(c: seq<nat>, a: set<nat>, n: nat, tramo: set<nat>)
      reads pmm
    {
      && pmm.Valid() && n <= |c| && pmm.cadena == c[n..] && tramo == Elementos(c[..n])
      && tramo !! a && pmm.asignados == a + tramo
    }

    lemma TakenNone()
      requires pmm.Valid()
      ensures Tomados(pmm.cadena, pmm.asignados, 0, {})
    {
      NothingTaken(pmm.cadena);
    }

    lemma TakenMeans(c: seq<nat>, a: set<nat>, n: nat, tramo: set<nat>)
      requires Tomados(c, a, n, tramo)
      ensures pmm.Valid() && n <= |c| && pmm.cadena == c[n..] && tramo == Elementos(c[..n])
      ensures tramo !! a && pmm.asignados == a + tramo
    {
    }

    method TomarPagina(ghost c: seq<nat>, ghost a: set<nat>, ghost n: nat, ghost tramo: set<nat>)
      returns (nueva: nat, quebrado: bool)
      requires Tomados(c, a, n, tramo)
      modifies pmm
      ensures !quebrado && (nueva == 0 <==> n == |c|) && pmm.listo == old(pmm.listo)
      ensures nueva != 0 ==> nueva in pmm.Devolvibles()
      ensures nueva == 0 ==> Tomados(c, a, n, tramo)
      ensures nueva != 0 ==> n < |c| && nueva == c[n] && nueva % PAGINA == 0 && nueva !in tramo && tramo == Elementos(c[..n])
      ensures nueva != 0 ==> Tomados(c, a, n + 1, tramo + {nueva})
    {
      hide Elementos, Encadenada, EnRegla, RangosValidos;
      nueva, quebrado := pmm.Asignar(true);
      if nueva != 0 {
        pmm.FramesAreAligned();
        PrefixGrows(c, n);
      }
    }

    method DevolverPagina(nueva: nat, ghost c: seq<nat>, ghost a: set<nat>, ghost n: nat, ghost tramo: set<nat>)
      returns (quebrado: bool)
      requires n < |c| && nueva !in tramo && nueva == c[n] && Tomados(c, a, n + 1, tramo + {nueva})
      requires tramo == Elementos(c[..n]) && nueva in pmm.Devolvibles() && nueva in pmm.asignados
      modifies pmm
      ensures !quebrado && Tomados(c, a, n, tramo) && pmm.listo == old(pmm.listo)
    {
      hide Elementos, Encadenada, EnRegla, RangosValidos;
      PrefixGrows(c, n);
      quebrado := pmm.Liberar(true, nueva);
    }

    /** Pops frames while they extend the run, upwards or downwards, up to `paginas`; a frame that
        does not fit goes back. What was obtained is exactly one unbroken run from `primera`. */
    method ObtenerTramo(paginas: nat) returns (primera: nat, obtenidas: nat, quebrado: bool, ghost tramo: set<nat>)
      requires pmm.Valid() && pmm.cadena != [] && paginas > 0
      modifies pmm
      ensures pmm.Valid() && !quebrado && 0 < obtenidas <= paginas && EsTramo(tramo, primera, obtenidas)
      ensures obtenidas <= |old(pmm.cadena)| && pmm.cadena == old(pmm.cadena)[obtenidas..]
      ensures tramo == Elementos(old(pmm.cadena)[..obtenidas]) && tramo !! old(pmm.asignados)
      ensures pmm.asignados == old(pmm.asignados) + tramo && pmm.listo == old(pmm.listo)
      ensures obtenidas == paginas || obtenidas == |old(pmm.cadena)|
              || !Contigua(old(pmm.cadena)[obtenidas], primera, obtenidas)
    {
      hide EsTramo, Elementos, Tomados;
      ghost var c, a := pmm.cadena, pmm.asignados;
      obtenidas, tramo := 1, {};
      TakenNone();
      primera, quebrado := TomarPagina(c, a, 0, {});
      if primera == 0 {
        return;
      }
      var previa := primera;
      tramo := {primera};
      assert {} + {primera} == tramo;
      RunStarts(primera);
      var i := 1;
      while i < paginas
        invariant Tomados(c, a, obtenidas, tramo) && !quebrado && 0 < obtenidas == i <= paginas
        invariant pmm.listo == old(pmm.listo)
        invariant EsTramo(tramo, primera, obtenidas) && previa == primera + (obtenidas - 1) * PAGINA
      {
        var nueva;
        nueva, quebrado := TomarPagina(c, a, obtenidas, tramo);
        if nueva == 0 {
          break;
        }
        if nueva == previa + PAGINA {
          RunGrowsUp(tramo, primera, obtenidas, nueva);
          previa := nueva;
          obtenidas := obtenidas + 1;
          tramo := tramo + {nueva};
        } else if nueva + PAGINA == primera {
          RunGrowsDown(tramo, primera, obtenidas, nueva);
          primera := nueva;
          obtenidas := obtenidas + 1;
          tramo := tramo + {nueva};
        } else {
          TakenMeans(c, a, obtenidas + 1, tramo + {nueva});
          quebrado := DevolverPagina(nueva, c, a, obtenidas, tramo);
          break;
        }
        i := i + 1;
      }
      TakenMeans(c, a, obtenidas, tramo);
    }

    /** Turns a run just obtained into an arena. */
    method Incorporar(primera: nat, obtenidas: nat, ghost tramo: set<nat>, ghost antes: set<nat>)
      requires Sano() && pmm.Valid() && hhdm > 0 && hhdm % PAGINA == 0 && suyos + tramo <= pmm.asignados
      requires EsTramo(tramo, primera, obtenidas) && obtenidas > 0 && tramo <= antes && Apartados(lista, hhdm, antes)
      requires forall f :: f in suyos ==> EnArena(arenas, f + hhdm)
      requires forall f :: f in pmm.cadena || f in pmm.asignados - suyos - tramo ==> f in antes
      modifies `cab, `datos, `cabeza, `capacidad, `lista, `arenas, `suyos
      ensures Valid() && suyos == old(suyos) + tramo
      ensures lista == old(lista) + [ArenaDe(primera + hhdm, obtenidas)]
      ensures arenas == old(arenas) + [ArenaDe(primera + hhdm, obtenidas)]
      ensures forall x: nat :: EnVivo(old(lista), x) ==> datos(x) == old(datos)(x)
    {
      hide Sano, EsTramo, Apartados, EnArena, Ajenos, EnVivo, Encadenada, RangosValidos, EnRegla, Elementos, Ajenas;
      pmm.FramesAreAligned();
      RunStartsAligned(tramo, primera, obtenidas);
      ArenaIsAligned(primera, hhdm, obtenidas);
      RunIsApart(lista, hhdm, antes, tramo, primera, obtenidas);
      ghost var otros := Elementos(pmm.cadena) + (pmm.asignados - (suyos + tramo));
      ExpansionKeepsApart(lista, hhdm, antes, otros, tramo, primera, obtenidas);
      ExpansionKeepsInside(arenas, hhdm, suyos, tramo, primera, obtenidas);
      AgregarArena(primera + hhdm, obtenidas * PAGINA);
      suyos := suyos + tramo;
      ForeignFrames();
    }

    /** One attempt: a run of at most `paginas` frames becomes an arena. */
    method Crecer(paginas: nat) returns (obtenidas: nat, quebrado: bool, ghost b: Bloque)
      requires Valid() && pmm.cadena != [] && paginas > 0
      modifies this, pmm
      ensures Valid() && !quebrado && 0 < obtenidas <= paginas
      ensures b.libre && b.tam == obtenidas * PAGINA - CABECERA && pmm.listo == old(pmm.listo)
      ensures lista == old(lista) + [b] && arenas == old(arenas) + [b]
      ensures EnFila(old(pmm.cadena), paginas) ==> obtenidas == paginas
      ensures enUso == old(enUso) && activos == old(activos) && |pmm.cadena| < |old(pmm.cadena)|
      ensures Repartidos(old(pmm.cadena), old(pmm.asignados), old(suyos), pmm.cadena, pmm.asignados, suyos)
      ensures MismosDatos(old(lista), old(datos), datos)
    {
      hide EnVivo, Sano, EsTramo, Apartados, EnArena, Ajenas, Repartidos, Elementos, Encadenada, EnRegla, Repartidas;
      ghost var antes := Ajenas();
      ForeignFrames();
      var primera;
      ghost var tramo;
      ghost var c, a := pmm.cadena, pmm.asignados;
      primera, obtenidas, quebrado, tramo := ObtenerTramo(paginas);
      RunIsShared(c, a, suyos, obtenidas, tramo);
      if EnFila(c, paginas) && obtenidas < paginas {
        RunGoesOn(c, paginas, obtenidas, primera);
      }
      b := ArenaDe(primera + hhdm, obtenidas);
      Incorporar(primera, obtenidas, tramo, antes);
    }

    /** Adds arenas until one has room for `bytes`, the frames run out or the attempts do. */
    method Expandir(bytes: nat) returns (cabe: bool, quebrado: bool)
      requires Valid() && PrimerHueco(lista, bytes) == |lista|
      modifies this, pmm
      ensures Valid() && !quebrado && Crecido(old(lista), old(arenas), lista, arenas)
      ensures cabe ==> PrimerHueco(lista, bytes) == |lista| - 1 && |pmm.cadena| < |old(pmm.cadena)|
      ensures !cabe ==> PrimerHueco(lista, bytes) == |lista|
      ensures !cabe ==> |lista| - |old(lista)| == INTENTOS || pmm.cadena == []
      ensures EnFila(old(pmm.cadena), PaginasDeExpansion(bytes)) ==> cabe
      ensures 0 <= |lista| - |old(lista)| <= INTENTOS && pmm.listo == old(pmm.listo)
      ensures Repartidos(old(pmm.cadena), old(pmm.asignados), old(suyos), pmm.cadena, pmm.asignados, suyos)
      ensures MismosDatos(old(lista), old(datos), datos)
    {
      hide Crecido, MismosDatos, Sano, Paginas, PrimerHueco, Repartidos, PaginasDeExpansion;
      cabe, quebrado := false, false;
      var paginas := PaginasDeExpansion(bytes);
      var intento := 0;
      NothingGrew(lista, arenas, datos, pmm.cadena, pmm.asignados, suyos);
      while intento < INTENTOS && pmm.pila != 0
        invariant intento <= INTENTOS && |lista| == |old(lista)| + intento && !cabe && !quebrado
        invariant Valid() && Crecido(old(lista), old(arenas), lista, arenas) && PrimerHueco(lista, bytes) == |lista|
        invariant |pmm.cadena| + intento <= |old(pmm.cadena)| && pmm.listo == old(pmm.listo)
        invariant if intento == 0 then pmm.cadena == old(pmm.cadena) else !EnFila(old(pmm.cadena), paginas)
        invariant Repartidos(old(pmm.cadena), old(pmm.asignados), old(suyos), pmm.cadena, pmm.asignados, suyos)
        invariant MismosDatos(old(lista), old(datos), datos)
      {
        TopExists();
        ghost var l, ar, d, c, a, s := lista, arenas, datos, pmm.cadena, pmm.asignados, suyos;
        var obtenidas;
        ghost var b;
        obtenidas, quebrado, b := Crecer(paginas);
        CrecidoMas(old(lista), old(arenas), l, ar, b);
        SameDataAfterGrowth(old(lista), old(arenas), l, ar, old(datos), d, datos);
        StillShared(old(pmm.cadena), old(pmm.asignados), old(suyos), c, a, s, pmm.cadena, pmm.asignados, suyos);
        FirstFitAppend(l, b, bytes);
        intento := intento + 1;
        if obtenidas * PAGINA >= bytes + CABECERA {
          cabe := true;
          return;
        }
      }
      TopExists();
    }

    // ----- Allocation -----

    lemma InOrder()
      requires Valid()
      ensures Disjuntos(lista) && Alineados(lista)
    {
    }

    method Servir(b: nat, bytes: nat, ghost i: nat) returns (p: nat)
      requires Valid() && i < |lista| && b == lista[i].dir && Cabe(lista[i], bytes) && bytes > 0 && bytes % 16 == 0
      modifies `cab, `datos, `enUso, `activos, `lista
      ensures Valid() && p == Puntero(old(lista)[i]) && lista == Tomar(old(lista), i, bytes)
      ensures MismosDatos(old(lista), old(datos), datos)
    {
      hide Fundir, Disjuntos, EnVivo, Alineados, Fundidos, Bases, EscritasSalvo, Rancias, Tomar, Suma, SumaUsada, Usados,
           Apartados, EnArena, Partir;
      TakeAccounts(lista, i, bytes);
      TakeKeepsHealth(lista, arenas, i, bytes);
      TakeKeepsApart(lista, i, bytes, hhdm, Ajenas());
      p := Ocupar(b, bytes, i);
    }

    /** First fit, expanding the heap when nothing fits. Once an expansion makes room the repeated
        request takes it without expanding again. */
    method Asignar(coordinador: bool, pedidos: nat) returns (p: nat, quebrado: bool)
      requires Valid()
      modifies this, pmm
      ensures Valid() && !quebrado
      ensures !coordinador || pedidos == 0 ==> p == 0 && unchanged(this) && unchanged(pmm)
      ensures coordinador && pedidos > 0 ==>
                Concedido(old(lista), old(arenas), Redondear(pedidos), p, lista, arenas)
      ensures coordinador && pedidos > 0 && PrimerHueco(old(lista), Redondear(pedidos)) < |old(lista)| ==>
                p != 0 && arenas == old(arenas) && unchanged(pmm)
      ensures coordinador && pedidos > 0 && p == 0 ==> |arenas| - |old(arenas)| == INTENTOS || pmm.cadena == []
      ensures coordinador && pedidos > 0 && EnFila(old(pmm.cadena), PaginasDeExpansion(Redondear(pedidos))) ==> p != 0
      ensures pmm.listo == old(pmm.listo)
      ensures Repartidos(old(pmm.cadena), old(pmm.asignados), old(suyos), pmm.cadena, pmm.asignados, suyos)
      ensures MismosDatos(old(lista), old(datos), datos)
      decreases |pmm.cadena|
    {
      hide Crecido, MismosDatos, Sano, Paginas, PrimerHueco, Repartidos, Concedido, Tomar, Disjuntos, Alineados;
      InOrder();
      NothingGrew(lista, arenas, datos, pmm.cadena, pmm.asignados, suyos);
      p, quebrado := 0, false;
      if !coordinador || pedidos == 0 {
        return;
      }
      var bytes := Redondear(pedidos);
      var b;
      ghost var i;
      b, quebrado, i := HuecoValido(bytes);
      if b != 0 {
        ghost var l := lista;
        p := Servir(b, bytes, i);
        GrantedAtOnce(l, arenas, bytes);
      } else {
        ghost var l, ar, d := lista, arenas, datos;
        ghost var c, a, s := pmm.cadena, pmm.asignados, suyos;
        var cabe;
        cabe, quebrado := Expandir(bytes);
        InOrder();
        GrantedAfterGrowth(l, ar, lista, arenas, bytes);
        if cabe {
          ghost var l', ar', d' := lista, arenas, datos;
          ghost var c', a', s' := pmm.cadena, pmm.asignados, suyos;
          RoundedTwice(pedidos);
          p, quebrado := Asignar(true, bytes);
          SameDataAfterGrowth(l, ar, l', ar', d, d', datos);
          StillShared(c, a, s, c', a', s', pmm.cadena, pmm.asignados, suyos);
        }
      }
    }

    method HuecoValido(bytes: nat) returns (b: nat, quebrado: bool, ghost i: nat)
      requires Valid()
      ensures !quebrado && i == PrimerHueco(lista, bytes) && b == DirEn(lista, i) && (b == 0 <==> i == |lista|)
      ensures b != 0 ==> Cabe(lista[i], bytes) && b == lista[i].dir
    {
      hide Disjuntos, PrimerHueco, Alineados, Fundidos, Fundir, EscritasSalvo, Rancias, Paginas;
      b, quebrado, i := BuscarHueco(bytes);
      if i < |lista| {
        ListedIsNotNull(lista, i);
      }
    }

    /** A client's copy into its own block: it may run over the whole block without harm. */
    method CopiarDatos(dst: nat, src: nat, n: nat)
      requires Valid() && EsPuntero(lista, dst) && n <= TamDe(lista, dst)
      modifies `cab, `datos
      ensures Valid() && datos == Copiar(old(datos), dst, src, n)
    {
      hide Disjuntos, EscritasSalvo, Rancias, EsPuntero, Pisadas, Copiar, Paginas, Alineados, Fundidos, Fundir,
           Suma, SumaUsada, Usados, Bases;
      PointerIsLive(lista, dst);
      DataSparesHeaders(cab, lista, IndiceDe(lista, dst), dst, n);
      cab := Pisadas(cab, dst, n);
      datos := Copiar(datos, dst, src, n);
    }

    // ----- Reallocation -----

    /** The second half of a move: copy to the new block, free the old one. */
    method Trasladar(p: nat, r: nat, n: nat) returns (quebrado: bool)
      requires Valid() && EsVivo(lista, p, n) && EsPuntero(lista, r) && p != r && n <= TamDe(lista, r) && p > 0
      modifies `cab, `datos, `lista, `enUso, `activos
      ensures Valid() && !quebrado
      ensures forall q, t :: EsVivo(lista, q, t) <==> EsVivo(old(lista), q, t) && q != p
      ensures MismosDatos(lista, Copiar(old(datos), r, p, n), datos)
    {
      hide Sano, EsPuntero, EsVivo, EnVivo, Copiar, Paginas;
      InOrder();
      SizeOfLive(lista, p, n);
      CopiarDatos(r, p, n);
      HeaderOfLive(p, n);
      quebrado := Liberar(true, p);
    }

    lemma HeaderOfLive(p: nat, n: nat)
      requires Sano() && EsVivo(lista, p, n)
      ensures p >= CABECERA && p - CABECERA in cab && cab[p - CABECERA].tam == n && Integra(cab[p - CABECERA])
    {
      hide Disjuntos, Alineados, Fundir, Suma, SumaUsada, Usados, Rancias, Fundidos;
      var i :| 0 <= i < |lista| && !lista[i].libre && Puntero(lista[i]) == p && lista[i].tam == n;
      Written(cab, lista, i);
    }

    /** Reallocation of a live block, or of none. A null answer to a positive size leaves everything
        live; otherwise the block has moved, or stayed, with its contents, and no other is touched. */
    method Reasignar(coordinador: bool, p: nat, n: nat) returns (r: nat, quebrado: bool)
      requires Valid() && (p == 0 || EsPuntero(lista, p))
      modifies this, pmm
      ensures Valid() && !quebrado
      ensures p != 0 && n == 0 ==> r == 0
      ensures p != 0 && n == 0 ==>
                forall q, t :: EsVivo(lista, q, t) <==> EsVivo(old(lista), q, t) && (q != p || !coordinador)
      ensures n > 0 && r == 0 ==> MismosVivos(old(lista), lista) && MismosDatos(old(lista), old(datos), datos)
      ensures p != 0 && n > 0 && TamDe(old(lista), p) >= n ==> r == p && unchanged(this) && unchanged(pmm)
      ensures r != 0 ==> EsPuntero(lista, r) && TamDe(lista, r) >= n > 0
      ensures r != 0 && r != p ==> Trasladado(old(lista), p, lista, r)
      ensures r != 0 && p != 0 ==> Copiado(old(datos), p, datos, r, TamDe(old(lista), p))
      ensures MismosDatosSalvo(old(lista), p, old(datos), datos)
    {
      hide Sano, EsPuntero, EsVivo, EnVivo, Copiar, Paginas, Concedido, Repartidos, TamDe, MismosDatos, MismosDatosSalvo,
           PrimerHueco;
      ghost var l, ar, d := lista, arenas, datos;
      InOrder();
      SameData(l, d);
      if p == 0 {
        r, quebrado := Asignar(coordinador, n);
        AllSame(l, p, d, datos);
        InOrder();
        if coordinador && n > 0 {
          GrantedIsLive(l, ar, Redondear(n), r, lista, arenas);
          NullIsNotLive(l);
          if r != 0 {
            SizeOfLive(lista, r, TamDe(lista, r));
          }
        }
        return;
      }
      PointerIsLive(l, p);
      HeaderOfLive(p, TamDe(l, p));
      if n == 0 {
        quebrado := Liberar(coordinador, p);
        r := 0;
        if coordinador {
          SameAfter(lista, d, datos);
          SameAfterFree(l, lista, p, d, datos);
        } else {
          AllSame(l, p, d, datos);
        }
        return;
      }
      var tam := cab[p - CABECERA].tam;
      AllSame(l, p, d, datos);
      if tam >= n {
        r, quebrado := p, false;
        return;
      }
      r, quebrado := Mudar(coordinador, p, n, tam);
    }

    method Mudar(coordinador: bool, p: nat, n: nat, tam: nat) returns (r: nat, quebrado: bool)
      requires Valid() && EsVivo(lista, p, tam) && tam < n && p > 0
      modifies this, pmm
      ensures Valid() && !quebrado
      ensures r == 0 ==> MismosVivos(old(lista), lista) && MismosDatos(old(lista), old(datos), datos)
      ensures r != 0 ==> r != p && EsPuntero(lista, r) && TamDe(lista, r) >= n && Trasladado(old(lista), p, lista, r)
      ensures r != 0 ==> Copiado(old(datos), p, datos, r, tam)
      ensures MismosDatosSalvo(old(lista), p, old(datos), datos)
    {
      hide Sano, EsPuntero, EsVivo, EnVivo, Copiar, Paginas, Concedido, Repartidos, TamDe, MismosDatos, MismosDatosSalvo,
           Copiado, Trasladado, PrimerHueco;
      ghost var l, ar, d := lista, arenas, datos;
      r, quebrado := Asignar(coordinador, n);
      AllSame(l, p, d, datos);
      InOrder();
      if coordinador {
        GrantedIsLive(l, ar, Redondear(n), r, lista, arenas);
      }
      if r == 0 {
        return;
      }
      ghost var m, d1 := lista, datos;
      SizeOfLive(m, r, TamDe(m, r));
      PointerHasSize(l, p);
      quebrado := Trasladar(p, r, tam);
      InOrder();
      MovedBlocks(l, m, lista, p, r);
      SizeOfLive(lista, r, TamDe(lista, r));
      MoveCopies(l, lista, p, r, tam, TamDe(lista, r), d, d1, datos);
      MoveKeepsOthers(l, m, lista, p, r, tam, d, d1, datos);
    }

    // ----- Audit -----

    /** The audit finds every canary and every back link of a valid heap in order. */
    method VerificarIntegridad() returns (r: int, quebrado: bool)
      requires Valid()
      ensures r == 1 && !quebrado
    {
      hide Disjuntos, Paginas, Fundidos, Fundir, Suma, SumaUsada, Usados, Bases, Rancias, EscritasSalvo;
      assert forall k :: 0 <= k < |lista| ==> Alineado(lista[k]);
      HeadersAreSound(cab, cabeza, lista);
      r, quebrado := Auditar(cab, cabeza, Direcciones(lista));
    }

    // ----- Boot -----

    lemma HasItsFrames()
      requires Valid()
      ensures suyos <= pmm.asignados
    {
      hide Sano, Apartados, EnArena;
    }

    /** State bytes for every usable entry, each array out of the heap. A panic when there are more than
        128 entries, or when the heap has no room and cannot grow. */
    method CrearRangos(mapa: seq<Entrada>)
      returns (rangos: seq<Rango>, estado: seq<seq<bv8>>, punteros: seq<nat>, quebrado: bool, ghost tams: seq<nat>)
      requires Valid() && MapaValido(mapa)
      modifies this, pmm
      ensures Valid() && pmm.listo == old(pmm.listo) && RangosValidos(rangos, estado) && Limpio(estado)
      ensures Repartidos(old(pmm.cadena), old(pmm.asignados), old(suyos), pmm.cadena, pmm.asignados, suyos)
      ensures SonArreglos(old(lista), lista, rangos, punteros, tams) && |punteros| == |rangos| <= MAX_RANGOS
      ensures !quebrado ==> Cubiertos(mapa, |mapa|, rangos)
      ensures quebrado ==> |rangos| == MAX_RANGOS || pmm.cadena == [] || |arenas| - |old(arenas)| >= INTENTOS
    {
      hide Sano, Paginas, EsVivo, EsPuntero, RangosValidos, Limpio, Repartidos, MapaValido, TieneRango, RangoDe, SonArreglos,
           Cubiertos, TamDe, Ceros, Encadenada, EnRegla, Repartidas;
      rangos, estado, punteros, tams, quebrado := [], [], [], [], false;
      NoArrays(mapa, lista);
      NothingGrew(lista, arenas, datos, pmm.cadena, pmm.asignados, suyos);
      ghost var l0, c0, a0, s0 := lista, pmm.cadena, pmm.asignados, suyos;
      var i: nat := 0;
      while i < |mapa|
        invariant i <= |mapa| && |rangos| <= MAX_RANGOS && Valid() && pmm.listo == old(pmm.listo) && !quebrado
        invariant RangosValidos(rangos, estado) && Limpio(estado) && |arenas| >= |old(arenas)|
        invariant Repartidos(c0, a0, s0, pmm.cadena, pmm.asignados, suyos) && SonArreglos(l0, lista, rangos, punteros, tams)
        invariant Cubiertos(mapa, i, rangos) && |punteros| == |rangos|
      {
        if TieneRango(mapa[i]) {
          if |rangos| == MAX_RANGOS {
            quebrado := true;
            return;
          }
          var r := RangoDe(mapa[i]);
          HasPages(mapa[i]);
          var p := UnArreglo(r, l0, c0, a0, s0, rangos, punteros, tams);
          if p == 0 {
            quebrado := true;
            return;
          }
          NextRange(mapa, i, rangos, estado);
          rangos, estado := rangos + [r], estado + [Ceros((r.paginas + 3) / 4)];
          punteros, tams := punteros + [p], tams + [TamDe(lista, p)];
        } else {
          NoRange(mapa, i, rangos);
        }
        i := i + 1;
      }
    }

    /** The array of one more range. */
    method UnArreglo(r: Rango, ghost l0: seq<Bloque>, ghost c0: seq<nat>, ghost a0: set<nat>, ghost s0: set<nat>,
                     ghost rangos: seq<Rango>, ghost punteros: seq<nat>, ghost tams: seq<nat>) returns (p: nat)
      requires Valid() && r.paginas > 0 && SonArreglos(l0, lista, rangos, punteros, tams)
      requires Repartidos(c0, a0, s0, pmm.cadena, pmm.asignados, suyos)
      modifies this, pmm
      ensures Valid() && pmm.listo == old(pmm.listo) && |arenas| >= |old(arenas)|
      ensures Repartidos(c0, a0, s0, pmm.cadena, pmm.asignados, suyos)
      ensures p == 0 ==> |arenas| - |old(arenas)| == INTENTOS || pmm.cadena == []
      ensures if p == 0 then SonArreglos(l0, lista, rangos, punteros, tams)
              else SonArreglos(l0, lista, rangos + [r], punteros + [p], tams + [TamDe(lista, p)])
    {
      hide Sano, Paginas, EsVivo, EsPuntero, RangosValidos, Repartidos, SonArreglos, TamDe, Encadenada, EnRegla, Repartidas;
      ghost var l, c, a, s := lista, pmm.cadena, pmm.asignados, suyos;
      var quebrado;
      p, quebrado := PedirEstados(r);
      StillShared(c0, a0, s0, c, a, s, pmm.cadena, pmm.asignados, suyos);
      if p == 0 {
        SameArrays(l0, l, lista, rangos, punteros, tams);
      } else {
        OneMoreArray(l0, l, lista, rangos, punteros, tams, r, p);
      }
    }

    /** The array of one range. */
    method PedirEstados(r: Rango) returns (p: nat, quebrado: bool)
      requires Valid() && r.paginas > 0
      modifies this, pmm
      ensures Valid() && !quebrado && pmm.listo == old(pmm.listo) && |arenas| >= |old(arenas)|
      ensures Repartidos(old(pmm.cadena), old(pmm.asignados), old(suyos), pmm.cadena, pmm.asignados, suyos)
      ensures p == 0 ==> |arenas| - |old(arenas)| == INTENTOS || pmm.cadena == []
      ensures p == 0 ==> forall q, t :: EsVivo(lista, q, t) <==> EsVivo(old(lista), q, t)
      ensures p != 0 ==> p % 16 == 0 && !EsPuntero(old(lista), p) && TamDe(lista, p) >= (r.paginas + 3) / 4
      ensures p != 0 ==> forall q, t :: EsVivo(lista, q, t) <==> EsVivo(old(lista), q, t) || (q == p && t == TamDe(lista, p))
    {
      hide Paginas, EsVivo, EsPuntero, TamDe, RangosValidos, Repartidos, PrimerHueco, MismosDatos, Crecido, Tomar, Redondear,
           Disjuntos;
      ghost var l, ar := lista, arenas;
      p, quebrado := Asignar(true, (r.paginas + 3) / 4);
      InOrder();
      GrantedIsLive(l, ar, Redondear((r.paginas + 3) / 4), p, lista, arenas);
    }
  }

  /** One live block for each range, large enough for its states, and no other than those before. */
  ghost predicate SonArreglos(l0: seq<Bloque>, l: seq<Bloque>, rangos: seq<Rango>, punteros: seq<nat>, tams: seq<nat>) {
    && |punteros| == |tams| == |rangos|
    && (forall k :: 0 <= k < |rangos| ==> EsVivo(l, punteros[k], tams[k]) && tams[k] >= (rangos[k].paginas + 3) / 4)
    && (forall j, k :: 0 <= j < k < |rangos| ==> punteros[j] != punteros[k])
    && forall q, t :: EsVivo(l, q, t) <==>
         EsVivo(l0, q, t) || exists k :: 0 <= k < |rangos| && q == punteros[k] && t == tams[k]
  }

  /** The ranges are those of the usable entries among the first `n`. */
  ghost predicate Cubiertos(mapa: seq<Entrada>, n: nat, rangos: seq<Rango>) {
    && n <= |mapa|
    && (forall k :: 0 <= k < n && TieneRango(mapa[k]) ==> RangoDe(mapa[k]) in rangos)
    && forall r :: r in rangos ==> exists k :: 0 <= k < n && TieneRango(mapa[k]) && r == RangoDe(mapa[k])
  }

  lemma NextRange(mapa: seq<Entrada>, i: nat, rangos: seq<Rango>, estado: seq<seq<bv8>>)
    requires MapaValido(mapa) && i < |mapa| && TieneRango(mapa[i]) && RangosValidos(rangos, estado)
    requires Cubiertos(mapa, i, rangos) && Limpio(estado)
    ensures var r := RangoDe(mapa[i]);
            && Cubiertos(mapa, i + 1, rangos + [r])
            && RangosValidos(rangos + [r], estado + [Ceros((r.paginas + 3) / 4)])
            && Limpio(estado + [Ceros((r.paginas + 3) / 4)])
  {
    hide MapaValido, RangosValidos, TieneRango, RangoDe;
    RangesStayApart(mapa, i, rangos, estado);
    CleanAppends(estado, (RangoDe(mapa[i]).paginas + 3) / 4);
  }

  lemma NoRange(mapa: seq<Entrada>, i: nat, rangos: seq<Rango>)
    requires i < |mapa| && !TieneRango(mapa[i]) && Cubiertos(mapa, i, rangos)
    ensures Cubiertos(mapa, i + 1, rangos)
  {
    hide TieneRango, RangoDe;
  }

  lemma HasPages(e: Entrada)
    requires TieneRango(e)
    ensures RangoDe(e).paginas > 0
  {
  }

  lemma NoArrays(mapa: seq<Entrada>, l: seq<Bloque>)
    ensures SonArreglos(l, l, [], [], []) && RangosValidos([], []) && Limpio([]) && Cubiertos(mapa, 0, [])
  {
  }

  lemma CoversAll(mapa: seq<Entrada>, rangos: seq<Rango>)
    requires Cubiertos(mapa, |mapa|, rangos)
    ensures forall i :: 0 <= i < |mapa| && TieneRango(mapa[i]) ==> RangoDe(mapa[i]) in rangos
  {
    hide TieneRango, RangoDe;
  }

  lemma ChainOnlyShrinks(c: seq<nat>, c': seq<nat>, a': set<nat>, s': set<nat>)
    requires Repartidos(c, {}, {}, c', a', s') && s' <= a'
    ensures a' == s' && forall f :: f in c' ==> f in c
  {
    forall f | f in a' ensures f in s' {
      assert f !in s' ==> f in a' - s';
    }
  }

  lemma SameArrays(l0: seq<Bloque>, l: seq<Bloque>, m: seq<Bloque>, rangos: seq<Rango>, punteros: seq<nat>, tams: seq<nat>)
    requires SonArreglos(l0, l, rangos, punteros, tams) && forall q, t :: EsVivo(m, q, t) <==> EsVivo(l, q, t)
    ensures SonArreglos(l0, m, rangos, punteros, tams)
  {
    hide EsVivo;
  }

  lemma OneMoreArray(l0: seq<Bloque>, l: seq<Bloque>, m: seq<Bloque>, rangos: seq<Rango>, punteros: seq<nat>, tams: seq<nat>,
                     r: Rango, p: nat)
    requires SonArreglos(l0, l, rangos, punteros, tams) && !EsPuntero(l, p) && TamDe(m, p) >= (r.paginas + 3) / 4
    requires forall q, t :: EsVivo(m, q, t) <==> EsVivo(l, q, t) || (q == p && t == TamDe(m, p))
    ensures SonArreglos(l0, m, rangos + [r], punteros + [p], tams + [TamDe(m, p)])
  {
    hide EsVivo, EsPuntero, TamDe;
    var ps, ts := punteros + [p], tams + [TamDe(m, p)];
    forall k | 0 <= k < |punteros| ensures punteros[k] != p {
      LiveIsPointer(l, punteros[k], tams[k]);
    }
    forall q, t
      ensures EsVivo(m, q, t) <==> EsVivo(l0, q, t) || exists k :: 0 <= k < |ps| && q == ps[k] && t == ts[k]
    {
      if k :| 0 <= k < |punteros| && q == punteros[k] && t == tams[k] {
        assert ps[k] == q && ts[k] == t;
      }
      if q == p && t == TamDe(m, p) {
        assert ps[|punteros|] == q && ts[|punteros|] == t;
      }
    }
  }

  /** In a heap without live blocks the arrays are all there is. */
  lemma FreshHeap(l0: seq<Bloque>, l: seq<Bloque>, rangos: seq<Rango>, punteros: seq<nat>, tams: seq<nat>)
    requires SonArreglos(l0, l, rangos, punteros, tams) && forall k :: 0 <= k < |l0| ==> l0[k].libre
    ensures SonArreglos([], l, rangos, punteros, tams)
  {
  }

  lemma LiveIsPointer(l: seq<Bloque>, p: nat, t: nat)
    requires EsVivo(l, p, t)
    ensures EsPuntero(l, p)
  {
  }

  lemma CleanAppends(estado: seq<seq<bv8>>, n: nat)
    requires Limpio(estado)
    ensures Limpio(estado + [Ceros(n)])
  {
  }

  /** The whole memory boot. The heap starts on the 8 MiB arena, or on one page when there is none, and
      the states of the frames are arrays in it; frames it takes for them are taken before there are
      states, all lie in its arenas, and stay reserved. At the end the heap is valid over a valid
      allocator, its live blocks are exactly those arrays, and every free frame is a usable page from
      1 MiB up outside the heap arena and the DMA arena. */
  method Arrancar(mapa: seq<Entrada>, hhdm: nat)
    returns (m: Monton, h: nat, d: nat, punteros: seq<nat>, quebrado: bool, ghost tams: seq<nat>)
    requires MapaValido(mapa) && hhdm > 0 && hhdm % PAGINA == 0
    ensures m.Valid() && fresh(m) && fresh(m.pmm) && m.pmm.listo == !quebrado
    ensures m.pmm.asignados == m.suyos && m.pmm.tempranos == m.suyos
    ensures h == 0 <==> forall i :: 0 <= i < |mapa| ==> !CabeHeap(mapa[i])
    ensures h != 0 ==> DentroDeUsable(mapa, h, ARENA_HEAP)
    ensures d != 0 ==> DentroDeUsable(mapa, d, ARENA_DMA)
    ensures h != 0 && d != 0 ==> Separadas(h, ARENA_HEAP, d, ARENA_DMA)
    ensures forall f :: f in m.pmm.cadena ==> exists i :: 0 <= i < |mapa| && Apilable(mapa[i], h, d, f)
    ensures !quebrado ==> SonArreglos([], m.lista, m.pmm.rangos, punteros, tams)
    ensures !quebrado ==> Cubiertos(mapa, |mapa|, m.pmm.rangos)
    ensures quebrado ==> |punteros| == MAX_RANGOS || m.pmm.cadena == [] || |m.arenas| >= INTENTOS
  {
    hide Apilable, DentroDeUsable, CabeHeap, MapaValido, Monton.Sano, Monton.Paginas, RangosValidos, Encadenada, EnRegla,
         Repartidos, SonArreglos, Limpio, EsVivo, TieneRango, RangoDe, MismosDatos;
    var pmm;
    h, d, pmm := Iniciar(mapa);
    ghost var c0 := pmm.cadena;
    m := new Monton(pmm, hhdm);
    if h != 0 {
      m.PrimeraArena(mapa, h, d);
      NothingGrew(m.lista, m.arenas, m.datos, c0, {}, {});
    } else {
      m.PrimeraPagina();
    }
    ghost var l0, c1, a1, s1 := m.lista, pmm.cadena, pmm.asignados, m.suyos;
    var rangos, estado;
    rangos, estado, punteros, quebrado, tams := m.CrearRangos(mapa);
    StillShared(c0, {}, {}, c1, a1, s1, pmm.cadena, pmm.asignados, m.suyos);
    m.HasItsFrames();
    ChainOnlyShrinks(c0, pmm.cadena, pmm.asignados, m.suyos);
    FreshHeap(l0, m.lista, rangos, punteros, tams);
    if quebrado {
      return;
    }
    CoversAll(mapa, rangos);
    quebrado := Terminar(mapa, h, d, pmm, rangos, estado);
  }
}
