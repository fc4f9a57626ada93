/** The kernel heap as a list of blocks: what first-fit allocation, freeing with coalescing and
    arena growth do to the list, and what they keep. */
module Bloques {

  const CABECERA: nat := 48

  datatype Bloque = Bloque(dir: nat, tam: nat, libre: bool)

  function Fin(b: Bloque): nat { b.dir + CABECERA + b.tam }

  function Puntero(b: Bloque): nat { b.dir + CABECERA }

  // ----- The invariant -----

  predicate Ajenos(b: Bloque, c: Bloque) {
    Fin(b) <= c.dir || Fin(c) <= b.dir
  }

  predicate Disjuntos(l: seq<Bloque>) {
    forall i, j :: 0 <= i < j < |l| ==> Ajenos(l[i], l[j])
  }

  predicate Alineado(b: Bloque) {
    b.dir > 0 && b.dir % 16 == 0 && b.tam % 16 == 0 && b.tam > 0
  }

  predicate Alineados(l: seq<Bloque>) {
    forall i :: 0 <= i < |l| ==> Alineado(l[i])
  }

  predicate LibresQueTocan(b: Bloque, c: Bloque) {
    b.libre && c.libre && Fin(b) == c.dir
  }

  /** Two free blocks that touch in the list can only meet at the start of an arena. */
  predicate Fundidos(l: seq<Bloque>, bases: set<nat>) {
    forall i :: 0 < i < |l| && LibresQueTocan(l[i - 1], l[i]) ==> l[i].dir in bases
  }

  function Suma(l: seq<Bloque>): nat {
    if l == [] then 0 else CABECERA + l[0].tam + Suma(l[1..])
  }

  function SumaUsada(l: seq<Bloque>): nat {
    if l == [] then 0 else (if l[0].libre then 0 else l[0].tam) + SumaUsada(l[1..])
  }

  function Usados(l: seq<Bloque>): nat {
    if l == [] then 0 else (if l[0].libre then 0 else 1) + Usados(l[1..])
  }

  datatype Tramo = Tramo(dir: nat, largo: nat)

  function Juntar(f: seq<Tramo>, dir: nat, largo: nat): (r: seq<Tramo>) {
    if f != [] && f[|f| - 1].dir + f[|f| - 1].largo == dir
    then f[..|f| - 1] + [Tramo(f[|f| - 1].dir, f[|f| - 1].largo + largo)]
    else f + [Tramo(dir, largo)]
  }

  /** The memory a list occupies: its blocks in order, neighbours that touch melted together. */
  function Fundir(l: seq<Bloque>): (f: seq<Tramo>) {
    if l == [] then []
    else Juntar(Fundir(l[..|l| - 1]), l[|l| - 1].dir, CABECERA + l[|l| - 1].tam)
  }

  function Bases(arenas: seq<Bloque>): (s: set<nat>) {
    set k | 0 <= k < |arenas| :: arenas[k].dir
  }

  /** `arenas` are the regions handed to the heap, each as the single free block it started as. */
  predicate Sana(l: seq<Bloque>, arenas: seq<Bloque>) {
    Disjuntos(l) && Alineados(l) && Fundidos(l, Bases(arenas)) && Fundir(l) == Fundir(arenas)
  }

  /** A live allocation: its pointer and its usable size. */
  predicate EsVivo(l: seq<Bloque>, p: nat, n: nat) {
    exists i :: 0 <= i < |l| && !l[i].libre && Puntero(l[i]) == p && l[i].tam == n
  }

  // ----- The operations -----

  predicate Cabe(b: Bloque, bytes: nat) {
    b.libre && b.tam >= bytes
  }

  /** The first free block of at least `bytes`, or the length of the list. */
  function PrimerHueco(l: seq<Bloque>, bytes: nat): (i: nat)
    ensures i <= |l|
    ensures i < |l| ==> Cabe(l[i], bytes)
    ensures forall k :: 0 <= k < i ==> !Cabe(l[k], bytes)
  {
    if l == [] then 0
    else if Cabe(l[0], bytes) then 0
    else
      var i := PrimerHueco(l[1..], bytes);
      assert forall k :: 0 < k < i + 1 ==> l[k] == l[1..][k - 1];
      i + 1
  }

  function Partir(b: Bloque, bytes: nat): (p: seq<Bloque>)
    requires b.tam >= bytes
    ensures 1 <= |p| <= 2
  {
    if b.tam >= bytes + CABECERA + 32 then
      [Bloque(b.dir, bytes, false), Bloque(b.dir + CABECERA + bytes, b.tam - bytes - CABECERA, true)]
    else [b.(libre := false)]
  }

  /** The list with the `n` blocks at `i` replaced by `m`. */
  function Cambiar(l: seq<Bloque>, i: nat, n: nat, m: seq<Bloque>): (r: seq<Bloque>)
    requires i + n <= |l|
    ensures |r| == |l| - n + |m|
    ensures forall k :: 0 <= k < i ==> r[k] == l[k]
    ensures forall k :: 0 <= k < |m| ==> r[i + k] == m[k]
    ensures forall k :: i + |m| <= k < |r| ==> r[k] == l[k - |m| + n]
  {
    l[..i] + m + l[i + n..]
  }

  function Tomar(l: seq<Bloque>, i: nat, bytes: nat): (r: seq<Bloque>)
    requires i < |l| && Cabe(l[i], bytes)
  {
    Cambiar(l, i, 1, Partir(l[i], bytes))
  }

  predicate TocanLibres(l: seq<Bloque>, i: int) {
    0 <= i && i + 1 < |l| && LibresQueTocan(l[i], l[i + 1])
  }

  function Fusion(b: Bloque, c: Bloque): Bloque {
    b.(tam := b.tam + CABECERA + c.tam)
  }

  /** Joins block `i` with the next one, when both are free and touch. */
  function Unir(l: seq<Bloque>, i: int): (r: seq<Bloque>) {
    if TocanLibres(l, i) then Cambiar(l, i, 2, [Fusion(l[i], l[i + 1])]) else l
  }

  function Desocupar(l: seq<Bloque>, i: nat): (r: seq<Bloque>)
    requires i < |l|
  {
    Cambiar(l, i, 1, [l[i].(libre := true)])
  }

  function Soltar(l: seq<Bloque>, i: nat): (r: seq<Bloque>)
    requires i < |l|
  {
    Unir(Unir(Desocupar(l, i), i), i - 1)
  }

  // ----- Replacing blocks: sums -----

  lemma {:induction false} SumsAppend(a: seq<Bloque>, b: seq<Bloque>)
    ensures Suma(a + b) == Suma(a) + Suma(b)
    ensures SumaUsada(a + b) == SumaUsada(a) + SumaUsada(b)
    ensures Usados(a + b) == Usados(a) + Usados(b)
  {
    if a == [] {
      assert a + b == b;
    } else {
      assert (a + b)[1..] == a[1..] + b;
      SumsAppend(a[1..], b);
    }
  }

  lemma SumsOfOne(b: Bloque)
    ensures Suma([b]) == CABECERA + b.tam
    ensures SumaUsada([b]) == if b.libre then 0 else b.tam
    ensures Usados([b]) == if b.libre then 0 else 1
  {
    assert [b][1..] == [];
  }

  lemma SumsOfTwo(b: Bloque, c: Bloque)
    ensures Suma([b, c]) == Suma([b]) + Suma([c])
    ensures SumaUsada([b, c]) == SumaUsada([b]) + SumaUsada([c])
    ensures Usados([b, c]) == Usados([b]) + Usados([c])
  {
    SumsAppend([b], [c]);
    assert [b] + [c] == [b, c];
  }

  /** Sums change by the difference between what is put in and what is taken out. */
  lemma ChangeAccounts(l: seq<Bloque>, i: nat, n: nat, m: seq<Bloque>)
    requires i + n <= |l|
    ensures Suma(Cambiar(l, i, n, m)) == Suma(l) - Suma(l[i..i + n]) + Suma(m)
    ensures SumaUsada(Cambiar(l, i, n, m)) == SumaUsada(l) - SumaUsada(l[i..i + n]) + SumaUsada(m)
    ensures Usados(Cambiar(l, i, n, m)) == Usados(l) - Usados(l[i..i + n]) + Usados(m)
  {
    hide Suma, SumaUsada, Usados;
    var a, x, b := l[..i], l[i..i + n], l[i + n..];
    assert l == a + x + b;
    SumsAppend(a + x, b);
    SumsAppend(a, x);
    SumsAppend(a + m, b);
    SumsAppend(a, m);
  }

  /** Allocation keeps total capacity and adds exactly the block's size to the bytes in use. */
  lemma TakeAccounts(l: seq<Bloque>, i: nat, bytes: nat)
    requires i < |l| && Cabe(l[i], bytes)
    ensures Suma(Tomar(l, i, bytes)) == Suma(l)
    ensures SumaUsada(Tomar(l, i, bytes)) == SumaUsada(l) + Partir(l[i], bytes)[0].tam
    ensures Usados(Tomar(l, i, bytes)) == Usados(l) + 1
  {
    hide Suma, SumaUsada, Usados, Cambiar;
    var p := Partir(l[i], bytes);
    ChangeAccounts(l, i, 1, p);
    assert l[i..i + 1] == [l[i]];
    SumsOfOne(l[i]);
    SumsOfOne(p[0]);
    if |p| == 2 {
      SumsOfTwo(p[0], p[1]);
      SumsOfOne(p[1]);
      assert p == [p[0], p[1]];
    } else {
      assert p == [p[0]];
    }
  }

  lemma MergeAccounts(l: seq<Bloque>, i: int)
    ensures Suma(Unir(l, i)) == Suma(l) && SumaUsada(Unir(l, i)) == SumaUsada(l) && Usados(Unir(l, i)) == Usados(l)
  {
    hide Suma, SumaUsada, Usados, Cambiar;
    if TocanLibres(l, i) {
      var u := Fusion(l[i], l[i + 1]);
      ChangeAccounts(l, i, 2, [u]);
      assert l[i..i + 2] == [l[i], l[i + 1]];
      SumsOfOne(u);
      SumsOfTwo(l[i], l[i + 1]);
      SumsOfOne(l[i]);
      SumsOfOne(l[i + 1]);
    }
  }

  /** Freeing keeps total capacity and takes exactly the block's size from the bytes in use. */
  lemma ReleaseAccounts(l: seq<Bloque>, i: nat)
    requires i < |l| && !l[i].libre
    ensures Suma(Soltar(l, i)) == Suma(l)
    ensures SumaUsada(Soltar(l, i)) == SumaUsada(l) - l[i].tam
    ensures Usados(Soltar(l, i)) == Usados(l) - 1
  {
    hide Suma, SumaUsada, Usados, Cambiar, Unir;
    var b := l[i].(libre := true);
    ChangeAccounts(l, i, 1, [b]);
    assert l[i..i + 1] == [l[i]];
    SumsOfOne(l[i]);
    SumsOfOne(b);
    MergeAccounts(Desocupar(l, i), i);
    MergeAccounts(Unir(Desocupar(l, i), i), i - 1);
  }

  // ----- Replacing blocks: layout -----

  lemma ChangeKeepsDisjoint(l: seq<Bloque>, i: nat, n: nat, m: seq<Bloque>)
    requires i + n <= |l| && Disjuntos(l) && Disjuntos(m)
    requires forall k, j :: 0 <= k < |m| && 0 <= j < |l| && !(i <= j < i + n) ==> Ajenos(m[k], l[j])
    ensures Disjuntos(Cambiar(l, i, n, m))
  {
    hide Cambiar, Fin, Ajenos;
    var r := Cambiar(l, i, n, m);
    forall a, b | 0 <= a < b < |r| ensures Ajenos(r[a], r[b]) {
      var x := if a < i then a else a - |m| + n;
      var y := if b < i then b else b - |m| + n;
      if a < i || i + |m| <= a {
        assert r[a] == l[x];
        if b < i || i + |m| <= b {
          assert r[b] == l[y];
        } else {
          assert r[i + (b - i)] == m[b - i];
          assert Ajenos(m[b - i], l[x]);
          AjenosIsSymmetric(m[b - i], l[x]);
        }
      } else {
        assert r[i + (a - i)] == m[a - i];
        if i + |m| <= b {
          assert r[b] == l[y];
          assert Ajenos(m[a - i], l[y]);
        } else {
          assert r[i + (b - i)] == m[b - i];
        }
      }
    }
  }

  lemma AjenosIsSymmetric(b: Bloque, c: Bloque)
    ensures Ajenos(b, c) <==> Ajenos(c, b)
  {
  }

  lemma ChangeKeepsAligned(l: seq<Bloque>, i: nat, n: nat, m: seq<Bloque>)
    requires i + n <= |l| && Alineados(l) && Alineados(m)
    ensures Alineados(Cambiar(l, i, n, m))
  {
    hide Cambiar, Alineado;
    var r := Cambiar(l, i, n, m);
    forall a | 0 <= a < |r| ensures Alineado(r[a]) {
      if a < i {
        assert r[a] == l[a];
      } else if a < i + |m| {
        assert r[i + (a - i)] == m[a - i];
      } else {
        assert r[a] == l[a - |m| + n];
      }
    }
  }

  lemma {:induction false} MeltingIgnoresDetail(a: seq<Bloque>, m: seq<Bloque>, x: seq<Bloque>, b: seq<Bloque>)
    requires Fundir(a + m) == Fundir(a + x)
    ensures Fundir(a + m + b) == Fundir(a + x + b)
  {
    hide Fundir, Juntar;
    if b == [] {
      assert a + m + b == a + m && a + x + b == a + x;
    } else {
      var c, d := b[..|b| - 1], b[|b| - 1];
      MeltingIgnoresDetail(a, m, x, c);
      assert a + m + b == (a + m + c) + [d] && a + x + b == (a + x + c) + [d];
      MeltAppend(a + m + c, d);
      MeltAppend(a + x + c, d);
    }
  }

  lemma MeltAppend(a: seq<Bloque>, b: Bloque)
    ensures Fundir(a + [b]) == Juntar(Fundir(a), b.dir, CABECERA + b.tam)
  {
    assert (a + [b])[..|a|] == a;
  }

  lemma JoinTwice(f: seq<Tramo>, dir: nat, n: nat, m: nat)
    ensures Juntar(Juntar(f, dir, n), dir + n, m) == Juntar(f, dir, n + m)
  {
    var g := Juntar(f, dir, n);
    if f != [] && f[|f| - 1].dir + f[|f| - 1].largo == dir {
      assert g[..|g| - 1] == f[..|f| - 1];
    } else {
      assert g[..|g| - 1] == f;
    }
  }

  lemma MeltPair(a: seq<Bloque>, b: Bloque, c: Bloque)
    requires Fin(b) == c.dir
    ensures Fundir(a + [b, c]) == Juntar(Fundir(a), b.dir, CABECERA + b.tam + CABECERA + c.tam)
  {
    hide Fundir, Juntar;
    assert a + [b, c] == (a + [b]) + [c];
    MeltAppend(a + [b], c);
    MeltAppend(a, b);
    JoinTwice(Fundir(a), b.dir, CABECERA + b.tam, CABECERA + c.tam);
  }

  /** Replacing one block by itself marked otherwise, by two halves, or two by their union, leaves
      the same memory covered. */
  lemma ChangeKeepsMelted(l: seq<Bloque>, i: nat, n: nat, m: seq<Bloque>)
    requires i + n <= |l| && Fundir(l[..i] + m) == Fundir(l[..i] + l[i..i + n])
    ensures Fundir(Cambiar(l, i, n, m)) == Fundir(l)
  {
    hide Fundir;
    MeltingIgnoresDetail(l[..i], m, l[i..i + n], l[i + n..]);
    assert l == l[..i] + l[i..i + n] + l[i + n..];
  }

  lemma InsideStaysApart(l: seq<Bloque>, i: nat, b: Bloque, j: nat)
    requires Disjuntos(l) && i < |l| && j < |l| && j != i
    requires l[i].dir <= b.dir && Fin(b) <= Fin(l[i])
    ensures Ajenos(b, l[j])
  {
    assert Ajenos(l[if i < j then i else j], l[if i < j then j else i]);
  }

  lemma PartsFit(b: Bloque, bytes: nat)
    requires b.tam >= bytes
    ensures Disjuntos(Partir(b, bytes))
    ensures forall k :: 0 <= k < |Partir(b, bytes)| ==> b.dir <= Partir(b, bytes)[k].dir && Fin(Partir(b, bytes)[k]) <= Fin(b)
    ensures Alineado(b) && bytes > 0 && bytes % 16 == 0 ==> Alineados(Partir(b, bytes))
  {
  }

  lemma PartsMelt(a: seq<Bloque>, b: Bloque, bytes: nat)
    requires b.tam >= bytes
    ensures Fundir(a + Partir(b, bytes)) == Fundir(a + [b])
  {
    hide Fundir, Juntar;
    var p := Partir(b, bytes);
    MeltAppend(a, b);
    if |p| == 2 {
      assert p == [p[0], p[1]];
      MeltPair(a, p[0], p[1]);
    } else {
      assert p == [p[0]];
      MeltAppend(a, p[0]);
    }
  }

  lemma TakeKeepsLayout(l: seq<Bloque>, i: nat, bytes: nat)
    requires i < |l| && Cabe(l[i], bytes) && bytes > 0 && bytes % 16 == 0
    requires Disjuntos(l) && Alineados(l)
    ensures Disjuntos(Tomar(l, i, bytes)) && Alineados(Tomar(l, i, bytes))
    ensures Fundir(Tomar(l, i, bytes)) == Fundir(l)
  {
    hide Cambiar, Fundir, Fin, Ajenos, Alineado, Disjuntos, Partir;
    var p := Partir(l[i], bytes);
    PartsFit(l[i], bytes);
    forall k, j | 0 <= k < |p| && 0 <= j < |l| && !(i <= j < i + 1) ensures Ajenos(p[k], l[j]) {
      InsideStaysApart(l, i, p[k], j);
    }
    ChangeKeepsDisjoint(l, i, 1, p);
    ChangeKeepsAligned(l, i, 1, p);
    assert l[i..i + 1] == [l[i]];
    PartsMelt(l[..i], l[i], bytes);
    ChangeKeepsMelted(l, i, 1, p);
  }

  lemma MergeKeepsLayout(l: seq<Bloque>, i: int)
    requires Disjuntos(l) && Alineados(l)
    ensures Disjuntos(Unir(l, i)) && Alineados(Unir(l, i))
    ensures Fundir(Unir(l, i)) == Fundir(l)
  {
    hide Cambiar, Fundir;
    if TocanLibres(l, i) {
      var u := Fusion(l[i], l[i + 1]);
      forall k, j | 0 <= k < 1 && 0 <= j < |l| && !(i <= j < i + 2) ensures Ajenos([u][k], l[j]) {
        assert Ajenos(l[if i < j then i else j], l[if i < j then j else i]);
        assert Ajenos(l[if i < j then i + 1 else j], l[if i < j then j else i + 1]);
      }
      ChangeKeepsDisjoint(l, i, 2, [u]);
      assert Alineado(l[i]) && Alineado(l[i + 1]);
      ChangeKeepsAligned(l, i, 2, [u]);
      assert l[i..i + 2] == [l[i], l[i + 1]];
      MeltAppend(l[..i], u);
      MeltPair(l[..i], l[i], l[i + 1]);
      ChangeKeepsMelted(l, i, 2, [u]);
    }
  }

  lemma FreeKeepsLayout(l: seq<Bloque>, i: nat)
    requires i < |l| && Disjuntos(l) && Alineados(l)
    ensures Disjuntos(Desocupar(l, i)) && Alineados(Desocupar(l, i))
    ensures Fundir(Desocupar(l, i)) == Fundir(l)
  {
    hide Cambiar, Fundir, Ajenos, Disjuntos;
    var b := l[i].(libre := true);
    forall k, j | 0 <= k < 1 && 0 <= j < |l| && !(i <= j < i + 1) ensures Ajenos([b][k], l[j]) {
      InsideStaysApart(l, i, b, j);
    }
    OneIsDisjoint(b);
    ChangeKeepsDisjoint(l, i, 1, [b]);
    assert Alineado(l[i]);
    ChangeKeepsAligned(l, i, 1, [b]);
    assert l[i..i + 1] == [l[i]];
    MeltAppend(l[..i], l[i]);
    MeltAppend(l[..i], b);
    ChangeKeepsMelted(l, i, 1, [b]);
  }

  lemma OneIsDisjoint(b: Bloque)
    ensures Disjuntos([b])
  {
  }

  // ----- Coalescing leaves no neighbours -----

  lemma TakeKeepsMerged(l: seq<Bloque>, bases: set<nat>, i: nat, bytes: nat)
    requires i < |l| && Cabe(l[i], bytes) && Fundidos(l, bases)
    ensures Fundidos(Tomar(l, i, bytes), bases)
  {
    hide Cambiar;
    var p := Partir(l[i], bytes);
    var r := Tomar(l, i, bytes);
    assert r[i + 0] == p[0];
    forall k | 0 < k < |r| && LibresQueTocan(r[k - 1], r[k]) ensures r[k].dir in bases {
      if k < i {
        assert r[k - 1] == l[k - 1] && r[k] == l[k];
      } else if k >= i + 1 + |p| {
        assert r[k - 1] == l[k - |p|] && r[k] == l[k - |p| + 1];
      } else if k == i + |p| {
        assert r[i + (|p| - 1)] == p[|p| - 1];
        assert r[k] == l[i + 1];
        assert LibresQueTocan(l[i], l[i + 1]);
      }
    }
  }

  /** Everywhere but at the seam before position `i`, and the one after it, no free pair touches. */
  predicate FundidosSalvo(l: seq<Bloque>, bases: set<nat>, i: nat, j: nat) {
    forall k :: 0 < k < |l| && k != i && k != j && LibresQueTocan(l[k - 1], l[k]) ==> l[k].dir in bases
  }

  lemma FreeLeavesTwoSeams(l: seq<Bloque>, bases: set<nat>, i: nat)
    requires i < |l| && Fundidos(l, bases)
    ensures FundidosSalvo(Desocupar(l, i), bases, i, i + 1)
  {
    hide Cambiar;
    var r := Desocupar(l, i);
    forall k | 0 < k < |r| && k != i && k != i + 1 && LibresQueTocan(r[k - 1], r[k]) ensures r[k].dir in bases {
      assert r[k - 1] == l[k - 1] && r[k] == l[k];
    }
  }

  lemma MergeNextLeavesOneSeam(l: seq<Bloque>, bases: set<nat>, i: nat)
    requires FundidosSalvo(l, bases, i, i + 1)
    ensures FundidosSalvo(Unir(l, i), bases, i, i)
  {
    hide Cambiar;
    if TocanLibres(l, i) {
      var r := Unir(l, i);
      var m := [Fusion(l[i], l[i + 1])];
      assert r == Cambiar(l, i, 2, m) && m[0] == Fusion(l[i], l[i + 1]);
      forall k | 0 < k < |r| && k != i && LibresQueTocan(r[k - 1], r[k]) ensures r[k].dir in bases {
        if k < i {
          assert r[k - 1] == l[k - 1] && r[k] == l[k];
        } else {
          assert r[k] == l[k + 1] && (k > i + 1 ==> r[k - 1] == l[k]);
          assert LibresQueTocan(l[k], l[k + 1]);
        }
      }
    }
  }

  lemma MergePreviousLeavesNone(l: seq<Bloque>, bases: set<nat>, i: nat)
    requires FundidosSalvo(l, bases, i, i)
    ensures Fundidos(Unir(l, i - 1), bases)
  {
    hide Cambiar;
    if TocanLibres(l, i - 1) {
      var r := Unir(l, i - 1);
      var m := [Fusion(l[i - 1], l[i])];
      assert r == Cambiar(l, i - 1, 2, m) && m[0] == Fusion(l[i - 1], l[i]);
      forall k | 0 < k < |r| && LibresQueTocan(r[k - 1], r[k]) ensures r[k].dir in bases {
        if k < i {
          assert r[k - 1] == l[k - 1];
          assert r[k].dir == l[k].dir && r[k].libre == l[k].libre;
          assert LibresQueTocan(l[k - 1], l[k]);
        } else {
          assert r[k] == l[k + 1] && (k > i ==> r[k - 1] == l[k]);
          assert LibresQueTocan(l[k], l[k + 1]);
        }
      }
    }
  }

  // ----- The heap invariant, operation by operation -----

  lemma TakeKeepsHealth(l: seq<Bloque>, arenas: seq<Bloque>, i: nat, bytes: nat)
    requires Sana(l, arenas) && i < |l| && Cabe(l[i], bytes) && bytes % 16 == 0 && bytes > 0
    ensures Sana(Tomar(l, i, bytes), arenas)
  {
    hide Cambiar, Fundir, Bases, Disjuntos, Alineados, Fundidos, Tomar;
    TakeKeepsLayout(l, i, bytes);
    TakeKeepsMerged(l, Bases(arenas), i, bytes);
  }

  lemma ReleaseKeepsHealth(l: seq<Bloque>, arenas: seq<Bloque>, i: nat)
    requires Sana(l, arenas) && i < |l|
    ensures Sana(Soltar(l, i), arenas)
  {
    hide Cambiar, Fundir, Bases, Disjuntos, Alineados, Fundidos, FundidosSalvo, Desocupar, Unir;
    var bases := Bases(arenas);
    FreeKeepsLayout(l, i);
    MergeKeepsLayout(Desocupar(l, i), i);
    MergeKeepsLayout(Unir(Desocupar(l, i), i), i - 1);
    FreeLeavesTwoSeams(l, bases, i);
    MergeNextLeavesOneSeam(Desocupar(l, i), bases, i);
    MergePreviousLeavesNone(Unir(Desocupar(l, i), i), bases, i);
  }

  lemma ArenaKeepsHealth(l: seq<Bloque>, arenas: seq<Bloque>, b: Bloque)
    requires Sana(l, arenas) && Alineado(b)
    requires forall i :: 0 <= i < |l| ==> Ajenos(l[i], b)
    ensures Sana(l + [b], arenas + [b])
  {
    hide Fundir, Alineado, Ajenos;
    var r, mas := l + [b], arenas + [b];
    assert mas[|arenas|] == b && b.dir in Bases(mas);
    forall d | d in Bases(arenas) ensures d in Bases(mas) {
      var k :| 0 <= k < |arenas| && arenas[k].dir == d;
      assert mas[k] == arenas[k];
    }
    forall k | 0 < k < |r| && LibresQueTocan(r[k - 1], r[k]) ensures r[k].dir in Bases(mas) {
    }
    MeltAppend(l, b);
    MeltAppend(arenas, b);
  }

  lemma ArenaAccounts(l: seq<Bloque>, b: Bloque)
    requires b.libre
    ensures Suma(l + [b]) == Suma(l) + CABECERA + b.tam
    ensures SumaUsada(l + [b]) == SumaUsada(l) && Usados(l + [b]) == Usados(l)
  {
    SumsAppend(l, [b]);
    SumsOfOne(b);
  }

  // ----- Covered memory -----

  predicate Cubre(l: seq<Bloque>, x: nat) {
    exists i :: 0 <= i < |l| && l[i].dir <= x < Fin(l[i])
  }

  predicate EnTramos(f: seq<Tramo>, x: nat) {
    exists i :: 0 <= i < |f| && f[i].dir <= x < f[i].dir + f[i].largo
  }

  lemma JoinCovers(f: seq<Tramo>, dir: nat, largo: nat, x: nat)
    ensures EnTramos(Juntar(f, dir, largo), x) <==> EnTramos(f, x) || dir <= x < dir + largo
  {
    var r := Juntar(f, dir, largo);
    if EnTramos(f, x) {
      var i :| 0 <= i < |f| && f[i].dir <= x < f[i].dir + f[i].largo;
      assert r[i].dir == f[i].dir && r[i].largo >= f[i].largo;
    }
    if dir <= x < dir + largo {
      assert r[|r| - 1].dir <= x;
    }
    if EnTramos(r, x) {
      var i :| 0 <= i < |r| && r[i].dir <= x < r[i].dir + r[i].largo;
      assert i < |r| - 1 ==> r[i] == f[i];
      assert i == |f| - 1 ==> f[i].dir == r[i].dir;
    }
  }

  lemma {:induction false} MeltingCovers(l: seq<Bloque>, x: nat)
    ensures EnTramos(Fundir(l), x) <==> Cubre(l, x)
  {
    hide EnTramos, Juntar;
    if l == [] {
      assert Fundir(l) == [];
      NothingCovers(x);
    } else {
      var a, b := l[..|l| - 1], l[|l| - 1];
      MeltingCovers(a, x);
      JoinCovers(Fundir(a), b.dir, CABECERA + b.tam, x);
      if Cubre(a, x) {
        var i :| 0 <= i < |a| && a[i].dir <= x < Fin(a[i]);
        assert l[i] == a[i];
      }
      if Cubre(l, x) {
        var i :| 0 <= i < |l| && l[i].dir <= x < Fin(l[i]);
        assert i < |a| ==> a[i] == l[i];
      }
    }
  }

  lemma NothingCovers(x: nat)
    ensures !EnTramos([], x)
  {
  }

  lemma TwoBlocksShareNothing(l: seq<Bloque>, i: nat, j: nat, x: nat)
    requires Disjuntos(l) && i < |l| && j < |l| && i != j
    ensures !(l[i].dir <= x < Fin(l[i]) && l[j].dir <= x < Fin(l[j]))
    ensures Puntero(l[i]) != Puntero(l[j])
  {
    assert Ajenos(l[if i < j then i else j], l[if i < j then j else i]);
  }

  /** In a sound heap an address belongs to one block at most, and to some block exactly when it
      belongs to an arena: the blocks tile the arenas. */
  lemma BlocksTileArenas(l: seq<Bloque>, arenas: seq<Bloque>, x: nat)
    requires Sana(l, arenas)
    ensures Cubre(l, x) <==> Cubre(arenas, x)
    ensures forall i, j :: 0 <= i < j < |l| ==> !(l[i].dir <= x < Fin(l[i]) && l[j].dir <= x < Fin(l[j]))
  {
    hide Fundir, EnTramos, Fundidos, Alineados;
    MeltingCovers(l, x);
    MeltingCovers(arenas, x);
    forall i, j | 0 <= i < j < |l| ensures !(l[i].dir <= x < Fin(l[i]) && l[j].dir <= x < Fin(l[j])) {
      TwoBlocksShareNothing(l, i, j, x);
    }
  }

  // ----- Live allocations -----

  lemma ChangeKeepsLive(l: seq<Bloque>, i: nat, n: nat, m: seq<Bloque>, p: nat, t: nat)
    requires i + n <= |l|
    ensures EsVivo(Cambiar(l, i, n, m), p, t) <==> EsVivo(l[..i], p, t) || EsVivo(m, p, t) || EsVivo(l[i + n..], p, t)
    ensures EsVivo(l, p, t) <==> EsVivo(l[..i], p, t) || EsVivo(l[i..i + n], p, t) || EsVivo(l[i + n..], p, t)
  {
    hide EsVivo;
    LiveAppend(l[..i] + m, l[i + n..], p, t);
    LiveAppend(l[..i], m, p, t);
    assert l == l[..i] + l[i..i + n] + l[i + n..];
    LiveAppend(l[..i] + l[i..i + n], l[i + n..], p, t);
    LiveAppend(l[..i], l[i..i + n], p, t);
  }

  lemma LiveAppend(a: seq<Bloque>, b: seq<Bloque>, p: nat, t: nat)
    ensures EsVivo(a + b, p, t) <==> EsVivo(a, p, t) || EsVivo(b, p, t)
  {
    var r := a + b;
    if EsVivo(a, p, t) {
      var k :| 0 <= k < |a| && !a[k].libre && Puntero(a[k]) == p && a[k].tam == t;
      assert r[k] == a[k];
    }
    if EsVivo(b, p, t) {
      var k :| 0 <= k < |b| && !b[k].libre && Puntero(b[k]) == p && b[k].tam == t;
      assert r[|a| + k] == b[k];
    }
    if EsVivo(r, p, t) {
      var k :| 0 <= k < |r| && !r[k].libre && Puntero(r[k]) == p && r[k].tam == t;
      assert k < |a| ==> r[k] == a[k];
      assert k >= |a| ==> r[k] == b[k - |a|];
    }
  }

  lemma LiveOfOne(b: Bloque, p: nat, t: nat)
    ensures EsVivo([b], p, t) <==> !b.libre && Puntero(b) == p && b.tam == t
  {
    assert [b][0] == b;
  }

  lemma LivePointersDiffer(l: seq<Bloque>, i: nat, t: nat)
    requires i < |l| && Disjuntos(l)
    ensures EsVivo(l, Puntero(l[i]), t) <==> !l[i].libre && t == l[i].tam
  {
    if EsVivo(l, Puntero(l[i]), t) {
      var k :| 0 <= k < |l| && !l[k].libre && Puntero(l[k]) == Puntero(l[i]) && l[k].tam == t;
      if k != i {
        TwoBlocksShareNothing(l, k, i, 0);
      }
    }
  }

  /** What is split off is never too small to be given to anybody. */
  lemma TakeLeavesNoCrumbs(l: seq<Bloque>, i: nat, bytes: nat, k: nat)
    requires i < |l| && Cabe(l[i], bytes) && k < |Tomar(l, i, bytes)| && Tomar(l, i, bytes)[k].libre
    ensures Tomar(l, i, bytes)[k] in l || Tomar(l, i, bytes)[k].tam >= 32
  {
    var p, r := Partir(l[i], bytes), Tomar(l, i, bytes);
    if i <= k < i + |p| {
      assert r[i + (k - i)] == p[k - i];
    }
  }

  /** Allocation adds one live block, whose pointer was not live, and touches no other. */
  lemma TakeAddsOneLive(l: seq<Bloque>, i: nat, bytes: nat, p: nat, t: nat)
    requires Disjuntos(l) && i < |l| && Cabe(l[i], bytes)
    ensures EsVivo(Tomar(l, i, bytes), p, t) <==>
            EsVivo(l, p, t) || (p == Puntero(l[i]) && t == Partir(l[i], bytes)[0].tam)
    ensures !EsVivo(l, Puntero(l[i]), t)
  {
    hide EsVivo, Cambiar;
    var q := Partir(l[i], bytes);
    ChangeKeepsLive(l, i, 1, q, p, t);
    assert l[i..i + 1] == [l[i]];
    LiveOfOne(l[i], p, t);
    LiveOfOne(q[0], p, t);
    if |q| == 2 {
      assert q == [q[0]] + [q[1]];
      LiveAppend([q[0]], [q[1]], p, t);
      LiveOfOne(q[1], p, t);
    } else {
      assert q == [q[0]];
    }
    LivePointersDiffer(l, i, t);
  }

  lemma MergeKeepsLive(l: seq<Bloque>, i: int, p: nat, t: nat)
    ensures EsVivo(Unir(l, i), p, t) <==> EsVivo(l, p, t)
  {
    hide EsVivo, Cambiar;
    if TocanLibres(l, i) {
      var u := Fusion(l[i], l[i + 1]);
      ChangeKeepsLive(l, i, 2, [u], p, t);
      assert l[i..i + 2] == [l[i]] + [l[i + 1]];
      LiveAppend([l[i]], [l[i + 1]], p, t);
      LiveOfOne(l[i], p, t);
      LiveOfOne(l[i + 1], p, t);
      LiveOfOne(u, p, t);
    }
  }

  /** Freeing removes exactly one live block. */
  lemma ReleaseRemovesOneLive(l: seq<Bloque>, i: nat, p: nat, t: nat)
    requires Disjuntos(l) && i < |l| && !l[i].libre
    ensures EsVivo(Soltar(l, i), p, t) <==> EsVivo(l, p, t) && p != Puntero(l[i])
  {
    hide EsVivo, Cambiar, Unir, Disjuntos;
    var b := l[i].(libre := true);
    ChangeKeepsLive(l, i, 1, [b], p, t);
    assert l[i..i + 1] == [l[i]];
    LiveOfOne(l[i], p, t);
    LiveOfOne(b, p, t);
    MergeKeepsLive(Desocupar(l, i), i, p, t);
    MergeKeepsLive(Unir(Desocupar(l, i), i), i - 1, p, t);
    LiveElsewhereDiffers(l, i, p, t);
  }

  lemma LiveElsewhereDiffers(l: seq<Bloque>, i: nat, p: nat, t: nat)
    requires i < |l| && Disjuntos(l)
    ensures EsVivo(l[..i], p, t) || EsVivo(l[i + 1..], p, t) ==> p != Puntero(l[i])
  {
    if EsVivo(l[..i], p, t) {
      var k :| 0 <= k < i && !l[..i][k].libre && Puntero(l[..i][k]) == p && l[..i][k].tam == t;
      assert Ajenos(l[k], l[i]);
    }
    if EsVivo(l[i + 1..], p, t) {
      var k :| 0 <= k < |l| - i - 1 && !l[i + 1..][k].libre && Puntero(l[i + 1..][k]) == p && l[i + 1..][k].tam == t;
      assert Ajenos(l[i], l[i + 1 + k]);
    }
  }
}
