/** Boot: choosing the heap and DMA arenas from the memory map, stacking every other usable frame,
    and marking the stacked frames as free. */
module Arranque {
  import opened Bytes
  import opened Marcos

  const UN_MB: nat := 0x10_0000
  const ARENA_HEAP: nat := 8 * 0x10_0000
  const ARENA_DMA: nat := 32 * 0x10_0000
  const DOS_MB: nat := 0x20_0000
  const MAX_RANGOS: nat := 128

  datatype Entrada = Entrada(base: nat, largo: nat, usable: bool)

  function Arriba(x: nat): nat { (x + 0xFFF) / PAGINA * PAGINA }

  function Abajo(x: nat): nat { x / PAGINA * PAGINA }

  /** The boot loader's promise: usable entries do not overlap. */
  predicate MapaValido(mapa: seq<Entrada>) {
    forall i, j :: 0 <= i < j < |mapa| && mapa[i].usable && mapa[j].usable ==>
      mapa[i].base + mapa[i].largo <= mapa[j].base || mapa[j].base + mapa[j].largo <= mapa[i].base
  }

  /** `[a, a + n)` lies inside one usable entry. */
  predicate DentroDeUsable(mapa: seq<Entrada>, a: nat, n: nat) {
    exists i :: 0 <= i < |mapa| && mapa[i].usable && mapa[i].base <= a && a + n <= mapa[i].base + mapa[i].largo
  }

  predicate Separadas(a: nat, n: nat, b: nat, m: nat) { a + n <= b || b + m <= a }

  predicate CabeHeap(e: Entrada) {
    e.usable && e.base >= UN_MB && Arriba(e.base) + ARENA_HEAP <= e.base + e.largo
  }

  /** The first usable entry from 1 MiB up that can hold the heap arena; 0 when there is none. */
  method ElegirHeap(mapa: seq<Entrada>) returns (h: nat)
    ensures h != 0 ==> h % PAGINA == 0 && h >= UN_MB && DentroDeUsable(mapa, h, ARENA_HEAP)
    ensures h == 0 <==> forall i :: 0 <= i < |mapa| ==> !CabeHeap(mapa[i])
  {
    h := 0;
    var i := 0;
    while i < |mapa|
      invariant i <= |mapa| && h == 0
      invariant forall k :: 0 <= k < i ==> !CabeHeap(mapa[k])
    {
      var e := mapa[i];
      if e.usable && e.base >= UN_MB {
        var candidato := Arriba(e.base);
        if candidato >= e.base && candidato <= e.base + e.largo && ARENA_HEAP <= e.base + e.largo - candidato {
          assert CabeHeap(mapa[i]);
          return candidato;
        }
      }
      i := i + 1;
    }
  }

  /** A place for the DMA arena in an entry: aligned, past the first 2 MiB, clear of the heap arena. */
  predicate LugarDma(e: Entrada, h: nat, x: nat) {
    && e.usable && x % DOS_MB == 0 && x >= DOS_MB && e.base <= x && x + ARENA_DMA <= e.base + e.largo
    && (h != 0 ==> Separadas(h, ARENA_HEAP, x, ARENA_DMA))
  }

  function Redondo(x: nat): (r: nat)
    ensures r % DOS_MB == 0 && x <= r < x + DOS_MB
  {
    (x + 0x1F_FFFF) / DOS_MB * DOS_MB
  }

  lemma RoundIsLeast(a: nat, x: nat)
    requires a <= x && x % DOS_MB == 0
    ensures Redondo(a) <= x
  {
  }

  /** The place tried in an entry is the lowest there is: when it does not fit, none does. */
  lemma FirstPlaceIsLowest(e: Entrada, h: nat, x: nat, c: nat)
    requires LugarDma(e, h, x)
    requires var c0 := Max(Redondo(e.base), DOS_MB);
             c == if h != 0 && c0 < h + ARENA_HEAP && h < c0 + ARENA_DMA then Redondo(h + ARENA_HEAP) else c0
    ensures e.base <= c <= x && c + ARENA_DMA <= e.base + e.largo
  {
    hide Redondo;
    RoundIsLeast(e.base, x);
    if h != 0 && h + ARENA_HEAP <= x {
      RoundIsLeast(h + ARENA_HEAP, x);
    }
  }

  /** `d` is the lowest place in entry `i`, and no entry before has any. */
  ghost predicate PrimerLugar(mapa: seq<Entrada>, h: nat, d: nat, i: nat) {
    && i < |mapa| && LugarDma(mapa[i], h, d)
    && (forall x: nat :: LugarDma(mapa[i], h, x) ==> d <= x)
    && forall k, x: nat :: 0 <= k < i ==> !LugarDma(mapa[k], h, x)
  }

  /** A 2 MiB aligned arena inside one usable entry and clear of the heap arena: the lowest place in
      the first entry that has one, and none only when no entry has. */
  method ElegirDma(mapa: seq<Entrada>, h: nat) returns (d: nat)
    ensures d == 0 <==> forall i, x: nat :: 0 <= i < |mapa| ==> !LugarDma(mapa[i], h, x)
    ensures d != 0 ==> exists i: nat :: PrimerLugar(mapa, h, d, i)
    ensures d != 0 ==> d % DOS_MB == 0 && DentroDeUsable(mapa, d, ARENA_DMA)
    ensures d != 0 && h != 0 ==> Separadas(h, ARENA_HEAP, d, ARENA_DMA)
  {
    d := 0;
    var i: nat := 0;
    while i < |mapa|
      invariant i <= |mapa| && d == 0
      invariant forall k, x: nat :: 0 <= k < i ==> !LugarDma(mapa[k], h, x)
    {
      var e := mapa[i];
      if e.usable {
        var candidata := Redondo(e.base);
        if candidata < DOS_MB {
          candidata := DOS_MB;
        }
        if h != 0 && candidata < h + ARENA_HEAP && h < candidata + ARENA_DMA {
          candidata := Redondo(h + ARENA_HEAP);
        }
        forall x: nat | LugarDma(e, h, x) ensures e.base <= candidata <= x && candidata + ARENA_DMA <= e.base + e.largo {
          FirstPlaceIsLowest(e, h, x, candidata);
        }
        if candidata >= e.base && candidata + ARENA_DMA <= e.base + e.largo {
          assert LugarDma(e, h, candidata);
          assert PrimerLugar(mapa, h, candidata, i);
          return candidata;
        }
      }
      i := i + 1;
    }
  }

  /** A page that belongs on the stack, seen from entry `e`. */
  predicate Apilable(e: Entrada, h: nat, d: nat, p: nat) {
    && e.usable && Arriba(e.base) <= p < Abajo(e.base + e.largo) && p % PAGINA == 0 && p >= UN_MB
    && !(h != 0 && h <= p < h + ARENA_HEAP)
    && !(d != 0 && d <= p < d + ARENA_DMA)
  }

  /** In bytes: the pages that lie wholly in a usable entry, from 1 MiB up, and share no byte with an
      arena. */
  lemma StackedPagesAre(e: Entrada, h: nat, d: nat, p: nat)
    requires h % 4096 == 0 && d % 4096 == 0
    ensures Apilable(e, h, d, p) <==>
            && e.usable && p % 4096 == 0 && e.base <= p && p + 4096 <= e.base + e.largo && p >= 0x10_0000
            && (h != 0 ==> p + 4096 <= h || h + 0x80_0000 <= p)
            && (d != 0 ==> p + 4096 <= d || d + 0x200_0000 <= p)
  {
  }

  /** An entry can hold the heap arena when it has any aligned place for 8 MiB. */
  lemma HeapFitsIff(e: Entrada)
    ensures CabeHeap(e) <==>
            e.usable && e.base >= 0x10_0000
            && exists a: nat :: EsSitioHeap(e, a)
  {
    if CabeHeap(e) {
      assert EsSitioHeap(e, Arriba(e.base));
    }
    if a: nat :| EsSitioHeap(e, a) {
      assert Arriba(e.base) <= a;
    }
  }

  predicate EsSitioHeap(e: Entrada, a: nat) {
    a % 4096 == 0 && e.base <= a && a + 0x80_0000 <= e.base + e.largo
  }

  /** Pushes the pages of one entry that lie outside the arenas. */
  method ApilarEntrada(e: Entrada, h: nat, d: nat, ram0: map<nat, nat>, pila0: nat, libres0: nat, ghost antes: seq<nat>)
    returns (ram: map<nat, nat>, pila: nat, libres: nat, ghost cadena: seq<nat>)
    requires e.usable && Encadenada(antes, pila0, ram0) && libres0 == |antes|
    requires forall p: nat :: Apilable(e, h, d, p) ==> p !in antes
    ensures Encadenada(cadena, pila, ram) && libres == |cadena|
    ensures forall p: nat :: p in cadena <==> p in antes || Apilable(e, h, d, p)
  {
    hide Encadenada;
    ram, pila, libres, cadena := ram0, pila0, libres0, antes;
    var p: nat, fin := Arriba(e.base), Abajo(e.base + e.largo);
    while p < fin
      invariant p % PAGINA == 0 && Arriba(e.base) <= p
      invariant Encadenada(cadena, pila, ram) && libres == |cadena|
      invariant forall q: nat :: q in cadena <==> q in antes || (Apilable(e, h, d, q) && q < p)
      decreases fin - p
    {
      if p >= UN_MB && !(h != 0 && h <= p < h + ARENA_HEAP) && !(d != 0 && d <= p < d + ARENA_DMA) {
        assert Apilable(e, h, d, p);
        PushKeepsChain(cadena, pila, ram, p);
        ram := ram[p := pila];
        pila := p;
        libres := libres + 1;
        cadena := [p] + cadena;
      }
      p := p + PAGINA;
    }
  }

  /** Threads every usable page outside the arenas through the pages themselves. */
  method Apilar(mapa: seq<Entrada>, h: nat, d: nat)
    returns (ram: map<nat, nat>, pila: nat, libres: nat, ghost cadena: seq<nat>)
    requires MapaValido(mapa)
    ensures Encadenada(cadena, pila, ram) && libres == |cadena|
    ensures forall p: nat :: p in cadena <==> exists i :: 0 <= i < |mapa| && Apilable(mapa[i], h, d, p)
  {
    hide Encadenada, Apilable, MapaValido;
    ram, pila, libres, cadena := map[], 0, 0, [];
    EmptyChain();
    var i := 0;
    while i < |mapa|
      invariant i <= |mapa|
      invariant Encadenada(cadena, pila, ram) && libres == |cadena|
      invariant forall p: nat :: p in cadena <==> exists k :: 0 <= k < i && Apilable(mapa[k], h, d, p)
    {
      OtherEntriesElsewhere(mapa, i, h, d);
      if mapa[i].usable {
        ram, pila, libres, cadena := ApilarEntrada(mapa[i], h, d, ram, pila, libres, cadena);
      }
      i := i + 1;
    }
  }

  lemma EmptyChain()
    ensures Encadenada([], 0, map[])
  {
  }

  lemma OtherEntriesElsewhere(mapa: seq<Entrada>, i: nat, h: nat, d: nat)
    requires MapaValido(mapa) && i < |mapa|
    ensures forall p: nat, k :: 0 <= k < i && Apilable(mapa[i], h, d, p) ==> !Apilable(mapa[k], h, d, p)
    ensures !mapa[i].usable ==> forall p: nat :: !Apilable(mapa[i], h, d, p)
  {
  }

  // ----- State bytes -----

  predicate TieneRango(e: Entrada) { e.usable && Arriba(e.base) < Abajo(e.base + e.largo) }

  function RangoDe(e: Entrada): Rango
    requires TieneRango(e)
  {
    Rango(Arriba(e.base), (Abajo(e.base + e.largo) - Arriba(e.base)) / PAGINA)
  }

  function Ceros(n: nat): (s: seq<bv8>)
    ensures |s| == n && forall k :: 0 <= k < n ==> s[k] == 0
  {
    seq(n, _ => 0)
  }

  predicate Limpio(estado: seq<seq<bv8>>) {
    forall i, k :: 0 <= i < |estado| && 0 <= k < |estado[i]| ==> estado[i][k] == 0
  }

  lemma CleanMeansReserved(rangos: seq<Rango>, estado: seq<seq<bv8>>)
    requires RangosValidos(rangos, estado) && Limpio(estado)
    ensures forall p: nat :: Estado(rangos, estado, p) <= 0
    ensures forall p: nat, i :: 0 <= i < |rangos| && EnRango(rangos[i], p) ==> Estado(rangos, estado, p) == 0
  {
  }

  lemma RangesStayApart(mapa: seq<Entrada>, i: nat, rangos: seq<Rango>, estado: seq<seq<bv8>>)
    requires MapaValido(mapa) && i < |mapa| && TieneRango(mapa[i]) && RangosValidos(rangos, estado)
    requires forall r :: r in rangos ==> exists k :: 0 <= k < i && TieneRango(mapa[k]) && r == RangoDe(mapa[k])
    ensures RangosValidos(rangos + [RangoDe(mapa[i])], estado + [Ceros((RangoDe(mapa[i]).paginas + 3) / 4)])
  {
    var nuevo := RangoDe(mapa[i]);
    forall j | 0 <= j < |rangos|
      ensures rangos[j].inicio + rangos[j].paginas * PAGINA <= nuevo.inicio
           || nuevo.inicio + nuevo.paginas * PAGINA <= rangos[j].inicio
    {
      var r := rangos[j];
      assert r in rangos;
      var k :| 0 <= k < i && TieneRango(mapa[k]) && r == RangoDe(mapa[k]);
      assert mapa[k].usable && mapa[i].usable;
    }
  }

  // ----- Marking the stacked frames -----

  /** Walks the chain once and marks every frame free. Neither panic of the walk can happen. */
  method Marcar(rangos: seq<Rango>, inicial: seq<seq<bv8>>, ram: map<nat, nat>, pila: nat, libres: nat,
                ghost cadena: seq<nat>)
    returns (estado: seq<seq<bv8>>, quebrado: bool)
    requires RangosValidos(rangos, inicial) && Encadenada(cadena, pila, ram) && libres == |cadena|
    requires forall p: nat :: Estado(rangos, inicial, p) <= 0
    requires forall f :: f in cadena ==> Estado(rangos, inicial, f) == 0
    ensures !quebrado && RangosValidos(rangos, estado) && EnRegla(rangos, estado, cadena, {})
  {
    hide Estado, ConEstado, RangosValidos, Encadenada, EnRegla, Marcados;
    estado, quebrado := inicial, false;
    var marco, i := pila, 0;
    MarkStart(rangos, inicial, cadena, pila, ram);
    while marco != 0 && i < libres
      invariant i <= libres && marco == Despues(cadena, i - 1) && RangosValidos(rangos, estado)
      invariant Marcados(rangos, inicial, estado, cadena, i)
      decreases libres - i
    {
      MarkStep(rangos, inicial, estado, cadena, i, pila, ram);
      var e := LeerEstado(rangos, estado, marco);
      if e != 0 {
        quebrado := true;
        return;
      }
      estado := ConEstado(rangos, estado, marco, 1);
      marco := ram[marco];
      i := i + 1;
    }
    MarkEnd(rangos, inicial, estado, cadena, i, pila, ram);
    if marco != 0 {
      quebrado := true;
    }
  }

  /** The first `i` frames of the chain are marked free and every other frame is as it was. */
  ghost predicate Marcados(rangos: seq<Rango>, inicial: seq<seq<bv8>>, estado: seq<seq<bv8>>, cadena: seq<nat>, i: nat)
    requires RangosValidos(rangos, inicial) && RangosValidos(rangos, estado) && i <= |cadena|
  {
    forall f: nat :: f % PAGINA == 0 ==>
      Estado(rangos, estado, f) == if f in cadena[..i] then 1 else Estado(rangos, inicial, f)
  }

  lemma MarkStart(rangos: seq<Rango>, inicial: seq<seq<bv8>>, cadena: seq<nat>, pila: nat, ram: map<nat, nat>)
    requires RangosValidos(rangos, inicial) && Encadenada(cadena, pila, ram)
    ensures Marcados(rangos, inicial, inicial, cadena, 0) && pila == Despues(cadena, -1)
  {
    hide Estado;
  }

  lemma MarkStep(rangos: seq<Rango>, inicial: seq<seq<bv8>>, estado: seq<seq<bv8>>, cadena: seq<nat>, i: nat,
                 pila: nat, ram: map<nat, nat>)
    requires RangosValidos(rangos, inicial) && RangosValidos(rangos, estado) && Encadenada(cadena, pila, ram)
    requires i < |cadena| && Marcados(rangos, inicial, estado, cadena, i)
    requires forall f :: f in cadena ==> Estado(rangos, inicial, f) == 0
    ensures Despues(cadena, i - 1) == cadena[i] && cadena[i] in ram && ram[cadena[i]] == Despues(cadena, i)
    ensures Estado(rangos, estado, cadena[i]) == 0
    ensures Marcados(rangos, inicial, ConEstado(rangos, estado, cadena[i], 1), cadena, i + 1)
  {
    hide Estado, ConEstado, RangosValidos, Marcados;
    NotYetMarked(cadena, i);
    assert cadena[i] in cadena;
    MarkOne(rangos, inicial, estado, cadena, i);
  }

  lemma MarkOne(rangos: seq<Rango>, inicial: seq<seq<bv8>>, estado: seq<seq<bv8>>, cadena: seq<nat>, i: nat)
    requires RangosValidos(rangos, inicial) && RangosValidos(rangos, estado)
    requires i < |cadena| && Marcados(rangos, inicial, estado, cadena, i)
    requires cadena[i] !in cadena[..i] && cadena[i] % PAGINA == 0 && Estado(rangos, inicial, cadena[i]) == 0
    ensures Estado(rangos, estado, cadena[i]) == 0
    ensures Marcados(rangos, inicial, ConEstado(rangos, estado, cadena[i], 1), cadena, i + 1)
  {
    hide Estado, ConEstado, RangosValidos;
    WritesAreFrameWise(rangos, estado, cadena[i], 1);
    assert cadena[..i + 1] == cadena[..i] + [cadena[i]];
  }

  lemma MarkEnd(rangos: seq<Rango>, inicial: seq<seq<bv8>>, estado: seq<seq<bv8>>, cadena: seq<nat>, i: nat,
                pila: nat, ram: map<nat, nat>)
    requires RangosValidos(rangos, inicial) && RangosValidos(rangos, estado) && Encadenada(cadena, pila, ram)
    requires i <= |cadena| && Marcados(rangos, inicial, estado, cadena, i)
    requires Despues(cadena, i - 1) == 0 || i == |cadena|
    requires forall p: nat :: Estado(rangos, inicial, p) <= 0
    ensures i == |cadena| && Despues(cadena, i - 1) == 0 && EnRegla(rangos, estado, cadena, {})
  {
    hide Estado, RangosValidos;
    assert cadena[..|cadena|] == cadena;
  }

  lemma NotYetMarked(cadena: seq<nat>, i: nat)
    requires i < |cadena| && forall a, b :: 0 <= a < b < |cadena| ==> cadena[a] != cadena[b]
    ensures cadena[i] !in cadena[..i]
  {
  }

  method LeerEstado(rangos: seq<Rango>, estado: seq<seq<bv8>>, phys: nat) returns (e: int)
    requires RangosValidos(rangos, estado)
    ensures e == Estado(rangos, estado, phys)
  {
    e := Estado(rangos, estado, phys);
  }

  /** The arenas and the stack. Every free frame is a usable page from 1 MiB up, and no free frame lies
      in the heap arena or in the DMA arena, which are disjoint. There are no states yet. */
  method Iniciar(mapa: seq<Entrada>) returns (h: nat, d: nat, pmm: Pmm)
    requires MapaValido(mapa)
    ensures fresh(pmm) && pmm.Valid() && pmm.asignados == {} && !pmm.listo
    ensures forall f: nat :: f in pmm.cadena <==> exists i :: 0 <= i < |mapa| && Apilable(mapa[i], h, d, f)
    ensures h == 0 <==> forall i :: 0 <= i < |mapa| ==> !CabeHeap(mapa[i])
    ensures h != 0 ==> h % PAGINA == 0 && DentroDeUsable(mapa, h, ARENA_HEAP)
    ensures d != 0 ==> DentroDeUsable(mapa, d, ARENA_DMA)
    ensures h != 0 && d != 0 ==> Separadas(h, ARENA_HEAP, d, ARENA_DMA)
  {
    hide Encadenada, Apilable, DentroDeUsable, MapaValido, CabeHeap;
    h := ElegirHeap(mapa);
    d := ElegirDma(mapa, h);
    var ram, pila, libres;
    ghost var cadena;
    ram, pila, libres, cadena := Apilar(mapa, h, d);
    pmm := new Pmm(ram, pila, libres, cadena);
  }

  /** Gives every free frame its state, once there is room for the states. */
  method Terminar(mapa: seq<Entrada>, h: nat, d: nat, pmm: Pmm, rangos: seq<Rango>, estado: seq<seq<bv8>>)
    returns (quebrado: bool)
    requires pmm.Valid() && !pmm.listo && RangosValidos(rangos, estado) && Limpio(estado)
    requires forall i :: 0 <= i < |mapa| && TieneRango(mapa[i]) ==> RangoDe(mapa[i]) in rangos
    requires forall f :: f in pmm.cadena ==> exists i :: 0 <= i < |mapa| && Apilable(mapa[i], h, d, f)
    modifies pmm
    ensures !quebrado && pmm.Valid() && pmm.listo && pmm.rangos == rangos
    ensures pmm.cadena == old(pmm.cadena) && pmm.asignados == old(pmm.asignados) && pmm.tempranos == pmm.asignados
  {
    hide Estado, Encadenada, Apilable, RangosValidos, EnRegla, Limpio;
    CleanMeansReserved(rangos, estado);
    StackedFramesAreManaged(mapa, h, d, rangos, estado, pmm.cadena);
    var e;
    e, quebrado := Marcar(rangos, estado, pmm.ram, pmm.pila, pmm.libres, pmm.cadena);
    pmm.Activar(rangos, e);
  }

  lemma StackedFramesAreManaged(mapa: seq<Entrada>, h: nat, d: nat, rangos: seq<Rango>, estado: seq<seq<bv8>>,
                                cadena: seq<nat>)
    requires RangosValidos(rangos, estado) && forall p: nat :: Estado(rangos, estado, p) <= 0
    requires forall i :: 0 <= i < |mapa| && TieneRango(mapa[i]) ==> RangoDe(mapa[i]) in rangos
    requires forall f :: f in cadena ==> exists i :: 0 <= i < |mapa| && Apilable(mapa[i], h, d, f)
    ensures forall f :: f in cadena ==> Estado(rangos, estado, f) == 0
  {
    forall f | f in cadena ensures Estado(rangos, estado, f) == 0 {
      var i :| 0 <= i < |mapa| && Apilable(mapa[i], h, d, f);
      PageIsInItsRange(mapa[i], h, d, f);
      var k :| 0 <= k < |rangos| && rangos[k] == RangoDe(mapa[i]);
      assert Buscar(rangos, f) < |rangos|;
    }
  }

  lemma PageIsInItsRange(e: Entrada, h: nat, d: nat, p: nat)
    requires Apilable(e, h, d, p)
    ensures TieneRango(e) && EnRango(RangoDe(e), p)
  {
  }
}
