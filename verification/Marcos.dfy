/** The physical frame allocator: a stack of free frames threaded through the frames themselves,
    and two bits of state per frame, packed four to a byte. */
module Marcos {
  import opened Bytes

  // ----- Packed states -----

  function Campo(b: bv8, k: nat): bv8
    requires k < 4
  {
    (b >> (2 * k)) & 3
  }

  function ConCampo(b: bv8, k: nat, v: bv8): bv8
    requires k < 4
  {
    (b & !((3 as bv8) << (2 * k))) | ((v & 3) << (2 * k))
  }

  /** Writing one two-bit field leaves the other three alone. */
  lemma PackedWriteLeavesNeighbours(b: bv8, k: nat, v: bv8, j: nat)
    requires k < 4 && j < 4
    ensures Campo(ConCampo(b, k, v), j) == if j == k then v & 3 else Campo(b, j)
  {
    if k == 0 {
      if j == 0 {} else if j == 1 {} else if j == 2 {} else {}
    } else if k == 1 {
      if j == 0 {} else if j == 1 {} else if j == 2 {} else {}
    } else if k == 2 {
      if j == 0 {} else if j == 1 {} else if j == 2 {} else {}
    } else {
      if j == 0 {} else if j == 1 {} else if j == 2 {} else {}
    }
  }

  // ----- Ranges -----

  datatype Rango = Rango(inicio: nat, paginas: nat)

  predicate EnRango(r: Rango, phys: nat) {
    r.inicio <= phys && (phys - r.inicio) / PAGINA < r.paginas
  }

  /** The first range that holds the address, or the number of ranges. */
  function Buscar(rangos: seq<Rango>, phys: nat): (i: nat)
    ensures i <= |rangos|
    ensures i < |rangos| ==> EnRango(rangos[i], phys)
    ensures forall k :: 0 <= k < i ==> !EnRango(rangos[k], phys)
  {
    if rangos == [] then 0
    else if EnRango(rangos[0], phys) then 0
    else
      var i := Buscar(rangos[1..], phys);
      assert forall k :: 0 < k < i + 1 ==> rangos[k] == rangos[1..][k - 1];
      i + 1
  }

  /** Ranges start on page boundaries, each has its state bytes, and no two hold the same address. */
  predicate RangosValidos(rangos: seq<Rango>, estado: seq<seq<bv8>>) {
    && |estado| == |rangos|
    && (forall i :: 0 <= i < |rangos| ==> rangos[i].inicio % PAGINA == 0 && |estado[i]| == (rangos[i].paginas + 3) / 4)
    && forall i, j :: 0 <= i < j < |rangos| ==>
         || rangos[i].inicio + rangos[i].paginas * PAGINA <= rangos[j].inicio
         || rangos[j].inicio + rangos[j].paginas * PAGINA <= rangos[i].inicio
  }

  /** The state of the frame that holds an address: 0 reserved, 1 free, 2 allocated; -1 unmanaged. */
  function Estado(rangos: seq<Rango>, estado: seq<seq<bv8>>, phys: nat): (e: int)
    requires RangosValidos(rangos, estado)
    ensures -1 <= e < 4
  {
    var i := Buscar(rangos, phys);
    if i == |rangos| then -1
    else
      var idx := (phys - rangos[i].inicio) / PAGINA;
      Campo(estado[i][idx / 4], idx % 4) as int
  }

  function ConEstado(rangos: seq<Rango>, estado: seq<seq<bv8>>, phys: nat, v: bv8): (e: seq<seq<bv8>>)
    requires RangosValidos(rangos, estado)
    ensures RangosValidos(rangos, e)
  {
    var i := Buscar(rangos, phys);
    if i == |rangos| then estado
    else
      var idx := (phys - rangos[i].inicio) / PAGINA;
      estado[i := estado[i][idx / 4 := ConCampo(estado[i][idx / 4], idx % 4, v)]]
  }

  lemma FrameWriteChangesOneFrame(rangos: seq<Rango>, estado: seq<seq<bv8>>, phys: nat, v: bv8, otro: nat)
    requires RangosValidos(rangos, estado) && phys % PAGINA == 0 && otro % PAGINA == 0
    ensures Estado(rangos, ConEstado(rangos, estado, phys, v), otro) ==
            if otro == phys && Estado(rangos, estado, phys) >= 0 then (v & 3) as int
            else Estado(rangos, estado, otro)
  {
    hide Buscar, Campo, ConCampo;
    var i, j := Buscar(rangos, phys), Buscar(rangos, otro);
    if i < |rangos| && i == j {
      var a, b := (phys - rangos[i].inicio) / PAGINA, (otro - rangos[i].inicio) / PAGINA;
      PackedWriteLeavesNeighbours(estado[i][a / 4], a % 4, v, b % 4);
      SamePageSameFrame(rangos[i].inicio, phys, otro);
      FieldPosition(a, b);
    }
  }

  lemma FieldPosition(a: nat, b: nat)
    ensures a / 4 == b / 4 && a % 4 == b % 4 ==> a == b
  {
  }

  lemma SamePageSameFrame(inicio: nat, a: nat, b: nat)
    requires inicio % PAGINA == a % PAGINA == b % PAGINA == 0 && inicio <= a && inicio <= b
    ensures (a - inicio) / PAGINA == (b - inicio) / PAGINA <==> a == b
  {
  }

  // ----- The chain of free frames -----

  function Despues(cadena: seq<nat>, i: int): nat
    requires -1 <= i < |cadena|
  {
    if i + 1 < |cadena| then cadena[i + 1] else 0
  }

  /** `cadena` lists, from the top, the frames reached by following the links stored in them. */
  predicate Encadenada(cadena: seq<nat>, pila: nat, ram: map<nat, nat>) {
    && pila == Despues(cadena, -1)
    && (forall i :: 0 <= i < |cadena| ==> cadena[i] != 0 && cadena[i] % PAGINA == 0 && cadena[i] in ram)
    && (forall i :: 0 <= i < |cadena| ==> ram[cadena[i]] == Despues(cadena, i))
    && forall i, j :: 0 <= i < j < |cadena| ==> cadena[i] != cadena[j]
  }

  lemma PopKeepsChain(cadena: seq<nat>, pila: nat, ram: map<nat, nat>, w: nat)
    requires Encadenada(cadena, pila, ram) && cadena != []
    ensures Encadenada(cadena[1..], ram[pila], ram[pila := w])
    ensures forall f :: f in cadena[1..] <==> f in cadena && f != pila
  {
    var c, r := cadena[1..], ram[pila := w];
    assert cadena == [pila] + c;
    assert ram[cadena[0]] == Despues(cadena, 0);
    forall i | 0 <= i < |c| ensures c[i] != pila && c[i] in r && r[c[i]] == Despues(c, i) {
      assert cadena[i + 1] == c[i] && cadena[0] != cadena[i + 1];
      assert ram[cadena[i + 1]] == Despues(cadena, i + 1);
    }
  }

  lemma PushKeepsChain(cadena: seq<nat>, pila: nat, ram: map<nat, nat>, phys: nat)
    requires Encadenada(cadena, pila, ram) && phys !in cadena && phys != 0 && phys % PAGINA == 0
    ensures Encadenada([phys] + cadena, phys, ram[phys := pila])
  {
    var c, r := [phys] + cadena, ram[phys := pila];
    forall i | 0 <= i < |c|
      ensures c[i] != 0 && c[i] % PAGINA == 0 && c[i] in r && r[c[i]] == Despues(c, i)
    {
      if i > 0 {
        assert c[i] == cadena[i - 1] && cadena[i - 1] in cadena;
        assert ram[cadena[i - 1]] == Despues(cadena, i - 1);
      }
      assert i + 1 < |c| ==> c[i + 1] == cadena[i];
    }
    forall i, j | 0 <= i < j < |c| ensures c[i] != c[j] {
      assert c[j] == cadena[j - 1] && cadena[j - 1] in cadena;
    }
  }

  /** The packed states agree with the chain and with who owns what: no frame has two owners. */
  ghost predicate EnRegla(rangos: seq<Rango>, estado: seq<seq<bv8>>, cadena: seq<nat>, asignados: set<nat>)
    requires RangosValidos(rangos, estado)
  {
    && (forall f :: f in asignados ==> f != 0 && f % PAGINA == 0 && Estado(rangos, estado, f) == 2)
    && (forall f :: f in cadena ==> f % PAGINA == 0 && Estado(rangos, estado, f) == 1)
    && (forall f: nat :: f % PAGINA == 0 && f != 0 ==>
          && (Estado(rangos, estado, f) == 1 ==> f in cadena)
          && (Estado(rangos, estado, f) == 2 ==> f in asignados))
  }

  lemma TakeKeepsStates(rangos: seq<Rango>, estado: seq<seq<bv8>>, cadena: seq<nat>, asignados: set<nat>,
                        phys: nat, resto: seq<nat>)
    requires RangosValidos(rangos, estado) && EnRegla(rangos, estado, cadena, asignados)
    requires phys in cadena && phys != 0 && forall f :: f in resto <==> f in cadena && f != phys
    ensures EnRegla(rangos, ConEstado(rangos, estado, phys, 2), resto, asignados + {phys})
    ensures phys !in asignados
  {
    hide Estado, ConEstado;
    WritesAreFrameWise(rangos, estado, phys, 2);
  }

  lemma GiveKeepsStates(rangos: seq<Rango>, estado: seq<seq<bv8>>, cadena: seq<nat>, asignados: set<nat>, phys: nat)
    requires RangosValidos(rangos, estado) && EnRegla(rangos, estado, cadena, asignados)
    requires phys in asignados
    ensures EnRegla(rangos, ConEstado(rangos, estado, phys, 1), [phys] + cadena, asignados - {phys})
    ensures phys !in cadena
  {
    hide Estado, ConEstado;
    WritesAreFrameWise(rangos, estado, phys, 1);
  }

  /** Frames handed out are frames, and none of them is free. */
  ghost predicate Repartidas(cadena: seq<nat>, asignados: set<nat>) {
    (forall f :: f in asignados ==> f != 0 && f % PAGINA == 0) && forall f :: f in cadena ==> f !in asignados
  }

  class Pmm {
    var rangos: seq<Rango>
    var estado: seq<seq<bv8>>
    var listo: bool                   // the states exist
    var ram: map<nat, nat>            // first word of every frame
    var pila: nat
    var libres: nat
    var enUso: nat
    const totales: nat
    ghost var cadena: seq<nat>
    ghost var asignados: set<nat>
    ghost var tempranos: set<nat>     // those of them taken before the states existed

    ghost predicate Valid()
      reads this
    {
      && RangosValidos(rangos, estado) && Encadenada(cadena, pila, ram) && Repartidas(cadena, asignados)
      && libres == |cadena| && libres + enUso == totales && enUso == |asignados|
      && (if listo then tempranos <= asignados && EnRegla(rangos, estado, cadena, asignados - tempranos)
          else tempranos == asignados)
    }

    /** The stack as boot threads it, before there are any states. */
    constructor (r: map<nat, nat>, tope: nat, n: nat, ghost c: seq<nat>)
      requires Encadenada(c, tope, r) && n == |c|
      ensures Valid() && cadena == c && asignados == {} && !listo && totales == n
    {
      rangos, estado, listo, ram, pila, libres, enUso := [], [], false, r, tope, n, 0;
      totales := n;
      cadena, asignados, tempranos := c, {}, {};
    }

    /** From here on every frame has a state. Those handed out before stay reserved for good. */
    method Activar(rs: seq<Rango>, e: seq<seq<bv8>>)
      requires Valid() && !listo && RangosValidos(rs, e) && EnRegla(rs, e, cadena, {})
      modifies `rangos, `estado, `listo
      ensures Valid() && listo && rangos == rs && tempranos == asignados
    {
      assert asignados - tempranos == {};
      rangos, estado, listo := rs, e, true;
    }

    /** The frames that can be given back. */
    ghost function Devolvibles(): set<nat>
      reads this
    {
      if listo then asignados - tempranos else asignados
    }

    /** The range that holds an address, if one does. */
    method RangoCon(phys: nat) returns (i: nat)
      ensures i == Buscar(rangos, phys)
    {
      i := 0;
      while i < |rangos|
        invariant i <= |rangos|
        invariant forall k :: 0 <= k < i ==> !EnRango(rangos[k], phys)
      {
        var r := rangos[i];
        if phys >= r.inicio && (phys - r.inicio) / PAGINA < r.paginas {
          return;
        }
        i := i + 1;
      }
    }

    method EstadoLeer(phys: nat) returns (e: int)
      requires RangosValidos(rangos, estado)
      ensures e == Estado(rangos, estado, phys)
    {
      hide Campo, Buscar;
      var i := RangoCon(phys);
      if i == |rangos| {
        return -1;
      }
      var idx := (phys - rangos[i].inicio) / PAGINA;
      return Campo(estado[i][idx / 4], idx % 4) as int;
    }

    method EstadoEscribir(phys: nat, v: bv8)
      requires RangosValidos(rangos, estado)
      modifies `estado
      ensures estado == ConEstado(rangos, old(estado), phys, v)
    {
      hide ConCampo, Buscar;
      var i := RangoCon(phys);
      if i < |rangos| {
        var idx := (phys - rangos[i].inicio) / PAGINA;
        estado := estado[i := estado[i][idx / 4 := ConCampo(estado[i][idx / 4], idx % 4, v)]];
      }
    }

    /** The state of the top frame on its way out. */
    method AnotarTomado(phys: nat) returns (bien: bool)
      requires RangosValidos(rangos, estado) && EnRegla(rangos, estado, cadena, asignados - tempranos)
      requires phys in cadena && phys != 0 && cadena != [] && forall f :: f in cadena[1..] <==> f in cadena && f != phys
      modifies `estado
      ensures bien && RangosValidos(rangos, estado) && EnRegla(rangos, estado, cadena[1..], asignados - tempranos + {phys})
    {
      hide Estado, ConEstado, RangosValidos;
      var e := EstadoLeer(phys);
      TakeKeepsStates(rangos, estado, cadena, asignados - tempranos, phys, cadena[1..]);
      if e != 1 {
        return false;
      }
      EstadoEscribir(phys, 2);
      return true;
    }

    /** The state of a frame on its way back. */
    method AnotarDevuelto(phys: nat) returns (bien: bool)
      requires RangosValidos(rangos, estado) && EnRegla(rangos, estado, cadena, asignados - tempranos)
      requires phys != 0 && phys % PAGINA == 0
      modifies `estado
      ensures bien <==> phys in asignados - tempranos
      ensures !bien ==> unchanged(this)
      ensures bien ==> RangosValidos(rangos, estado)
                       && EnRegla(rangos, estado, [phys] + cadena, asignados - tempranos - {phys})
    {
      hide Estado, ConEstado, RangosValidos;
      var e := EstadoLeer(phys);
      if e != 2 {
        return false;
      }
      GiveKeepsStates(rangos, estado, cadena, asignados - tempranos, phys);
      EstadoEscribir(phys, 1);
      return true;
    }

    /** Pops the top frame. Fails exactly when no frame is free, and never panics. */
    method Asignar(coordinador: bool) returns (phys: nat, quebrado: bool)
      requires Valid()
      modifies this
      ensures Valid() && !quebrado
      ensures !coordinador || old(cadena) == [] ==> phys == 0 && unchanged(this)
      ensures coordinador && old(cadena) != [] ==>
                && phys == old(cadena)[0] && phys != 0 && phys !in old(asignados)
                && cadena == old(cadena)[1..] && asignados == old(asignados) + {phys}
                && ram == old(ram)[phys := 0] && phys in Devolvibles()
      ensures listo == old(listo) && rangos == old(rangos) && (listo ==> tempranos == old(tempranos))
    {
      hide Estado, ConEstado, RangosValidos, EnRegla, Encadenada;
      phys, quebrado := 0, false;
      EmptyIsNull(cadena, pila, ram);
      if !coordinador || pila == 0 {
        return;
      }
      TopIsFirst(cadena, pila, ram);
      if listo {
        var bien := AnotarTomado(pila);
        if !bien {
          quebrado := true;
          return;
        }
        assert asignados + {pila} - tempranos == asignados - tempranos + {pila};
      } else {
        tempranos := tempranos + {pila};
      }
      phys := pila;
      Desapilar();
    }

    /** Takes the top frame off the chain, and clears it. */
    method Desapilar()
      requires Encadenada(cadena, pila, ram) && Repartidas(cadena, asignados) && pila != 0
      requires libres == |cadena| && enUso == |asignados|
      modifies `pila, `libres, `enUso, `ram, `cadena, `asignados
      ensures Encadenada(cadena, pila, ram) && Repartidas(cadena, asignados)
      ensures libres == |cadena| && enUso == |asignados| && libres + enUso == old(libres + enUso)
      ensures cadena == old(cadena)[1..] && asignados == old(asignados) + {old(pila)} && ram == old(ram)[old(pila) := 0]
    {
      hide Encadenada;
      TopIsFirst(cadena, pila, ram);
      PopKeepsChain(cadena, pila, ram, 0);
      var phys := pila;
      pila := ram[phys];
      if libres > 0 {
        libres := libres - 1;
      }
      enUso := enUso + 1;
      ram := ram[phys := 0];
      cadena, asignados := cadena[1..], asignados + {phys};
    }

    /** Pushes a frame back. Refused, by a panic that changes nothing, exactly when the address is
        not that of a frame that can be given back. Before the states exist nothing but its alignment
        is checked, and callers give back what they have taken. */
    method Liberar(coordinador: bool, phys: nat) returns (quebrado: bool)
      requires Valid() && (!listo && coordinador && phys != 0 && phys % PAGINA == 0 ==> phys in asignados)
      modifies this
      ensures Valid()
      ensures quebrado <==> coordinador && phys !in old(Devolvibles())
      ensures !coordinador || quebrado ==> unchanged(this)
      ensures coordinador && !quebrado ==>
                && cadena == [phys] + old(cadena) && asignados == old(asignados) - {phys}
                && ram == old(ram)[phys := old(pila)]
      ensures listo == old(listo) && rangos == old(rangos) && (listo ==> tempranos == old(tempranos))
    {
      hide Estado, ConEstado, RangosValidos, Encadenada, EnRegla;
      if !coordinador {
        return false;
      }
      if phys == 0 || phys % PAGINA != 0 {
        return true;
      }
      if listo {
        var bien := AnotarDevuelto(phys);
        if !bien {
          return true;
        }
        assert asignados - {phys} - tempranos == asignados - tempranos - {phys};
      } else {
        tempranos := tempranos - {phys};
      }
      Apilar(phys);
      return false;
    }

    /** Puts a frame on top of the chain. */
    method Apilar(phys: nat)
      requires Encadenada(cadena, pila, ram) && Repartidas(cadena, asignados) && phys in asignados
      requires libres == |cadena| && enUso == |asignados|
      modifies `pila, `libres, `enUso, `ram, `cadena, `asignados
      ensures Encadenada(cadena, pila, ram) && Repartidas(cadena, asignados)
      ensures libres == |cadena| && enUso == |asignados| && libres + enUso == old(libres + enUso)
      ensures cadena == [phys] + old(cadena) && asignados == old(asignados) - {phys} && ram == old(ram)[phys := old(pila)]
    {
      hide Encadenada;
      PushKeepsChain(cadena, pila, ram, phys);
      ram := ram[phys := pila];
      pila := phys;
      libres := libres + 1;
      if enUso > 0 {
        enUso := enUso - 1;
      }
      cadena, asignados := [phys] + cadena, asignados - {phys};
    }

    lemma FramesAreAligned()
      requires Valid()
      ensures forall f :: f in asignados ==> f > 0 && f % PAGINA == 0
      ensures forall f :: f in cadena ==> f % PAGINA == 0 && f !in asignados
    {
      hide EnRegla, RangosValidos;
      forall f | f in cadena ensures f % PAGINA == 0 {
        var i :| 0 <= i < |cadena| && cadena[i] == f;
      }
    }
  }

  lemma EmptyIsNull(cadena: seq<nat>, pila: nat, ram: map<nat, nat>)
    requires Encadenada(cadena, pila, ram)
    ensures pila == 0 <==> cadena == []
  {
  }

  lemma TopIsFirst(cadena: seq<nat>, pila: nat, ram: map<nat, nat>)
    requires Encadenada(cadena, pila, ram) && pila != 0
    ensures cadena != [] && pila == cadena[0] && pila in cadena && pila in ram && pila % PAGINA == 0
    ensures forall f :: f in cadena[1..] <==> f in cadena && f != pila
  {
    assert cadena == [cadena[0]] + cadena[1..];
  }

  lemma WritesAreFrameWise(rangos: seq<Rango>, estado: seq<seq<bv8>>, phys: nat, v: bv8)
    requires RangosValidos(rangos, estado) && phys % PAGINA == 0
    ensures forall f: nat :: f % PAGINA == 0 ==>
              Estado(rangos, ConEstado(rangos, estado, phys, v), f) ==
              if f == phys && Estado(rangos, estado, phys) >= 0 then (v & 3) as int else Estado(rangos, estado, f)
  {
    hide Estado, ConEstado;
    forall f: nat | f % PAGINA == 0
      ensures Estado(rangos, ConEstado(rangos, estado, phys, v), f) ==
              if f == phys && Estado(rangos, estado, phys) >= 0 then (v & 3) as int else Estado(rangos, estado, f)
    {
      FrameWriteChangesOneFrame(rangos, estado, phys, v, f);
    }
  }
}
