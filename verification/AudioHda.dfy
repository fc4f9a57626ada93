/** PCM streaming: a byte ring feeding two DMA blocks that the hardware plays alternately. */
module AudioHda {
  import opened Bytes

  const COLA: nat := 262144
  const BLOQUE: nat := 65536
  const TOTAL: nat := 131072

  // ----- Fills -----

  /** The PCM part of a sequence of block fills, in order. */
  function Pcm(llenados: seq<seq<byte>>): seq<byte> {
    if llenados == [] then [] else Pcm(llenados[..|llenados| - 1]) + llenados[|llenados| - 1]
  }

  /** A block of the DMA buffer: PCM first, silence after it. */
  predicate Lleva(bloque: seq<byte>, pcm: seq<byte>) {
    |bloque| == BLOQUE && forall i :: 0 <= i < BLOQUE ==> bloque[i] == if i < |pcm| then pcm[i] else 0
  }

  lemma BlockByBytes(dma: seq<byte>, destino: nat, cola: seq<byte>, copiar: nat)
    requires destino + BLOQUE <= |dma| && copiar <= |cola| && copiar <= BLOQUE
    requires Lleva(dma[destino..destino + BLOQUE], cola[..copiar])
    ensures forall p :: destino <= p < destino + BLOQUE ==>
              dma[p] == if p - destino < copiar then cola[p - destino] else 0
  {
    forall p | destino <= p < destino + BLOQUE
      ensures dma[p] == if p - destino < copiar then cola[p - destino] else 0
    {
      assert dma[p] == dma[destino..destino + BLOQUE][p - destino];
    }
  }

  predicate Cortos(llenados: seq<seq<byte>>) {
    forall i :: 0 <= i < |llenados| ==> |llenados[i]| <= BLOQUE
  }

  lemma PcmAppend(llenados: seq<seq<byte>>, x: seq<byte>)
    ensures Pcm(llenados + [x]) == Pcm(llenados) + x
  {
    assert (llenados + [x])[..|llenados|] == llenados;
  }

  /** First in, first out: what was filled, then what is queued, is exactly what was accepted, and
      every block is PCM and silence adding up to its size. */
  predicate EnOrden(entrada: seq<byte>, llenados: seq<seq<byte>>, contenido: seq<byte>, copiado: nat, silencio: nat) {
    && entrada == Pcm(llenados) + contenido
    && Cortos(llenados)
    && copiado == |Pcm(llenados)|
    && copiado + silencio == BLOQUE * |llenados|
  }

  lemma NothingYetIsInOrder()
    ensures EnOrden([], [], [], 0, 0)
  {
  }

  lemma AcceptingKeepsOrder(entrada: seq<byte>, llenados: seq<seq<byte>>, contenido: seq<byte>, copiado: nat,
                            silencio: nat, datos: seq<byte>)
    requires EnOrden(entrada, llenados, contenido, copiado, silencio)
    ensures EnOrden(entrada + datos, llenados, contenido + datos, copiado, silencio)
  {
    assert Pcm(llenados) + contenido + datos == Pcm(llenados) + (contenido + datos);
  }

  lemma FillingKeepsOrder(entrada: seq<byte>, llenados: seq<seq<byte>>, pcm: seq<byte>, contenido: seq<byte>,
                          copiado: nat, silencio: nat)
    requires EnOrden(entrada, llenados, pcm + contenido, copiado, silencio) && |pcm| <= BLOQUE
    ensures EnOrden(entrada, llenados + [pcm], contenido, copiado + |pcm|, silencio + (BLOQUE - |pcm|))
  {
    PcmAppend(llenados, pcm);
    assert Pcm(llenados) + (pcm + contenido) == Pcm(llenados) + pcm + contenido;
  }

  // ----- The ring -----

  /** An index that ran past the end of the ring at most once. */
  function Vuelta(x: nat): nat { if x < COLA then x else x - COLA }

  /** The `n` ring bytes from index `desde`, wrapping at the end. */
  function Anillo(s: seq<byte>, desde: nat, n: nat): (r: seq<byte>)
    requires |s| == COLA && desde < COLA && n <= COLA
    ensures |r| == n
    ensures forall i :: 0 <= i < n ==> r[i] == s[Vuelta(desde + i)]
  {
    seq(n, i requires 0 <= i < n => s[Vuelta(desde + i)])
  }

  /** Where ring index `p` lies when counting from index `desde`. */
  function Turno(p: nat, desde: nat): nat
    requires p < COLA && desde < COLA
  {
    if p >= desde then p - desde else p + COLA - desde
  }

  /** `t` is `s` with `datos` stored behind the `n` bytes that start at `desde`. */
  predicate Guardado(s: seq<byte>, t: seq<byte>, desde: nat, n: nat, datos: seq<byte>)
    requires |s| == |t| == COLA && desde < COLA && n < COLA
  {
    forall p :: 0 <= p < COLA ==>
      t[p] == if Turno(p, Vuelta(desde + n)) < |datos| then datos[Turno(p, Vuelta(desde + n))] else s[p]
  }

  lemma StoredBehind(s: seq<byte>, t: seq<byte>, desde: nat, n: nat, datos: seq<byte>)
    requires |s| == |t| == COLA && desde < COLA && n < COLA && n + |datos| <= COLA
    requires Guardado(s, t, desde, n, datos)
    ensures Anillo(t, desde, n + |datos|) == Anillo(s, desde, n) + datos
  {
    var a, b := Anillo(t, desde, n + |datos|), Anillo(s, desde, n) + datos;
    forall i | 0 <= i < n + |datos| ensures a[i] == b[i] {
      assert Turno(Vuelta(desde + i), Vuelta(desde + n)) == if i < n then COLA + i - n else i - n;
    }
  }

  lemma RingSplits(s: seq<byte>, desde: nat, n: nat, k: nat)
    requires |s| == COLA && desde < COLA && k <= n <= COLA && k < COLA
    ensures Anillo(s, desde, n) == Anillo(s, desde, k) + Anillo(s, Vuelta(desde + k), n - k)
  {
  }

  /** How far the hardware moved between two readings of its cyclic position. */
  function Avance(antes: nat, ahora: nat): (delta: nat)
    requires antes < TOTAL && ahora < TOTAL
    ensures delta < TOTAL && (antes + delta) % TOTAL == ahora
  {
    if ahora >= antes then ahora - antes else ahora + TOTAL - antes
  }

  /** A reading is believed when it is in range and not more than one block ahead. */
  predicate Creible(antes: nat, ahora: nat)
    requires antes < TOTAL
  {
    ahora < TOTAL && 0 < Avance(antes, ahora) <= BLOQUE
  }

  /** A believable reading agrees with the accounted total, and crosses one boundary at most. */
  lemma AdvanceIsOneBlockAtMost(total: nat, antes: nat, pos: nat)
    requires antes == total % TOTAL
    ensures Creible(antes, pos) ==>
              var t := total + Avance(antes, pos);
              t % TOTAL == pos && (t / BLOQUE == total / BLOQUE || t / BLOQUE == total / BLOQUE + 1)
  {
  }

  datatype Estado = Detenido | Preparando | Reproduciendo | Drenando

  /** The counters of the driver's public state. */
  datatype Cuentas = Cuentas(
    bytesDma: nat,       // accounted DMA bytes
    bytesEnCola: nat,    // PCM bytes already copied into blocks
    silencio: nat,       // silence bytes inserted
    vaciados: nat,       // underruns
    saltos: nat)         // refused position jumps

  class Reproductor {
    const cola: array<byte>
    var lectura: nat
    var escritura: nat
    var ocupada: nat
    const dma: array<byte>
    var gen: seq<nat>
    var posAnterior: nat
    var bloqueEnDma: nat
    var modoStream: bool
    var reproduciendo: bool        // the hardware runs
    var estado: Estado
    var cuentas: Cuentas
    var aceptados: nat             // 32-bit counter
    var rechazados: nat            // 32-bit counter
    ghost var entrada: seq<byte>           // every byte accepted in this session
    ghost var llenados: seq<seq<byte>>     // the PCM of every fill of this session

    /** The queued bytes, oldest first. */
    ghost function Contenido(): (s: seq<byte>)
      requires cola.Length == COLA && lectura < COLA && ocupada <= COLA
      reads `lectura, `ocupada, cola
      ensures |s| == ocupada
    {
      Anillo(cola[..], lectura, ocupada)
    }

    ghost predicate AnilloValido()
      reads `lectura, `escritura, `ocupada
    {
      && cola.Length == COLA && dma.Length == TOTAL && cola != dma
      && lectura < COLA && ocupada <= COLA && ocupada % 4 == 0 && lectura % 4 == 0
      && escritura == Vuelta(lectura + ocupada)
    }

    /** The audio FIFO: what was filled, then what is queued, is what was accepted. */
    ghost predicate Fifo()
      requires AnilloValido()
      reads `lectura, `escritura, `ocupada, cola, `entrada, `llenados, `cuentas
    {
      EnOrden(entrada, llenados, Contenido(), cuentas.bytesEnCola, cuentas.silencio)
    }

    /** The DMA block holds that fill, padded with silence. */
    ghost predicate Contiene(j: nat)
      requires dma.Length == TOTAL && j < |llenados|
      reads `llenados, dma
    {
      |llenados[j]| <= BLOQUE && Lleva(dma[(j % 2) * BLOQUE..(j % 2) * BLOQUE + BLOQUE], llenados[j])
    }

    /** The ping-pong state with `k` blocks played, whatever the current total. */
    ghost predicate EnCurso(k: nat)
      requires dma.Length == TOTAL
      reads `llenados, dma, `bloqueEnDma, `gen
    {
      && |llenados| == k + 2 && |gen| == 2 && bloqueEnDma == k % 2
      && Contiene(k) && Contiene(k + 1)
      && gen[k % 2] == Max(1, k) && gen[(k + 1) % 2] == k + 1
    }

    /** With k blocks played, fills k and k + 1 are in the two blocks: none skipped, none refilled
        twice, none overwritten early. */
    ghost predicate PingPong()
      requires dma.Length == TOTAL
      reads `llenados, dma, `cuentas, `posAnterior, `bloqueEnDma, `gen
    {
      EnCurso(cuentas.bytesDma / BLOQUE) && posAnterior == cuentas.bytesDma % TOTAL
    }

    /** Started with nothing queued: the hardware plays silence. */
    ghost predicate Mudo()
      reads `llenados, `ocupada, `entrada, `cuentas, `posAnterior, `bloqueEnDma, dma
    {
      && llenados == [] && entrada == [] && ocupada == 0 && cuentas.bytesEnCola == 0
      && posAnterior < TOTAL && bloqueEnDma < 2
      && dma.Length == TOTAL && forall p :: 0 <= p < TOTAL ==> dma[p] == 0
    }

    ghost predicate EnSesion() reads `estado { estado.Reproduciendo? || estado.Drenando? }

    ghost predicate Valid()
      reads this, cola, dma
    {
      && AnilloValido() && |gen| == 2 && aceptados < DOS32 && rechazados < DOS32 && (modoStream ==> Fifo())
      && (estado.Preparando? ==> modoStream && llenados == [])
      && (!modoStream ==> llenados == [] && ocupada == 0)
      && (estado.Detenido? ==> !modoStream && !reproduciendo)
      && (EnSesion() ==> reproduciendo && if modoStream then PingPong() else Mudo())
    }

    constructor ()
      ensures Valid() && estado == Detenido && entrada == [] && fresh(cola) && fresh(dma)
    {
      cola := new byte[COLA](_ => 0);
      dma := new byte[TOTAL](_ => 0);
      lectura, escritura, ocupada, posAnterior, bloqueEnDma := 0, 0, 0, 0, 0;
      gen, modoStream, reproduciendo, estado := [0, 0], false, false, Detenido;
      cuentas, aceptados, rechazados := Cuentas(0, 0, 0, 0, 0), 0, 0;
      entrada, llenados := [], [];
    }

    /** Accepts what fits, in whole stereo samples, and never touches the hardware. */
    method Encolar(datos: seq<byte>) returns (n: int)
      requires Valid()
      modifies this, cola
      ensures Valid()
      ensures datos == [] ==> n == -1 && unchanged(this)
      ensures datos != [] ==> 0 <= n <= |datos| && n % 4 == 0
      ensures datos != [] ==> n == Min(|datos|, COLA - old(ocupada)) / 4 * 4
      ensures datos != [] ==> entrada == old(if modoStream then entrada else []) + datos[..n]
      ensures datos != [] ==> llenados == old(llenados)
      ensures datos != [] ==> modoStream && reproduciendo == old(reproduciendo)
      ensures datos != [] ==> estado == if old(modoStream) then old(estado) else Preparando
      ensures datos != [] ==> aceptados == ((if old(modoStream) then old(aceptados) else 0) + n) % DOS32
      ensures datos != [] ==> rechazados == ((if old(modoStream) then old(rechazados) else 0) + (|datos| - n)) % DOS32
      ensures old(modoStream) ==> cuentas.bytesDma == old(cuentas.bytesDma) && dma[..] == old(dma[..])
    {
      hide Fifo, PingPong, Mudo, Vuelta, Anillo;
      if datos == [] {
        return -1;
      }
      if !modoStream {
        PrepararFlujo();
      }
      var libre := COLA - ocupada;
      var cuanto := if |datos| <= libre then |datos| else libre;
      cuanto := cuanto / 4 * 4;
      if cuanto > 0 {
        Meter(datos[..cuanto]);
        aceptados := (aceptados + cuanto) % DOS32;
      }
      if cuanto < |datos| {
        rechazados := (rechazados + (|datos| - cuanto)) % DOS32;
      }
      return cuanto;
    }

    /** The first bytes of a session reset the queue and every counter. */
    method PrepararFlujo()
      requires AnilloValido() && llenados == []
      modifies this
      ensures AnilloValido() && Fifo() && |gen| == 2 && modoStream && estado == Preparando
      ensures ocupada == 0 && entrada == [] && llenados == [] && aceptados == 0 && rechazados == 0
      ensures reproduciendo == old(reproduciendo)
    {
      hide Anillo, EnOrden, PingPong, Mudo;
      NothingYetIsInOrder();
      VaciarCola();
      modoStream, estado := true, Preparando;
      cuentas, aceptados, rechazados := Cuentas(0, 0, 0, 0, 0), 0, 0;
      BorrarBloques(0);
      entrada := [];
      assert Contenido() == [];
    }

    /** Copies into the ring, in two pieces when it wraps. */
    method CopiarAlAnillo(datos: seq<byte>)
      requires AnilloValido() && 0 < |datos| <= COLA - ocupada
      modifies cola
      ensures Guardado(old(cola[..]), cola[..], lectura, ocupada, datos)
    {
      var fin := COLA - escritura;
      if |datos| <= fin {
        forall p | escritura <= p < escritura + |datos| {
          cola[p] := datos[p - escritura];
        }
      } else {
        forall p | escritura <= p < COLA {
          cola[p] := datos[p - escritura];
        }
        forall p | 0 <= p < |datos| - fin {
          cola[p] := datos[fin + p];
        }
      }
    }

    method Meter(datos: seq<byte>)
      requires AnilloValido() && 0 < |datos| <= COLA - ocupada && |datos| % 4 == 0
      requires Fifo()
      modifies `escritura, `ocupada, `entrada, cola
      ensures AnilloValido() && Fifo()
      ensures ocupada == old(ocupada) + |datos| && entrada == old(entrada) + datos
    {
      hide EnOrden, Anillo, Guardado;
      ghost var antes := cola[..];
      AcceptingKeepsOrder(entrada, llenados, Contenido(), cuentas.bytesEnCola, cuentas.silencio, datos);
      CopiarAlAnillo(datos);
      StoredBehind(antes, cola[..], lectura, ocupada, datos);
      var fin := COLA - escritura;
      escritura := if |datos| <= fin then (escritura + |datos|) % COLA else |datos| - fin;
      ocupada := ocupada + |datos|;
      entrada := entrada + datos;
    }

    /** Copies out of the ring, in two pieces when it wraps. */
    method CopiarDelAnillo(copiar: nat, destino: nat)
      requires AnilloValido() && copiar <= ocupada && destino + copiar <= TOTAL
      modifies dma
      ensures dma[destino..destino + copiar] == Anillo(cola[..], lectura, copiar)
      ensures forall p :: 0 <= p < TOTAL && !(destino <= p < destino + copiar) ==> dma[p] == old(dma[p])
    {
      var fin := COLA - lectura;
      if copiar <= fin {
        forall p | destino <= p < destino + copiar {
          dma[p] := cola[lectura + (p - destino)];
        }
      } else {
        forall p | destino <= p < destino + fin {
          dma[p] := cola[lectura + (p - destino)];
        }
        forall p | destino + fin <= p < destino + copiar {
          dma[p] := cola[p - destino - fin];
        }
      }
    }

    /** Moves `copiar` bytes from the ring to the DMA buffer. */
    method Sacar(copiar: nat, destino: nat)
      requires AnilloValido() && copiar <= ocupada && copiar % 4 == 0 && copiar < COLA && destino + copiar <= TOTAL
      modifies `lectura, `ocupada, dma
      ensures AnilloValido() && ocupada == old(ocupada) - copiar
      ensures old(Contenido()) == dma[destino..destino + copiar] + Contenido()
      ensures forall p :: 0 <= p < TOTAL && !(destino <= p < destino + copiar) ==> dma[p] == old(dma[p])
    {
      hide Anillo;
      RingSplits(cola[..], lectura, ocupada, copiar);
      CopiarDelAnillo(copiar, destino);
      var fin := COLA - lectura;
      lectura := if copiar <= fin then (lectura + copiar) % COLA else copiar - fin;
      ocupada := ocupada - copiar;
    }

    /** Fills one DMA block from the queue, and with silence where the queue ends. */
    method Llenar(bloque: nat, generacion: nat)
      requires AnilloValido() && Fifo() && |gen| == 2 && bloque < 2 && modoStream
      modifies `lectura, `ocupada, `cuentas, `gen, `llenados, dma
      ensures AnilloValido() && Fifo()
      ensures llenados == old(llenados) + [old(Contenido()[..Min(ocupada, BLOQUE)])]
      ensures ocupada == old(ocupada) - Min(old(ocupada), BLOQUE)
      ensures old(Contenido()) == old(Contenido()[..Min(ocupada, BLOQUE)]) + Contenido()
      ensures gen == old(gen)[bloque := generacion] && cuentas.bytesDma == old(cuentas.bytesDma)
      ensures cuentas.bytesEnCola == old(cuentas.bytesEnCola) + Min(old(ocupada), BLOQUE)
      ensures cuentas.saltos == old(cuentas.saltos)
      ensures forall p :: bloque * BLOQUE <= p < bloque * BLOQUE + BLOQUE ==>
                dma[p] == if p - bloque * BLOQUE < Min(old(ocupada), BLOQUE) then old(Contenido())[p - bloque * BLOQUE]
                          else 0
      ensures Lleva(dma[bloque * BLOQUE..bloque * BLOQUE + BLOQUE], old(Contenido()[..Min(ocupada, BLOQUE)]))
      ensures forall p :: 0 <= p < TOTAL && !(bloque * BLOQUE <= p < bloque * BLOQUE + BLOQUE) ==> dma[p] == old(dma[p])
    {
      hide Anillo, EnOrden, Vuelta, Lleva;
      var destino := bloque * BLOQUE;
      var copiar := if ocupada >= BLOQUE then BLOQUE else ocupada;
      copiar := copiar / 4 * 4;
      ghost var pcm, antes, copiado, silencio := Contenido()[..copiar], Contenido(), cuentas.bytesEnCola, cuentas.silencio;
      Sacar(copiar, destino);
      cuentas := cuentas.(bytesEnCola := cuentas.bytesEnCola + copiar);
      Silenciar(destino, copiar);
      if copiar < BLOQUE {
        cuentas := cuentas.(silencio := cuentas.silencio + (BLOQUE - copiar),
                            vaciados := cuentas.vaciados + if estado.Reproduciendo? then 1 else 0);
      }
      FillingKeepsOrder(entrada, llenados, pcm, Contenido(), copiado, silencio);
      llenados := llenados + [pcm];
      gen := gen[bloque := generacion];
      BlockByBytes(dma[..], destino, antes, copiar);
    }

    /** Zeroes what the PCM did not fill of a block. */
    method Silenciar(destino: nat, copiar: nat)
      requires copiar <= BLOQUE && destino + BLOQUE <= TOTAL == dma.Length
      modifies dma
      ensures Lleva(dma[destino..destino + BLOQUE], old(dma[destino..destino + copiar]))
      ensures forall p :: 0 <= p < TOTAL && !(destino <= p < destino + BLOQUE) ==> dma[p] == old(dma[p])
    {
      forall p | destino + copiar <= p < destino + BLOQUE {
        dma[p] := 0;
      }
    }

    /** Starts the hardware: both blocks are filled first. A stream that plays is left alone. A queue
        prepared with the hardware at rest is played; in any other state, a drain included, what is
        queued is dropped and the hardware plays silence. */
    method IniciarStream() returns (r: int)
      requires Valid()
      modifies this, dma
      ensures Valid() && r == 0 && estado == Reproduciendo
      ensures old(estado).Reproduciendo? ==> unchanged(this) && unchanged(dma)
      ensures !old(estado).Reproduciendo? ==> cuentas.bytesDma == 0 && posAnterior == 0
      ensures old(estado).Preparando? && !old(reproduciendo) ==>
                && modoStream && entrada == old(entrada) && ocupada == Max(0, old(ocupada) - 2 * BLOQUE)
                && var a := Min(old(ocupada), BLOQUE);
                   llenados == [old(Contenido())[..a], old(Contenido())[a..Min(old(ocupada), 2 * BLOQUE)]]
      ensures !old(estado).Reproduciendo? && !(old(estado).Preparando? && !old(reproduciendo)) ==>
                !modoStream && entrada == [] && ocupada == 0 && llenados == []
    {
      hide Lleva, Fifo, Anillo, Vuelta, Cortos, PingPong, Mudo;
      if estado.Reproduciendo? {
        return 0;
      }
      if reproduciendo {
        Detener();
      }
      if modoStream {
        Precargar();
      } else {
        PrecargarMudo();
      }
      estado, reproduciendo := Reproduciendo, true;
      return 0;
    }

    method Precargar()
      requires AnilloValido() && Fifo() && |gen| == 2 && modoStream && llenados == []
      modifies `cuentas, `bloqueEnDma, `gen, `posAnterior, `lectura, `ocupada, `llenados, dma
      ensures AnilloValido() && Fifo() && |gen| == 2 && PingPong() && cuentas.bytesDma == 0 && posAnterior == 0
      ensures ocupada == Max(0, old(ocupada) - 2 * BLOQUE)
      ensures var a := Min(old(ocupada), BLOQUE);
              llenados == [old(Contenido())[..a], old(Contenido())[a..Min(old(ocupada), 2 * BLOQUE)]]
    {
      hide Lleva, Fifo, Anillo, Vuelta, Cortos;
      Reiniciar();
      ghost var c, a := Contenido(), Min(ocupada, BLOQUE);
      Llenar(0, 1);
      assert Contenido() == c[a..];
      ghost var d, primero := Contenido(), dma[0..BLOQUE];
      Llenar(1, 1);
      assert dma[0..BLOQUE] == primero;
      assert d[..Min(|d|, BLOQUE)] == c[a..Min(|c|, 2 * BLOQUE)];
    }

    method PrecargarMudo()
      requires AnilloValido() && |gen| == 2 && llenados == [] && ocupada == 0
      modifies `cuentas, `bloqueEnDma, `gen, `posAnterior, `entrada, dma
      ensures |gen| == 2 && Mudo() && cuentas.bytesDma == 0 && posAnterior == 0
    {
      cuentas := Cuentas(0, 0, 0, 0, 0);
      BorrarBloques(1);
      Callar(0, 1);
      Callar(1, 1);
      entrada := [];
    }

    /** A block of silence, when there is no stream to fill it from. */
    method Callar(bloque: nat, generacion: nat)
      requires dma.Length == TOTAL && bloque < 2 && |gen| == 2
      modifies `gen, dma
      ensures gen == old(gen)[bloque := generacion]
      ensures forall p :: 0 <= p < TOTAL ==>
                dma[p] == if bloque * BLOQUE <= p < bloque * BLOQUE + BLOQUE then 0 else old(dma[p])
    {
      forall p | bloque * BLOQUE <= p < bloque * BLOQUE + BLOQUE {
        dma[p] := 0;
      }
      gen := gen[bloque := generacion];
    }

    method Reiniciar()
      requires AnilloValido() && Fifo() && llenados == [] && |gen| == 2
      modifies `cuentas, `bloqueEnDma, `gen, `posAnterior
      ensures Fifo() && cuentas == Cuentas(0, 0, 0, 0, 0) && bloqueEnDma == 0 && posAnterior == 0 && gen == [1, 1]
    {
      cuentas := Cuentas(0, 0, 0, 0, 0);
      BorrarBloques(1);
    }

    method Drenar()
      requires Valid()
      modifies `estado
      ensures Valid() && estado == if old(estado).Reproduciendo? then Drenando else old(estado)
    {
      if estado.Reproduciendo? {
        estado := Drenando;
      }
    }

    /** Accounts for a position reading, refills the block the hardware has just left, and ends a
        drain. `parado` tells whether this call stopped the stream. */
    method Actualizar(pos: nat) returns (parado: bool)
      requires Valid()
      modifies this, dma
      ensures Valid()
      ensures !old(EnSesion()) ==> !parado && unchanged(this) && unchanged(dma)
      ensures old(EnSesion()) && !old(modoStream) ==> parado
      ensures parado ==> estado == Detenido
      ensures old(EnSesion()) && old(modoStream) ==>
                var total := old(TotalTras(pos));
                var cruza := total / BLOQUE != old(cuentas.bytesDma) / BLOQUE;
                var sale := if cruza then old(Contenido()[..Min(ocupada, BLOQUE)]) else [];
                && (parado <==> old(estado).Drenando? && |sale| == old(ocupada)
                                && total >= old(cuentas.bytesEnCola) + |sale|)
                && (!parado ==>
                      && modoStream && estado == old(estado) && entrada == old(entrada) && cuentas.bytesDma == total
                      && llenados == old(llenados) + (if cruza then [sale] else [])
                      && cuentas.saltos == old(cuentas.saltos) + (if old(Saltado(pos)) then 1 else 0))
    {
      hide Lleva, Fifo, Anillo, Avance, Contiene, PingPong;
      parado := false;
      if !estado.Reproduciendo? && !estado.Drenando? {
        return;
      }
      Avanzar(pos);
      parado := Cerrar();
    }

    /** Accounts for a reading and refills the block the hardware has left, if it has left one. */
    method Avanzar(pos: nat)
      requires Valid() && EnSesion()
      modifies `cuentas, `posAnterior, `bloqueEnDma, `lectura, `ocupada, `gen, `llenados, dma
      ensures Valid()
      ensures modoStream ==>
                var total := old(TotalTras(pos));
                var cruza := total / BLOQUE != old(cuentas.bytesDma) / BLOQUE;
                var sale := if cruza then old(Contenido()[..Min(ocupada, BLOQUE)]) else [];
                && cuentas.bytesDma == total && llenados == old(llenados) + (if cruza then [sale] else [])
                && ocupada == old(ocupada) - |sale| && cuentas.bytesEnCola == old(cuentas.bytesEnCola) + |sale|
                && cuentas.saltos == old(cuentas.saltos) + (if old(Saltado(pos)) then 1 else 0)
    {
      hide Lleva, Fifo, Anillo, Avance, Contiene;
      if modoStream {
        AdvanceIsOneBlockAtMost(cuentas.bytesDma, posAnterior, pos);
      }
      var valido := Contabilizar(pos);
      if valido {
        if modoStream {
          Recargar();
        } else {
          RecargarMudo();
        }
      }
    }

    /** A drain ends when queue and copied bytes are played; a stream without a source has nothing to
        play, and ends at once. */
    method Cerrar() returns (parado: bool)
      requires Valid() && EnSesion()
      modifies this, dma
      ensures Valid()
      ensures parado <==> old(if estado.Drenando? then ocupada == 0 && cuentas.bytesDma >= cuentas.bytesEnCola else !modoStream)
      ensures parado ==> estado == Detenido
      ensures !parado ==> unchanged(this) && unchanged(dma)
    {
      hide PingPong, Mudo, Fifo, Anillo;
      parado := false;
      if estado.Drenando? {
        if ocupada == 0 && cuentas.bytesDma >= cuentas.bytesEnCola {
          Detener();
          return true;
        }
      } else if !modoStream {
        Detener();
        return true;
      }
    }

    /** The refill of a stream that has nothing to play. */
    method RecargarMudo()
      requires Mudo() && |gen| == 2
      modifies `bloqueEnDma, `gen, dma
      ensures Mudo() && |gen| == 2
    {
      var ahora := if posAnterior >= BLOQUE then 1 else 0;
      if ahora != bloqueEnDma {
        var liberado := bloqueEnDma;
        bloqueEnDma := ahora;
        if gen[liberado] <= gen[ahora] {
          Callar(liberado, gen[ahora] + 1);
        }
      }
    }

    /** The accounted total after a reading: unbelievable readings do not count. */
    ghost function TotalTras(pos: nat): nat
      requires posAnterior < TOTAL
      reads `posAnterior, `cuentas
    {
      cuentas.bytesDma + if Creible(posAnterior, pos) then Avance(posAnterior, pos) else 0
    }

    ghost predicate Saltado(pos: nat)
      requires posAnterior < TOTAL
      reads `posAnterior
    {
      pos < TOTAL && Avance(posAnterior, pos) > BLOQUE
    }

    method Contabilizar(pos: nat) returns (valido: bool)
      requires posAnterior < TOTAL && AnilloValido()
      modifies `cuentas, `posAnterior
      ensures old(Fifo()) ==> Fifo()
      ensures valido == old(Creible(posAnterior, pos))
      ensures posAnterior == if valido then pos else old(posAnterior)
      ensures cuentas == old(cuentas).(bytesDma := old(TotalTras(pos)),
                                       saltos := old(cuentas.saltos) + if old(Saltado(pos)) then 1 else 0)
    {
      valido := false;
      if pos < TOTAL {
        var delta := if pos >= posAnterior then pos - posAnterior else pos + TOTAL - posAnterior;
        if delta > 0 {
          if delta <= BLOQUE {
            cuentas := cuentas.(bytesDma := cuentas.bytesDma + delta);
            posAnterior := pos;
            valido := true;
          } else {
            cuentas := cuentas.(saltos := cuentas.saltos + 1);
          }
        }
      }
    }

    /** Crossing into the other block frees the one just played; it is filled with the next bytes.
        The generation test never refuses. */
    method Recargar()
      requires AnilloValido() && Fifo() && modoStream && |gen| == 2
      requires EnCurso(cuentas.bytesDma / BLOQUE) || (cuentas.bytesDma >= BLOQUE && EnCurso(cuentas.bytesDma / BLOQUE - 1))
      requires posAnterior == cuentas.bytesDma % TOTAL
      modifies `bloqueEnDma, `lectura, `ocupada, `cuentas, `gen, `llenados, dma
      ensures AnilloValido() && Fifo() && PingPong() && cuentas.bytesDma == old(cuentas.bytesDma)
      ensures cuentas.saltos == old(cuentas.saltos)
      ensures var k := cuentas.bytesDma / BLOQUE;
              if old(|llenados|) == k + 2 then
                llenados == old(llenados) && ocupada == old(ocupada) && cuentas == old(cuentas)
              else
                && llenados == old(llenados) + [old(Contenido()[..Min(ocupada, BLOQUE)])]
                && ocupada == old(ocupada) - old(Min(ocupada, BLOQUE))
                && cuentas.bytesEnCola == old(cuentas.bytesEnCola) + old(Min(ocupada, BLOQUE))
    {
      hide Lleva, Fifo, Anillo, Vuelta;
      var ahora := if posAnterior >= BLOQUE then 1 else 0;
      ghost var k := cuentas.bytesDma / BLOQUE;
      assert ahora == k % 2;
      if ahora != bloqueEnDma {
        var liberado := bloqueEnDma;
        bloqueEnDma := ahora;
        if gen[liberado] <= gen[ahora] {
          ghost var otro := dma[ahora * BLOQUE..ahora * BLOQUE + BLOQUE];
          Llenar(liberado, gen[ahora] + 1);
          assert dma[ahora * BLOQUE..ahora * BLOQUE + BLOQUE] == otro;
        }
      }
    }

    method Detener()
      requires AnilloValido() && |gen| == 2 && aceptados < DOS32 && rechazados < DOS32
      modifies this, dma
      ensures Valid() && estado == Detenido && entrada == [] && llenados == []
    {
      hide PingPong, Mudo, Fifo, Anillo;
      BorrarDma();
      estado, modoStream, reproduciendo := Detenido, false, false;
      BorrarBloques(0);
      VaciarCola();
      entrada, llenados := [], [];
    }

    method BorrarDma()
      requires dma.Length == TOTAL
      modifies dma
    {
      forall p | 0 <= p < TOTAL {
        dma[p] := 0;
      }
    }

    method BorrarBloques(g: nat)
      modifies `bloqueEnDma, `posAnterior, `gen
      ensures bloqueEnDma == 0 && posAnterior == 0 && gen == [g, g]
    {
      bloqueEnDma, posAnterior, gen := 0, 0, [g, g];
    }

    method VaciarCola()
      modifies `lectura, `escritura, `ocupada
      ensures lectura == 0 && escritura == 0 && ocupada == 0
    {
      lectura, escritura, ocupada := 0, 0, 0;
    }
  }

  // ----- When a drain really ends after the audio -----

  /** Where, in the stream of all blocks played, the last PCM byte ends. */
  function FinAudio(llenados: seq<seq<byte>>): nat {
    if llenados == [] then 0
    else
      var n := |llenados| - 1;
      if llenados[n] == [] then FinAudio(llenados[..n]) else BLOQUE * n + |llenados[n]|
  }

  /** No silence was inserted before a later PCM byte. */
  predicate SinHuecos(llenados: seq<seq<byte>>) {
    forall i, j :: 0 <= i < j < |llenados| && llenados[j] != [] ==> |llenados[i]| == BLOQUE
  }

  lemma {:induction false} FullBlocks(llenados: seq<seq<byte>>)
    requires Cortos(llenados)
    ensures |Pcm(llenados)| <= BLOQUE * |llenados|
    ensures |Pcm(llenados)| == BLOQUE * |llenados| <==> forall i :: 0 <= i < |llenados| ==> |llenados[i]| == BLOQUE
  {
    if llenados != [] {
      var n := |llenados| - 1;
      FullBlocks(llenados[..n]);
      assert forall i :: 0 <= i < n ==> llenados[..n][i] == llenados[i];
    }
  }

  lemma {:induction false} AudioEndsAtCopiedIff(llenados: seq<seq<byte>>)
    requires Cortos(llenados)
    ensures |Pcm(llenados)| <= FinAudio(llenados)
    ensures |Pcm(llenados)| == FinAudio(llenados) <==> SinHuecos(llenados)
  {
    if llenados != [] {
      var n := |llenados| - 1;
      var antes := llenados[..n];
      FullBlocks(antes);
      AudioEndsAtCopiedIff(antes);
      assert forall i :: 0 <= i < n ==> antes[i] == llenados[i];
      if llenados[n] != [] && SinHuecos(llenados) {
        assert forall i :: 0 <= i < n ==> |antes[i]| == BLOQUE;
      }
      if llenados[n] == [] && SinHuecos(antes) {
        forall i, j | 0 <= i < j < |llenados| && llenados[j] != [] ensures |llenados[i]| == BLOQUE {
          assert antes[j] != [];
        }
      }
    }
  }

  /** If the drain test lets a stream stop at `total`, its last PCM byte has been played. */
  predicate ParaBien(llenados: seq<seq<byte>>, total: nat) {
    total >= |Pcm(llenados)| ==> total >= FinAudio(llenados)
  }

  /** The drain test compares played bytes with copied PCM bytes. It waits for the last PCM byte,
      whatever position it is read at, if and only if no silence came before that byte. */
  lemma DrainWaitsForAudioIff(llenados: seq<seq<byte>>)
    requires Cortos(llenados)
    ensures (forall total: nat :: ParaBien(llenados, total)) <==> SinHuecos(llenados)
  {
    AudioEndsAtCopiedIff(llenados);
    if forall total: nat :: ParaBien(llenados, total) {
      assert ParaBien(llenados, |Pcm(llenados)|);
    }
  }

  /** A stream without gaps stays without gaps while it drains, as long as nothing is queued after
      a short block. */
  lemma DrainingAddsNoGap(llenados: seq<seq<byte>>, cola: seq<byte>)
    requires SinHuecos(llenados)
    requires cola == [] || forall i :: 0 <= i < |llenados| ==> |llenados[i]| == BLOQUE
    ensures var k := Min(|cola|, BLOQUE);
            var luego := llenados + [cola[..k]];
            SinHuecos(luego) && (cola[k..] == [] || forall i :: 0 <= i < |luego| ==> |luego[i]| == BLOQUE)
  {
  }

  /** A stream without gaps, to which nothing more is queued, is drained under any position readings:
      when it stops, every accepted byte has been played. */
  method DrenarSinHuecos(r: Reproductor, lecturas: seq<nat>)
    returns (parado: bool, ghost llenados: seq<seq<byte>>, ghost total: nat)
    requires r.Valid() && r.estado.Reproduciendo? && r.modoStream && SinHuecos(r.llenados)
    requires r.ocupada == 0 || forall i :: 0 <= i < |r.llenados| ==> |r.llenados[i]| == BLOQUE
    modifies r, r.dma
    ensures r.Valid()
    ensures parado ==> Pcm(llenados) == old(r.entrada) && old(r.llenados) <= llenados && FinAudio(llenados) <= total
    ensures parado ==> r.estado == Detenido
    ensures !parado ==> r.estado == Drenando && total == r.cuentas.bytesDma && llenados == r.llenados
  {
    hide Anillo, Vuelta, Reproductor.EnCurso, Pcm, FinAudio, Reproductor.Mudo, SinHuecos, Avance;
    r.Drenar();
    parado, llenados, total := false, r.llenados, r.cuentas.bytesDma;
    var i := 0;
    while i < |lecturas| && !parado
      invariant r.Valid() && i <= |lecturas| && old(r.llenados) <= llenados
      invariant !parado ==> r.estado == Drenando && r.modoStream && r.entrada == old(r.entrada)
      invariant !parado ==> llenados == r.llenados && total == r.cuentas.bytesDma && SinHuecos(llenados)
      invariant !parado ==> r.ocupada == 0 || forall j :: 0 <= j < |llenados| ==> |llenados[j]| == BLOQUE
      invariant parado ==> Pcm(llenados) == old(r.entrada) && FinAudio(llenados) <= total && r.estado == Detenido
      decreases |lecturas| - i, !parado
    {
      ghost var cola, copiado := r.Contenido(), r.cuentas.bytesEnCola;
      ghost var tras := r.TotalTras(lecturas[i]);
      ghost var cruza := tras / BLOQUE != r.cuentas.bytesDma / BLOQUE;
      ghost var antes := llenados;
      assert antes + [] == antes;
      DrainingAddsNoGap(antes, cola);
      PcmAppend(antes, cola[..Min(|cola|, BLOQUE)]);
      llenados := if cruza then antes + [cola[..Min(|cola|, BLOQUE)]] else antes;
      total := tras;
      parado := r.Actualizar(lecturas[i]);
      if parado {
        DrainIsOver(old(r.entrada), antes, cola, copiado, cruza, llenados, total);
      }
      i := i + 1;
    }
  }

  lemma DrainIsOver(entrada: seq<byte>, antes: seq<seq<byte>>, cola: seq<byte>, copiado: nat, cruza: bool,
                    llenados: seq<seq<byte>>, total: nat)
    requires entrada == Pcm(antes) + cola && Cortos(antes) && copiado == |Pcm(antes)|
    requires llenados == if cruza then antes + [cola[..Min(|cola|, BLOQUE)]] else antes
    requires SinHuecos(llenados) && (if cruza then |cola| <= BLOQUE else cola == [])
    requires total >= copiado + |cola|
    ensures Pcm(llenados) == entrada && FinAudio(llenados) <= total
  {
    hide Pcm, FinAudio, SinHuecos;
    PcmAppend(antes, cola[..Min(|cola|, BLOQUE)]);
    assert cola[..|cola|] == cola;
    assert Pcm(antes) + [] == Pcm(antes);
    AudioEndsAtCopiedIff(llenados);
  }

  /** A session that underruns: four bytes, two blocks of mostly silence, then four more bytes. */
  method Underrun() returns (r: Reproductor)
    ensures fresh(r) && fresh(r.cola) && fresh(r.dma) && r.Valid() && r.estado == Reproduciendo && r.modoStream
    ensures r.llenados == [[1, 2, 3, 4], [], [5, 6, 7, 8]] && r.entrada == [1, 2, 3, 4, 5, 6, 7, 8]
    ensures r.cuentas.bytesDma == BLOQUE
  {
    hide Anillo, Reproductor.EnCurso, Vuelta, Cortos, Pcm, EnOrden;
    r := new Reproductor();
    var n := r.Encolar([1, 2, 3, 4]);
    OrderOfFirst(r.entrada, r.Contenido(), r.cuentas.bytesEnCola, r.cuentas.silencio);
    ghost var uno: seq<byte>, nada: seq<byte> := [1, 2, 3, 4], [];
    var d: seq<byte> := [5, 6, 7, 8];
    assert uno[..4] == uno && uno[4..4] == nada && d[..4] == d && uno + d == [1, 2, 3, 4, 5, 6, 7, 8];
    assert r.Contenido() == uno;
    n := r.IniciarStream();
    n := r.Encolar(d);
    assert r.llenados == [uno, nada];
    assert r.entrada == uno + d;
    OrderOfSecond(r.entrada, uno, nada, d, r.Contenido(), r.cuentas.bytesEnCola, r.cuentas.silencio);
    var parado := r.Actualizar(BLOQUE);
    assert r.llenados == [uno, nada] + [d];
  }

  /** Draining from there: the stream stops while its last bytes still wait in a block that was
      never played. */
  method UnderrunThenDrain() returns (parado: bool, total: nat, ghost llenados: seq<seq<byte>>)
    ensures parado && |Pcm(llenados)| <= total < FinAudio(llenados)
  {
    hide Anillo, Vuelta, Cortos, Reproductor.EnCurso, Pcm;
    var r := Underrun();
    r.Drenar();
    llenados, total := r.llenados, BLOQUE + 1;
    ghost var uno, nada: seq<byte> := [1, 2, 3, 4], [];
    PcmOfThree(uno, nada, [5, 6, 7, 8]);
    assert llenados == [uno, nada] + [[5, 6, 7, 8]];
    OrderOfThird(r.entrada, uno, nada, [5, 6, 7, 8], r.Contenido(), r.cuentas.bytesEnCola, r.cuentas.silencio);
    parado := r.Actualizar(total);
  }

  lemma OrderOfSecond(entrada: seq<byte>, a: seq<byte>, b: seq<byte>, c: seq<byte>, contenido: seq<byte>,
                      copiado: nat, silencio: nat)
    requires EnOrden(entrada, [a, b], contenido, copiado, silencio) && b == [] && c != [] && entrada == a + c
    ensures contenido == c
  {
    PcmOfThree(a, b, c);
    assert (a + c)[|a|..] == c;
    assert (a + contenido)[|a|..] == contenido;
  }

  lemma OrderOfThird(entrada: seq<byte>, a: seq<byte>, b: seq<byte>, c: seq<byte>, contenido: seq<byte>,
                     copiado: nat, silencio: nat)
    requires EnOrden(entrada, [a, b, c], contenido, copiado, silencio) && b == [] && c != [] && entrada == a + c
    ensures contenido == [] && copiado == |a| + |c| && Pcm([a, b, c]) == a + c
  {
    PcmOfThree(a, b, c);
    assert [a, b, c] == [a, b] + [c];
  }

  lemma OrderOfFirst(entrada: seq<byte>, contenido: seq<byte>, copiado: nat, silencio: nat)
    requires EnOrden(entrada, [], contenido, copiado, silencio)
    ensures contenido == entrada
  {
  }

  lemma PcmOfThree(a: seq<byte>, b: seq<byte>, c: seq<byte>)
    requires b == [] && c != []
    ensures Pcm([a, b]) == a && Pcm([a, b] + [c]) == a + c
    ensures FinAudio([a, b] + [c]) == 2 * BLOQUE + |c|
  {
    PcmAppend([], a);
    PcmAppend([a], b);
    PcmAppend([a, b], c);
    assert [] + [a] == [a] && [a] + [b] == [a, b];
  }
}
