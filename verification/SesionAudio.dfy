/** What is heard: the bytes that the hardware takes out of the DMA buffer over a whole session. */
module SesionAudio {
  import opened Bytes
  import opened AudioHda

  /** What is left of the bytes heard when, of each block, only the first bytes are kept, as many as
      its fill had PCM. */
  function SinSilencio(oido: seq<byte>, llenados: seq<seq<byte>>): seq<byte> {
    if llenados == [] then []
    else
      var n := |llenados| - 1;
      SinSilencio(oido, llenados[..n])
      + oido[Min(n * BLOQUE, |oido|)..Min(n * BLOQUE + |llenados[n]|, |oido|)]
  }

  /** Every byte heard is a byte of the PCM of its block, or a zero behind it. */
  ghost predicate EsOido(oido: seq<byte>, llenados: seq<seq<byte>>) {
    forall p: nat :: p < |oido| ==> p / BLOQUE < |llenados| && oido[p] == Sonido(llenados[p / BLOQUE], p % BLOQUE)
  }

  function Sonido(pcm: seq<byte>, i: nat): byte {
    if i < |pcm| then pcm[i] else 0
  }

  /** What is heard, silence left out, is what was copied into the blocks, as far as it was heard. */
  lemma HeardIsCopied(oido: seq<byte>, llenados: seq<seq<byte>>)
    requires Cortos(llenados) && EsOido(oido, llenados)
    ensures SinSilencio(oido, llenados) <= Pcm(llenados)
    ensures |oido| >= FinAudio(llenados) ==> SinSilencio(oido, llenados) == Pcm(llenados)
  {
    HeardOfPrefix(oido, llenados, |llenados|);
    assert llenados[..|llenados|] == llenados;
  }

  lemma {:induction false} HeardOfPrefix(oido: seq<byte>, llenados: seq<seq<byte>>, n: nat)
    requires Cortos(llenados) && EsOido(oido, llenados) && n <= |llenados|
    ensures SinSilencio(oido, llenados[..n]) <= Pcm(llenados[..n])
    ensures |oido| >= FinAudio(llenados[..n]) ==> SinSilencio(oido, llenados[..n]) == Pcm(llenados[..n])
    ensures |oido| >= n * BLOQUE ==> SinSilencio(oido, llenados[..n]) == Pcm(llenados[..n])
    decreases n
  {
    if n > 0 {
      var u := n - 1;
      HeardOfPrefix(oido, llenados, u);
      assert llenados[..n][..u] == llenados[..u] && llenados[..n][u] == llenados[u];
      PieceIsHeard(oido, llenados, u);
    }
  }

  lemma PieceIsHeard(oido: seq<byte>, llenados: seq<seq<byte>>, u: nat)
    requires Cortos(llenados) && EsOido(oido, llenados) && u < |llenados|
    ensures var trozo := oido[Min(u * BLOQUE, |oido|)..Min(u * BLOQUE + |llenados[u]|, |oido|)];
            trozo <= llenados[u] && (|oido| >= u * BLOQUE + |llenados[u]| ==> trozo == llenados[u])
            && (|oido| <= u * BLOQUE ==> trozo == [])
  {
    var a, b := Min(u * BLOQUE, |oido|), Min(u * BLOQUE + |llenados[u]|, |oido|);
    forall i | 0 <= i < b - a ensures oido[a..b][i] == llenados[u][i] {
      assert oido[a + i] == Sonido(llenados[(a + i) / BLOQUE], (a + i) % BLOQUE);
    }
  }

  // ----- The hardware -----

  /** The bytes that the hardware takes while its cyclic position goes from `desde` over `d` bytes. */
  function Tomados(dma: seq<byte>, desde: nat, d: nat): (s: seq<byte>)
    requires |dma| == TOTAL
    ensures |s| == d
  {
    seq(d, i requires 0 <= i < d => dma[(desde + i) % TOTAL])
  }

  /** The two blocks hold fills `k` and `k + 1`. */
  ghost predicate DosBloques(dma: seq<byte>, llenados: seq<seq<byte>>, k: nat) {
    && |dma| == TOTAL && |llenados| == k + 2
    && Lleva(dma[(k % 2) * BLOQUE..(k % 2) * BLOQUE + BLOQUE], llenados[k])
    && Lleva(dma[((k + 1) % 2) * BLOQUE..((k + 1) % 2) * BLOQUE + BLOQUE], llenados[k + 1])
  }

  /** A step of the hardware of at most one block takes the right bytes of the blocks. */
  lemma TakenIsHeard(dma: seq<byte>, llenados: seq<seq<byte>>, oido: seq<byte>, d: nat)
    requires DosBloques(dma, llenados, |oido| / BLOQUE) && EsOido(oido, llenados) && d <= BLOQUE
    ensures EsOido(oido + Tomados(dma, |oido| % TOTAL, d), llenados)
  {
    hide Lleva, Sonido;
    var t := |oido|;
    var luego := oido + Tomados(dma, t % TOTAL, d);
    forall p: nat | p < |luego|
      ensures p / BLOQUE < |llenados| && luego[p] == Sonido(llenados[p / BLOQUE], p % BLOQUE)
    {
      if p >= t {
        TakenByte(dma, llenados, t, p - t);
        assert luego[p] == dma[(t % TOTAL + (p - t)) % TOTAL];
      } else {
        assert luego[p] == oido[p];
      }
    }
  }

  lemma TakenByte(dma: seq<byte>, llenados: seq<seq<byte>>, t: nat, i: nat)
    requires DosBloques(dma, llenados, t / BLOQUE) && i < BLOQUE
    ensures (t + i) / BLOQUE < |llenados|
    ensures dma[(t % TOTAL + i) % TOTAL] == Sonido(llenados[(t + i) / BLOQUE], (t + i) % BLOQUE)
  {
    hide Lleva, Sonido;
    PlaceInBuffer(t, i);
    var j := (t + i) / BLOQUE;
    BlockSounds(dma, llenados[j], j % 2, (t + i) % BLOQUE);
  }

  lemma PlaceInBuffer(t: nat, i: nat)
    requires i < BLOQUE
    ensures (t % TOTAL + i) % TOTAL == (t + i) / BLOQUE % 2 * BLOQUE + (t + i) % BLOQUE
    ensures (t + i) / BLOQUE == t / BLOQUE || (t + i) / BLOQUE == t / BLOQUE + 1
  {
    var h, b, r := t / TOTAL, t % TOTAL / BLOQUE, t % BLOQUE;
    assert t == h * TOTAL + b * BLOQUE + r;
    var e := b * BLOQUE + r + i;
    assert t % TOTAL + i == e && t + i == h * TOTAL + e;
    assert (t + i) / BLOQUE == 2 * h + e / BLOQUE;
  }

  lemma BlockSounds(dma: seq<byte>, pcm: seq<byte>, b: nat, i: nat)
    requires |dma| == TOTAL && b < 2 && i < BLOQUE && Lleva(dma[b * BLOQUE..b * BLOQUE + BLOQUE], pcm)
    ensures dma[b * BLOQUE + i] == Sonido(pcm, i)
  {
    assert dma[b * BLOQUE..b * BLOQUE + BLOQUE][i] == dma[b * BLOQUE + i];
  }

  /** More fills change nothing about what was heard. */
  lemma HeardStays(oido: seq<byte>, llenados: seq<seq<byte>>, luego: seq<seq<byte>>)
    requires EsOido(oido, llenados) && llenados <= luego
    ensures EsOido(oido, luego)
  {
  }

  // ----- The session -----

  datatype Orden = Encola(datos: seq<byte>) | Lee(pos: nat) | Drena

  /** A started stream: what it was heard to play, and what it accepted. */
  ghost predicate EnMarcha(r: Reproductor, oido: seq<byte>)
    reads r, r.cola, r.dma
  {
    && r.Valid() && r.EnSesion() && r.modoStream
    && |oido| == r.cuentas.bytesDma && EsOido(oido, r.llenados)
  }

  lemma RunningHasItsBlocks(r: Reproductor, oido: seq<byte>)
    requires EnMarcha(r, oido)
    ensures DosBloques(r.dma[..], r.llenados, |oido| / BLOQUE) && r.posAnterior == |oido| % TOTAL
    ensures Cortos(r.llenados) && Pcm(r.llenados) <= r.entrada
  {
    hide EsOido, Lleva, Pcm, Anillo, Vuelta;
    var k := |oido| / BLOQUE;
    assert r.EnCurso(k);
    assert r.dma[..][(k % 2) * BLOQUE..(k % 2) * BLOQUE + BLOQUE] == r.dma[(k % 2) * BLOQUE..(k % 2) * BLOQUE + BLOQUE];
    var b := (k + 1) % 2;
    assert r.dma[..][b * BLOQUE..b * BLOQUE + BLOQUE] == r.dma[b * BLOQUE..b * BLOQUE + BLOQUE];
  }

  /** The bytes that the hardware takes before a reading is accounted for. A reading that is not
      believed counts as no movement. */
  ghost function Suena(r: Reproductor, pos: nat): seq<byte>
    requires r.dma.Length == TOTAL && r.posAnterior < TOTAL
    reads r, r.dma
  {
    Tomados(r.dma[..], r.posAnterior, if Creible(r.posAnterior, pos) then Avance(r.posAnterior, pos) else 0)
  }

  /** One reading of the position. `llenados` are the fills of the session, the one made by this
      reading included. */
  method Leer(r: Reproductor, pos: nat, ghost oido: seq<byte>)
    returns (parado: bool, ghost luego: seq<byte>, ghost llenados: seq<seq<byte>>)
    requires EnMarcha(r, oido)
    modifies r, r.dma
    ensures r.Valid() && oido <= luego && Cortos(llenados) && EsOido(luego, llenados) && Pcm(llenados) <= old(r.entrada)
    ensures !parado ==> EnMarcha(r, luego) && llenados == r.llenados && r.entrada == old(r.entrada)
    ensures parado ==> r.estado == Detenido && Pcm(llenados) == old(r.entrada) && |luego| >= |Pcm(llenados)|
  {
    hide EsOido, Lleva, Pcm, Anillo, Vuelta, Reproductor.EnCurso, Reproductor.Mudo, DosBloques, Tomados, Cortos;
    hide Avance;
    RunningHasItsBlocks(r, oido);
    ghost var antes, cola, tras := r.llenados, r.Contenido(), r.TotalTras(pos);
    ghost var cruza := tras / BLOQUE != r.cuentas.bytesDma / BLOQUE;
    llenados := if cruza then antes + [cola[..Min(|cola|, BLOQUE)]] else antes;
    luego := oido + Suena(r, pos);
    TakenIsHeard(r.dma[..], antes, oido, |luego| - |oido|);
    HeardStays(luego, antes, llenados);
    FillTakesQueue(r.entrada, antes, cola, cruza, llenados);
    assert antes + [] == antes;
    parado := r.Actualizar(pos);
  }

  lemma FillTakesQueue(entrada: seq<byte>, antes: seq<seq<byte>>, cola: seq<byte>, cruza: bool,
                       llenados: seq<seq<byte>>)
    requires entrada == Pcm(antes) + cola && Cortos(antes)
    requires llenados == if cruza then antes + [cola[..Min(|cola|, BLOQUE)]] else antes
    ensures Cortos(llenados) && Pcm(llenados) <= entrada
    ensures (if cruza then |cola| <= BLOQUE else cola == []) ==>
              Pcm(llenados) == entrada && |Pcm(llenados)| == |Pcm(antes)| + |cola|
  {
    hide Pcm;
    PcmAppend(antes, cola[..Min(|cola|, BLOQUE)]);
  }

  /** A whole session from a prepared queue, whatever is queued and whenever the position is read:
      what is heard, silence left out, is what was accepted, in order and without a gap in it, as far
      as the hardware got; and when a drain stops a stream into which no silence came before its last
      byte, it is everything. */
  method Escuchar(r: Reproductor, ordenes: seq<Orden>)
    returns (parado: bool, ghost oido: seq<byte>, ghost aceptado: seq<byte>, ghost llenados: seq<seq<byte>>)
    requires r.Valid() && r.estado.Preparando? && !r.reproduciendo
    modifies r, r.cola, r.dma
    ensures r.Valid() && old(r.entrada) <= aceptado
    ensures SinSilencio(oido, llenados) <= aceptado
    ensures forall p: nat :: p < |oido| ==>
              p / BLOQUE < |llenados| && (p % BLOQUE >= |llenados[p / BLOQUE]| ==> oido[p] == 0)
    ensures parado && SinHuecos(llenados) ==> SinSilencio(oido, llenados) == aceptado
    ensures parado ==> r.estado == Detenido
    ensures !parado ==> EnMarcha(r, oido) && aceptado == r.entrada && llenados == r.llenados
  {
    hide EsOido, Anillo, Pcm, Vuelta, Reproductor.Fifo, Reproductor.Mudo, Lleva, SinSilencio, SinHuecos, Cortos;
    var inicio := r.IniciarStream();
    parado, oido, aceptado, llenados := false, [], r.entrada, r.llenados;
    NothingHeardYet(r.llenados);
    RunningHasItsBlocks(r, oido);
    var i := 0;
    while i < |ordenes| && !parado
      invariant r.Valid() && i <= |ordenes| && old(r.entrada) <= aceptado
      invariant Cortos(llenados) && EsOido(oido, llenados) && Pcm(llenados) <= aceptado
      invariant !parado ==> EnMarcha(r, oido) && aceptado == r.entrada && llenados == r.llenados
      invariant parado ==> r.estado == Detenido && Pcm(llenados) == aceptado && |oido| >= |Pcm(llenados)|
      decreases |ordenes| - i
    {
      match ordenes[i] {
        case Encola(datos) =>
          var n := r.Encolar(datos);
          aceptado := r.entrada;
        case Lee(pos) =>
          parado, oido, llenados := Leer(r, pos, oido);
        case Drena =>
          r.Drenar();
      }
      i := i + 1;
    }
    HeardIsCopied(oido, llenados);
    AudioEndsAtCopiedIff(llenados);
    SilenceIsZero(oido, llenados);
  }

  lemma NothingHeardYet(llenados: seq<seq<byte>>)
    ensures EsOido([], llenados)
  {
  }

  lemma SilenceIsZero(oido: seq<byte>, llenados: seq<seq<byte>>)
    requires EsOido(oido, llenados)
    ensures forall p: nat :: p < |oido| ==>
              p / BLOQUE < |llenados| && (p % BLOQUE >= |llenados[p / BLOQUE]| ==> oido[p] == 0)
  {
  }
}
