/** The installer's block device: a one-block write-back cache over a file, and the undo log that
    is replayed backwards when an installation fails. I/O errors are part of the model. */
module Deshacer {
  import opened Bytes

  const UNINSTALL_DATA_MAX: nat := 256

  /** The outcome of the next stdio transfer. A failed write may still have stored `prefijo`
      bytes of the block; a failed read may have left `basura` in the cache. */
  datatype Averia = Bien | Falla(prefijo: nat, basura: seq<byte>)

  datatype Disp = Disp(
    disco: seq<byte>,
    cache: seq<byte>,
    sucia: bool,
    bloque: int,              // index of the cached block, -1 when there is none
    averias: seq<Averia>)     // outcomes of the transfers to come; `Bien` once exhausted
  {
    function Proxima(): Averia { if averias == [] then Bien else averias[0] }

    function Consumir(): Disp { if averias == [] then this else this.(averias := averias[1..]) }
  }

  datatype Entrada = Entrada(loc: nat, datos: seq<byte>)

  function Base(b: nat, bs: nat): nat { Por(b, bs) }

  function Sobre(s: seq<byte>, pos: nat, datos: seq<byte>): (r: seq<byte>)
    requires pos + |datos| <= |s|
    ensures |r| == |s|
    ensures forall p :: 0 <= p < |s| ==> r[p] == if pos <= p < pos + |datos| then datos[p - pos] else s[p]
  {
    s[..pos] + datos + s[pos + |datos|..]
  }

  /** A label always names a whole block of the device, also after a failed transfer. */
  predicate Estable(d: Disp, bs: nat) {
    && bs > 0 && |d.cache| == bs && d.bloque >= -1
    && (d.sucia ==> d.bloque >= 0)
    && (d.bloque >= 0 ==> Base(d.bloque, bs) + bs <= |d.disco|)
  }

  /** Without failed reads, a clean cache also agrees with the disk. */
  predicate Valido(d: Disp, bs: nat) {
    && Estable(d, bs)
    && (d.bloque >= 0 && !d.sucia ==> d.cache == d.disco[Base(d.bloque, bs)..Base(d.bloque, bs) + bs])
  }

  /** The flat byte array that the cache and the disk represent together. */
  function Vista(d: Disp, bs: nat): (v: seq<byte>)
    requires Estable(d, bs)
    ensures |v| == |d.disco|
  {
    if d.sucia then Sobre(d.disco, Base(d.bloque, bs), d.cache) else d.disco
  }

  datatype Res = Res(ok: bool, d: Disp)

  function Vaciar(d: Disp, bs: nat): (r: Res)
    requires Estable(d, bs)
    ensures Estable(r.d, bs) && |r.d.disco| == |d.disco| && r.d.cache == d.cache && r.d.bloque == d.bloque
    ensures r.ok ==> !r.d.sucia && r.d.disco == Vista(d, bs)
    ensures !r.ok ==> r.d.sucia && d.sucia
  {
    if !d.sucia then Res(true, d)
    else
      match d.Proxima()
      case Bien => Res(true, d.Consumir().(disco := Vista(d, bs), sucia := false))
      case Falla(k, _) => Res(false, d.Consumir().(disco := Sobre(d.disco, Base(d.bloque, bs), d.cache[..Min(k, bs)])))
  }

  function CargarBloque(d: Disp, bs: nat, b: nat): (r: Res)
    requires Estable(d, bs)
    ensures Estable(r.d, bs) && |r.d.disco| == |d.disco|
  {
    if d.bloque == b then Res(true, d)
    else
      var f := Vaciar(d, bs);
      if !f.ok then f
      else Leido(f.d, bs, b)
  }

  /** The `fread` of one block into the clean cache. */
  function Leido(d: Disp, bs: nat, b: nat): (r: Res)
    requires Estable(d, bs) && !d.sucia
    ensures Estable(r.d, bs) && !r.d.sucia && r.d.disco == d.disco
  {
    var basura := if d.Proxima().Falla? then d.Proxima().basura else [];
    var k := Min(|basura|, bs);
    if Base(b, bs) + bs > |d.disco| || d.Proxima().Falla? then
      Res(false, d.Consumir().(cache := basura[..k] + d.cache[k..]))
    else
      Res(true, d.Consumir().(cache := d.disco[Base(b, bs)..Base(b, bs) + bs], bloque := b))
  }

  function Trozo(loc: nat, bs: nat, cant: nat): (k: nat)
    requires bs > 0 && cant > 0
    ensures 0 < k <= cant && Resto(loc, bs) + k <= bs
  {
    Min(cant, bs - Resto(loc, bs))
  }

  datatype Lectura = Lectura(ok: bool, d: Disp, datos: seq<byte>)

  function Leer(d: Disp, bs: nat, loc: nat, cant: nat): (r: Lectura)
    requires Estable(d, bs)
    ensures Estable(r.d, bs) && |r.d.disco| == |d.disco|
    decreases cant
  {
    if cant == 0 then Lectura(true, d, [])
    else
      var c := CargarBloque(d, bs, Cociente(loc, bs));
      if !c.ok then Lectura(false, c.d, [])
      else
        var k := Trozo(loc, bs, cant);
        var resto := Leer(c.d, bs, loc + k, cant - k);
        Lectura(resto.ok, resto.d, c.d.cache[Resto(loc, bs)..Resto(loc, bs) + k] + resto.datos)
  }

  /** The copying loop of a write, without the undo bookkeeping. */
  function Copiar(d: Disp, bs: nat, loc: nat, datos: seq<byte>): (r: Res)
    requires Estable(d, bs)
    ensures Estable(r.d, bs) && |r.d.disco| == |d.disco|
    decreases |datos|
  {
    if datos == [] then Res(true, d)
    else
      var c := CargarBloque(d, bs, Cociente(loc, bs));
      if !c.ok then c
      else
        var k := Trozo(loc, bs, |datos|);
        Copiar(Tocar(c.d, Resto(loc, bs), datos[..k]), bs, loc + k, datos[k..])
  }

  /** The `memcpy` into the cache. */
  function Tocar(d: Disp, dentro: nat, datos: seq<byte>): Disp
    requires dentro + |datos| <= |d.cache|
  {
    d.(cache := Sobre(d.cache, dentro, datos), sucia := true)
  }

  // ----- Through the cache, reads and writes are those of a flat byte array -----

  lemma LoadedBlockKeepsView(d: Disp, bs: nat, b: nat)
    requires Valido(d, bs) && CargarBloque(d, bs, b).ok
    ensures Valido(CargarBloque(d, bs, b).d, bs) && CargarBloque(d, bs, b).d.bloque == b
    ensures Vista(CargarBloque(d, bs, b).d, bs) == Vista(d, bs)
    ensures Base(b, bs) + bs <= |d.disco|
    ensures CargarBloque(d, bs, b).d.cache == Vista(d, bs)[Base(b, bs)..Base(b, bs) + bs]
  {
  }

  lemma BaseOf(loc: nat, bs: nat)
    requires bs > 0
    ensures Base(Cociente(loc, bs), bs) + Resto(loc, bs) == loc
  {
    CocienteAndResto(loc, bs);
  }

  lemma SliceOfSlice(v: seq<byte>, base: nat, bs: nat, dentro: nat, k: nat)
    requires base + bs <= |v| && dentro + k <= bs
    ensures v[base..base + bs][dentro..dentro + k] == v[base + dentro..base + dentro + k]
  {
    var a, b := v[base..base + bs][dentro..dentro + k], v[base + dentro..base + dentro + k];
    assert |a| == |b| && forall i :: 0 <= i < k ==> a[i] == b[i];
  }

  lemma ReadStep(d: Disp, bs: nat, loc: nat, cant: nat)
    requires Estable(d, bs)
    ensures cant == 0 ==> Leer(d, bs, loc, cant) == Lectura(true, d, [])
    ensures cant > 0 && !CargarBloque(d, bs, Cociente(loc, bs)).ok ==>
              Leer(d, bs, loc, cant) == Lectura(false, CargarBloque(d, bs, Cociente(loc, bs)).d, [])
    ensures cant > 0 && CargarBloque(d, bs, Cociente(loc, bs)).ok ==>
              var c := CargarBloque(d, bs, Cociente(loc, bs));
              var k := Trozo(loc, bs, cant);
              var resto := Leer(c.d, bs, loc + k, cant - k);
              Leer(d, bs, loc, cant) ==
                Lectura(resto.ok, resto.d, c.d.cache[Resto(loc, bs)..Resto(loc, bs) + k] + resto.datos)
  {
    hide CargarBloque;
  }

  /** A read that succeeds returns the flat bytes and changes nothing a later read can see. */
  lemma {:induction false} ReadSeesView(d: Disp, bs: nat, loc: nat, cant: nat)
    requires Valido(d, bs) && Leer(d, bs, loc, cant).ok
    ensures Valido(Leer(d, bs, loc, cant).d, bs)
    ensures Vista(Leer(d, bs, loc, cant).d, bs) == Vista(d, bs)
    ensures cant > 0 ==> loc + cant <= |d.disco|
    ensures cant > 0 ==> Leer(d, bs, loc, cant).datos == Vista(d, bs)[loc..loc + cant]
    ensures |Leer(d, bs, loc, cant).datos| == cant
    decreases cant
  {
    hide Leer, CargarBloque, Vista, Base, Por, Cociente, Resto, Trozo;
    ReadStep(d, bs, loc, cant);
    if cant > 0 {
      var c := CargarBloque(d, bs, Cociente(loc, bs));
      var k := Trozo(loc, bs, cant);
      LoadedBlockKeepsView(d, bs, Cociente(loc, bs));
      BaseOf(loc, bs);
      ReadSeesView(c.d, bs, loc + k, cant - k);
      SliceOfSlice(Vista(d, bs), Base(Cociente(loc, bs), bs), bs, Resto(loc, bs), k);
      SlicesJoin(Vista(d, bs), loc, loc + k, loc + cant);
    }
  }

  lemma SlicesJoin(v: seq<byte>, a: nat, b: nat, c: nat)
    requires a <= b <= c
    ensures c <= |v| ==> v[a..b] + v[b..c] == v[a..c]
  {
  }

  lemma TouchedView(d: Disp, bs: nat, loc: nat, datos: seq<byte>)
    requires Valido(d, bs) && d.bloque == Cociente(loc, bs) && Resto(loc, bs) + |datos| <= bs && 0 < |datos|
    ensures var t := Tocar(d, Resto(loc, bs), datos);
            && loc + |datos| <= |d.disco| && Valido(t, bs) && t.disco == d.disco
            && Vista(t, bs) == Sobre(Vista(d, bs), loc, datos)
  {
    hide Por, Cociente, Resto, Base, Sobre;
    BaseOf(loc, bs);
    var base := Base(d.bloque, bs);
    PatchInBlock(d.disco, base, d.cache, Resto(loc, bs), datos);
    if !d.sucia {
      SameBlockAgain(d.disco, base, bs);
    }
  }

  lemma PatchInBlock(s: seq<byte>, base: nat, cache: seq<byte>, dentro: nat, datos: seq<byte>)
    requires base + |cache| <= |s| && dentro + |datos| <= |cache|
    ensures Sobre(s, base, Sobre(cache, dentro, datos)) == Sobre(Sobre(s, base, cache), base + dentro, datos)
  {
  }

  lemma SameBlockAgain(s: seq<byte>, base: nat, bs: nat)
    requires base + bs <= |s|
    ensures Sobre(s, base, s[base..base + bs]) == s
  {
  }

  lemma SobreJoins(s: seq<byte>, pos: nat, a: seq<byte>, b: seq<byte>)
    requires pos + |a| + |b| <= |s|
    ensures Sobre(Sobre(s, pos, a), pos + |a|, b) == Sobre(s, pos, a + b)
  {
  }

  lemma {:induction false} WriteChangesView(d: Disp, bs: nat, loc: nat, datos: seq<byte>)
    requires Valido(d, bs) && Copiar(d, bs, loc, datos).ok
    ensures Valido(Copiar(d, bs, loc, datos).d, bs)
    ensures datos == [] ==> Copiar(d, bs, loc, datos).d == d
    ensures datos != [] ==> loc + |datos| <= |d.disco|
    ensures datos != [] ==> Vista(Copiar(d, bs, loc, datos).d, bs) == Sobre(Vista(d, bs), loc, datos)
    decreases |datos|
  {
    hide Copiar, CargarBloque, Vista, Base, Tocar, Por, Cociente, Resto, Trozo, Sobre;
    WriteStep(d, bs, loc, datos);
    if datos != [] {
      var c := CargarBloque(d, bs, Cociente(loc, bs));
      var k := Trozo(loc, bs, |datos|);
      LoadedBlockKeepsView(d, bs, Cociente(loc, bs));
      TouchedView(c.d, bs, loc, datos[..k]);
      var t := Tocar(c.d, Resto(loc, bs), datos[..k]);
      WriteChangesView(t, bs, loc + k, datos[k..]);
      if k < |datos| {
        SobreJoins(Vista(d, bs), loc, datos[..k], datos[k..]);
      } else {
        assert datos[..k] == datos;
      }
      assert datos[..k] + datos[k..] == datos;
    }
  }

  // ----- What a failed operation can have done -----

  /** Bytes of the blocks before the last one that a transfer touches. */
  function Cabeza(bs: nat, loc: nat, cant: nat): (n: nat)
    requires bs > 0
    ensures n <= cant
    decreases cant
  {
    if cant == 0 || Trozo(loc, bs, cant) == cant then 0
    else
      var k := Trozo(loc, bs, cant);
      k + Cabeza(bs, loc + k, cant - k)
  }

  lemma SingleBlockHasNoHead(bs: nat, loc: nat, cant: nat)
    requires bs > 0
    ensures Cabeza(bs, loc, cant) == 0 <==> cant == 0 || Resto(loc, bs) + cant <= bs
  {
  }

  /** Each byte of `nuevo` is the disk byte or the view byte of `d`, or new data of a write. */
  predicate Mezcla(nuevo: seq<byte>, d: Disp, bs: nat, loc: nat, datos: seq<byte>)
    requires Estable(d, bs)
  {
    && |nuevo| == |d.disco|
    && forall p :: 0 <= p < |nuevo| ==>
         || nuevo[p] == d.disco[p] || nuevo[p] == Vista(d, bs)[p]
         || (loc <= p < loc + |datos| && nuevo[p] == datos[p - loc])
  }

  lemma LoadingMixes(d: Disp, bs: nat, b: nat, loc: nat, datos: seq<byte>)
    requires Valido(d, bs)
    ensures Mezcla(CargarBloque(d, bs, b).d.disco, d, bs, loc, datos)
    ensures Vista(CargarBloque(d, bs, b).d, bs) == Vista(d, bs)
  {
  }

  lemma {:induction false} ReadMixes(d: Disp, bs: nat, loc: nat, cant: nat)
    requires Valido(d, bs)
    ensures Mezcla(Leer(d, bs, loc, cant).d.disco, d, bs, 0, [])
    decreases cant
  {
    hide CargarBloque, Vista, Base, Por, Cociente, Resto, Trozo;
    if cant > 0 {
      var c := CargarBloque(d, bs, Cociente(loc, bs));
      LoadingMixes(d, bs, Cociente(loc, bs), 0, []);
      if c.ok {
        var k := Trozo(loc, bs, cant);
        LoadedBlockKeepsView(d, bs, Cociente(loc, bs));
        ReadMixes(c.d, bs, loc + k, cant - k);
      }
    }
  }

  lemma WriteStep(d: Disp, bs: nat, loc: nat, datos: seq<byte>)
    requires Estable(d, bs)
    ensures datos == [] ==> Copiar(d, bs, loc, datos) == Res(true, d)
    ensures datos != [] ==>
              var c := CargarBloque(d, bs, Cociente(loc, bs));
              var k := Trozo(loc, bs, |datos|);
              Copiar(d, bs, loc, datos) ==
                if !c.ok then c
                else Copiar(Tocar(c.d, Resto(loc, bs), datos[..k]), bs, loc + k, datos[k..])
  {
    hide CargarBloque, Tocar;
  }

  lemma HeadStep(bs: nat, loc: nat, cant: nat)
    requires bs > 0 && cant > 0
    ensures var k := Trozo(loc, bs, cant);
            Cabeza(bs, loc, cant) == if k == cant then 0 else k + Cabeza(bs, loc + k, cant - k)
  {
  }

  /** A failed write may have put new data on the disk, but never in the last block it touches. */
  lemma {:induction false} FailedWriteMixes(d: Disp, bs: nat, loc: nat, datos: seq<byte>)
    requires Valido(d, bs) && !Copiar(d, bs, loc, datos).ok
    ensures Mezcla(Copiar(d, bs, loc, datos).d.disco, d, bs, loc, datos[..Cabeza(bs, loc, |datos|)])
    decreases |datos|
  {
    hide Copiar, CargarBloque, Vista, Base, Tocar, Por, Cociente, Resto, Trozo, Cabeza;
    WriteStep(d, bs, loc, datos);
    if datos != [] {
      var c := CargarBloque(d, bs, Cociente(loc, bs));
      LoadingMixes(d, bs, Cociente(loc, bs), loc, datos[..Cabeza(bs, loc, |datos|)]);
      if c.ok {
        var k := Trozo(loc, bs, |datos|);
        HeadStep(bs, loc, |datos|);
        LoadedBlockKeepsView(d, bs, Cociente(loc, bs));
        TouchedView(c.d, bs, loc, datos[..k]);
        var t := Tocar(c.d, Resto(loc, bs), datos[..k]);
        WriteStep(t, bs, loc + k, datos[k..]);
        FailedWriteMixes(t, bs, loc + k, datos[k..]);
      }
    }
  }

  /** Outside the range of a failed write the view is what it was. */
  lemma {:induction false} FailedWriteStaysInRange(d: Disp, bs: nat, loc: nat, datos: seq<byte>)
    requires Valido(d, bs) && !Copiar(d, bs, loc, datos).ok
    ensures forall p :: 0 <= p < |d.disco| && !(loc <= p < loc + |datos|) ==>
              Vista(Copiar(d, bs, loc, datos).d, bs)[p] == Vista(d, bs)[p]
    decreases |datos|
  {
    hide Copiar, CargarBloque, Vista, Base, Tocar, Por, Cociente, Resto, Trozo;
    WriteStep(d, bs, loc, datos);
    if datos != [] {
      var c := CargarBloque(d, bs, Cociente(loc, bs));
      LoadingMixes(d, bs, Cociente(loc, bs), 0, []);
      if c.ok {
        var k := Trozo(loc, bs, |datos|);
        LoadedBlockKeepsView(d, bs, Cociente(loc, bs));
        TouchedView(c.d, bs, loc, datos[..k]);
        FailedWriteStaysInRange(Tocar(c.d, Resto(loc, bs), datos[..k]), bs, loc + k, datos[k..]);
      }
    }
  }

  // ----- The undo log -----

  predicate CubreUna(e: Entrada, p: nat) {
    e.loc <= p < e.loc + |e.datos|
  }

  predicate Cubre(log: seq<Entrada>, p: nat) {
    log != [] && (CubreUna(log[0], p) || Cubre(log[1..], p))
  }

  /** The byte that the earliest entry covering `p` saved. */
  function Primera(log: seq<Entrada>, p: nat): byte
    requires Cubre(log, p)
  {
    if CubreUna(log[0], p) then log[0].datos[p - log[0].loc] else Primera(log[1..], p)
  }

  /** Every saved range lies on a disk of `n` bytes. */
  predicate EnDisco(log: seq<Entrada>, n: nat) {
    forall i :: 0 <= i < |log| && log[i].datos != [] ==> log[i].loc + |log[i].datos| <= n
  }

  /** The saved pre-images restore the original byte wherever something was written, and the disk
      itself, whatever the cache holds, still has it everywhere else. */
  predicate Recuperable(orig: seq<byte>, disco: seq<byte>, log: seq<Entrada>) {
    && |disco| == |orig| && EnDisco(log, |orig|)
    && forall p :: 0 <= p < |orig| ==> if Cubre(log, p) then Primera(log, p) == orig[p] else disco[p] == orig[p]
  }

  /** While everything works, the same holds of the flat view. */
  predicate EnMarcha(orig: seq<byte>, d: Disp, bs: nat, log: seq<Entrada>) {
    Valido(d, bs) && Recuperable(orig, d.disco, log) && Recuperable(orig, Vista(d, bs), log)
  }

  lemma {:induction false} CoverOfAppend(log: seq<Entrada>, e: Entrada, p: nat)
    ensures Cubre(log + [e], p) <==> Cubre(log, p) || CubreUna(e, p)
    ensures Cubre(log, p) ==> Primera(log + [e], p) == Primera(log, p)
    ensures !Cubre(log, p) && CubreUna(e, p) ==> Primera(log + [e], p) == e.datos[p - e.loc]
  {
    if log == [] {
      assert (log + [e])[1..] == [];
    } else {
      assert (log + [e])[1..] == log[1..] + [e];
      CoverOfAppend(log[1..], e, p);
    }
  }

  datatype Escritura = Escritura(ok: bool, d: Disp, log: seq<Entrada>)

  /** A logged write: save the old contents, copy, and only then count the entry. */
  function Escribir(d: Disp, bs: nat, log: seq<Entrada>, loc: nat, datos: seq<byte>): (r: Escritura)
    requires Estable(d, bs)
    ensures Estable(r.d, bs) && |r.d.disco| == |d.disco|
  {
    if |log| >= UNINSTALL_DATA_MAX then Escritura(false, d, log)
    else
      var previa := Leer(d, bs, loc, |datos|);
      if !previa.ok then Escritura(false, previa.d, log)
      else
        var c := Copiar(previa.d, bs, loc, datos);
        Escritura(c.ok, c.d, if c.ok then log + [Entrada(loc, previa.datos)] else log)
  }

  lemma {:induction false} CopyMixes(d: Disp, bs: nat, loc: nat, datos: seq<byte>)
    requires Valido(d, bs) && Copiar(d, bs, loc, datos).ok
    ensures Mezcla(Copiar(d, bs, loc, datos).d.disco, d, bs, loc, datos)
    decreases |datos|
  {
    hide Copiar, CargarBloque, Vista, Base, Tocar, Por, Cociente, Resto, Trozo;
    WriteStep(d, bs, loc, datos);
    if datos != [] {
      var c := CargarBloque(d, bs, Cociente(loc, bs));
      LoadingMixes(d, bs, Cociente(loc, bs), loc, datos);
      var k := Trozo(loc, bs, |datos|);
      LoadedBlockKeepsView(d, bs, Cociente(loc, bs));
      TouchedView(c.d, bs, loc, datos[..k]);
      var t := Tocar(c.d, Resto(loc, bs), datos[..k]);
      CopyMixes(t, bs, loc + k, datos[k..]);
    }
  }

  /** Logging what the view held makes any change inside the logged range recoverable. */
  lemma AppendedEntryRecovers(orig: seq<byte>, vista: seq<byte>, disco: seq<byte>, nuevo: seq<byte>,
                              log: seq<Entrada>, e: Entrada)
    requires Recuperable(orig, vista, log) && Recuperable(orig, disco, log)
    requires e.datos != [] ==> e.loc + |e.datos| <= |orig| && e.datos == vista[e.loc..e.loc + |e.datos|]
    requires |nuevo| == |orig|
    requires forall p :: 0 <= p < |orig| && !CubreUna(e, p) ==> nuevo[p] == disco[p] || nuevo[p] == vista[p]
    ensures Recuperable(orig, nuevo, log + [e])
  {
    var log' := log + [e];
    hide Cubre, Primera;
    forall p | 0 <= p < |orig|
      ensures if Cubre(log', p) then Primera(log', p) == orig[p] else nuevo[p] == orig[p]
    {
      CoverOfAppend(log, e, p);
      if CubreUna(e, p) {
        assert e.datos[p - e.loc] == vista[p];
      }
    }
  }

  lemma SizesOfRecoverable(orig: seq<byte>, disco: seq<byte>, log: seq<Entrada>)
    requires Recuperable(orig, disco, log)
    ensures |disco| == |orig|
  {
  }

  /** A write that succeeds keeps everything recoverable. */
  lemma WriteStaysRecoverable(orig: seq<byte>, d: Disp, bs: nat, log: seq<Entrada>, loc: nat, datos: seq<byte>)
    requires EnMarcha(orig, d, bs, log)
    requires Escribir(d, bs, log, loc, datos).ok
    ensures var r := Escribir(d, bs, log, loc, datos); EnMarcha(orig, r.d, bs, r.log)
  {
    hide Leer, Copiar, Vista, Recuperable;
    var n := |datos|;
    var previa := Leer(d, bs, loc, n);
    ReadSeesView(d, bs, loc, n);
    ReadMixes(d, bs, loc, n);
    WriteChangesView(previa.d, bs, loc, datos);
    CopyMixes(previa.d, bs, loc, datos);
    var r, e := Copiar(previa.d, bs, loc, datos), Entrada(loc, previa.datos);
    SizesOfRecoverable(orig, d.disco, log);
    AppendedEntryRecovers(orig, Vista(d, bs), d.disco, r.d.disco, log, e);
    AppendedEntryRecovers(orig, Vista(d, bs), d.disco, Vista(r.d, bs), log, e);
  }

  lemma MixStaysRecoverable(orig: seq<byte>, d: Disp, bs: nat, log: seq<Entrada>, nuevo: seq<byte>)
    requires EnMarcha(orig, d, bs, log) && Mezcla(nuevo, d, bs, 0, [])
    ensures Recuperable(orig, nuevo, log)
  {
    hide Cubre, Primera, Vista;
  }

  lemma ReadStaysRecoverable(orig: seq<byte>, d: Disp, bs: nat, log: seq<Entrada>, loc: nat, cant: nat)
    requires EnMarcha(orig, d, bs, log)
    ensures var r := Leer(d, bs, loc, cant);
            Recuperable(orig, r.d.disco, log) && (r.ok ==> EnMarcha(orig, r.d, bs, log))
  {
    hide Leer, Vista, Recuperable;
    ReadMixes(d, bs, loc, cant);
    MixStaysRecoverable(orig, d, bs, log, Leer(d, bs, loc, cant).d.disco);
    if Leer(d, bs, loc, cant).ok {
      ReadSeesView(d, bs, loc, cant);
    }
  }

  lemma FlushStaysRecoverable(orig: seq<byte>, d: Disp, bs: nat, log: seq<Entrada>)
    requires EnMarcha(orig, d, bs, log)
    ensures var r := Vaciar(d, bs);
            Recuperable(orig, r.d.disco, log) && (r.ok ==> EnMarcha(orig, r.d, bs, log))
  {
    hide Cubre, Primera, Base;
  }

  /** The part of a write that a failure could leave on the disk without a log entry, that is the
      blocks before the last, already holds what is being written. Trivial for a single block. */
  predicate SinFuga(d: Disp, bs: nat, loc: nat, datos: seq<byte>)
    requires Estable(d, bs)
  {
    var n := Cabeza(bs, loc, |datos|);
    loc + n <= |d.disco| ==> datos[..n] == Vista(d, bs)[loc..loc + n]
  }

  lemma FailedWriteStaysRecoverable(orig: seq<byte>, d: Disp, bs: nat, log: seq<Entrada>, loc: nat, datos: seq<byte>)
    requires EnMarcha(orig, d, bs, log) && SinFuga(d, bs, loc, datos)
    requires !Escribir(d, bs, log, loc, datos).ok
    ensures var r := Escribir(d, bs, log, loc, datos); r.log == log && Recuperable(orig, r.d.disco, log)
  {
    hide Leer, Copiar, Recuperable, Vista, Cabeza;
    var previa := Leer(d, bs, loc, |datos|);
    ReadStaysRecoverable(orig, d, bs, log, loc, |datos|);
    if |log| < UNINSTALL_DATA_MAX && previa.ok {
      ReadSeesView(d, bs, loc, |datos|);
      FailedWriteMixes(previa.d, bs, loc, datos);
      var n := Cabeza(bs, loc, |datos|);
      var v := Vista(d, bs);
      assert forall p :: loc <= p < loc + n && p < |v| ==> datos[..n][p - loc] == v[p];
      MixStaysRecoverable(orig, previa.d, bs, log, Copiar(previa.d, bs, loc, datos).d.disco);
    } else {
      LogOfRecoverable(orig, d, bs, log);
    }
  }

  lemma LogOfRecoverable(orig: seq<byte>, d: Disp, bs: nat, log: seq<Entrada>)
    requires EnMarcha(orig, d, bs, log)
    ensures Recuperable(orig, d.disco, log)
  {
  }

  // ----- Whole sessions -----

  datatype Orden = LeerDe(loc: nat, cant: nat) | EscribirEn(loc: nat, datos: seq<byte>) | VaciarCache

  /** The driver: one order after another, until the first that fails. */
  function Correr(d: Disp, bs: nat, log: seq<Entrada>, ordenes: seq<Orden>): (r: Escritura)
    requires Estable(d, bs)
    ensures Estable(r.d, bs) && |r.d.disco| == |d.disco|
    decreases |ordenes|
  {
    if ordenes == [] then Escritura(true, d, log)
    else
      var r := UnaOrden(d, bs, log, ordenes[0]);
      if r.ok then Correr(r.d, bs, r.log, ordenes[1..]) else r
  }

  function UnaOrden(d: Disp, bs: nat, log: seq<Entrada>, orden: Orden): (r: Escritura)
    requires Estable(d, bs)
    ensures Estable(r.d, bs) && |r.d.disco| == |d.disco|
  {
    match orden
    case LeerDe(loc, cant) => var l := Leer(d, bs, loc, cant); Escritura(l.ok, l.d, log)
    case EscribirEn(loc, datos) => Escribir(d, bs, log, loc, datos)
    case VaciarCache => var v := Vaciar(d, bs); Escritura(v.ok, v.d, log)
  }

  predicate OrdenSinFuga(d: Disp, bs: nat, orden: Orden)
    requires Estable(d, bs)
  {
    orden.EscribirEn? ==> SinFuga(d, bs, orden.loc, orden.datos)
  }

  /** No write of the session can leak, each in the state it finds. */
  predicate SesionSinFuga(d: Disp, bs: nat, log: seq<Entrada>, ordenes: seq<Orden>)
    requires Estable(d, bs)
    decreases |ordenes|
  {
    ordenes == [] ||
    (OrdenSinFuga(d, bs, ordenes[0]) &&
     var r := UnaOrden(d, bs, log, ordenes[0]);
     r.ok ==> SesionSinFuga(r.d, bs, r.log, ordenes[1..]))
  }

  predicate DeUnBloque(orden: Orden, bs: nat)
    requires bs > 0
  {
    orden.EscribirEn? ==> orden.datos == [] || Resto(orden.loc, bs) + |orden.datos| <= bs
  }

  /** Writes confined to one block each cannot leak. */
  lemma {:induction false} OneBlockWritesDoNotLeak(d: Disp, bs: nat, log: seq<Entrada>, ordenes: seq<Orden>)
    requires Estable(d, bs) && forall i :: 0 <= i < |ordenes| ==> DeUnBloque(ordenes[i], bs)
    ensures SesionSinFuga(d, bs, log, ordenes)
    decreases |ordenes|
  {
    hide UnaOrden, Vista, Cabeza, Resto;
    if ordenes != [] {
      assert DeUnBloque(ordenes[0], bs);
      if ordenes[0].EscribirEn? {
        SingleBlockHasNoHead(bs, ordenes[0].loc, |ordenes[0].datos|);
      }
      var r := UnaOrden(d, bs, log, ordenes[0]);
      OneBlockWritesDoNotLeak(r.d, bs, r.log, ordenes[1..]);
    }
  }

  /** Without transfer errors, a range that could be read can be written. */
  lemma {:induction false} ReadableIsWritable(d: Disp, e: Disp, bs: nat, loc: nat, datos: seq<byte>)
    requires Valido(d, bs) && Valido(e, bs) && d.averias == e.averias == [] && |d.disco| == |e.disco|
    requires Leer(d, bs, loc, |datos|).ok
    ensures Copiar(e, bs, loc, datos).ok
    ensures Leer(d, bs, loc, |datos|).d.averias == []
    ensures Copiar(e, bs, loc, datos).d.averias == []
    decreases |datos|
  {
    hide Leer, Copiar, Vista, Por, Cociente, Resto, Trozo;
    ReadStep(d, bs, loc, |datos|);
    WriteStep(e, bs, loc, datos);
    if datos != [] {
      var b, k := Cociente(loc, bs), Trozo(loc, bs, |datos|);
      LoadedBlockKeepsView(d, bs, b);
      LoadingWithoutErrors(d, e, bs, b);
      LoadedBlockKeepsView(e, bs, b);
      TouchedView(CargarBloque(e, bs, b).d, bs, loc, datos[..k]);
      ReadableIsWritable(CargarBloque(d, bs, b).d, Tocar(CargarBloque(e, bs, b).d, Resto(loc, bs), datos[..k]),
                         bs, loc + k, datos[k..]);
    }
  }

  lemma LoadingWithoutErrors(d: Disp, e: Disp, bs: nat, b: nat)
    requires Valido(d, bs) && Valido(e, bs) && d.averias == e.averias == [] && |d.disco| == |e.disco|
    requires CargarBloque(d, bs, b).ok
    ensures CargarBloque(e, bs, b).ok
    ensures CargarBloque(d, bs, b).d.averias == CargarBloque(e, bs, b).d.averias == []
  {
    LoadedBlockKeepsView(d, bs, b);
  }

  /** A failed order leaves a recoverable disk, if writes cannot leak or nothing breaks. */
  lemma FailedOrderStaysRecoverable(orig: seq<byte>, d: Disp, bs: nat, log: seq<Entrada>, orden: Orden)
    requires EnMarcha(orig, d, bs, log) && (d.averias == [] || OrdenSinFuga(d, bs, orden))
    requires !UnaOrden(d, bs, log, orden).ok
    ensures var r := UnaOrden(d, bs, log, orden); r.log == log && Recuperable(orig, r.d.disco, log)
  {
    hide Leer, Copiar, Recuperable, Vista, Vaciar, SinFuga;
    match orden
    case LeerDe(loc, cant) => ReadStaysRecoverable(orig, d, bs, log, loc, cant);
    case VaciarCache => FlushStaysRecoverable(orig, d, bs, log);
    case EscribirEn(loc, datos) =>
      if d.averias == [] {
        var previa := Leer(d, bs, loc, |datos|);
        ReadStaysRecoverable(orig, d, bs, log, loc, |datos|);
        LogOfRecoverable(orig, d, bs, log);
        if previa.ok {
          ReadSeesView(d, bs, loc, |datos|);
          ReadableIsWritable(d, d, bs, loc, datos);
          ReadKeepsErrorFree(d, previa.d, bs, loc, datos);
        }
      } else {
        FailedWriteStaysRecoverable(orig, d, bs, log, loc, datos);
      }
  }

  lemma ReadKeepsErrorFree(d: Disp, e: Disp, bs: nat, loc: nat, datos: seq<byte>)
    requires Valido(d, bs) && d.averias == [] && Leer(d, bs, loc, |datos|).ok && e == Leer(d, bs, loc, |datos|).d
    requires Valido(e, bs)
    ensures e.averias == [] && Copiar(e, bs, loc, datos).ok && Copiar(e, bs, loc, datos).d.averias == []
  {
    hide Leer, Copiar;
    ReadableIsWritable(d, d, bs, loc, datos);
    ReadableIsWritable(d, e, bs, loc, datos);
  }

  lemma OrderStaysRecoverable(orig: seq<byte>, d: Disp, bs: nat, log: seq<Entrada>, orden: Orden)
    requires EnMarcha(orig, d, bs, log) && UnaOrden(d, bs, log, orden).ok
    ensures var r := UnaOrden(d, bs, log, orden); EnMarcha(orig, r.d, bs, r.log)
    ensures d.averias == [] ==> UnaOrden(d, bs, log, orden).d.averias == []
  {
    hide Leer, Copiar, Recuperable, Vista;
    match orden
    case LeerDe(loc, cant) =>
      ReadStaysRecoverable(orig, d, bs, log, loc, cant);
      if d.averias == [] {
        ReadableIsWritable(d, d, bs, loc, seq(cant, _ => 0));
      }
    case VaciarCache => FlushStaysRecoverable(orig, d, bs, log);
    case EscribirEn(loc, datos) =>
      WriteStaysRecoverable(orig, d, bs, log, loc, datos);
      ReadSeesView(d, bs, loc, |datos|);
      if d.averias == [] {
        ReadKeepsErrorFree(d, Leer(d, bs, loc, |datos|).d, bs, loc, datos);
      }
  }

  /** After any session, finished or broken off, and even with the dirty block discarded, the disk
      and the log together still hold the original contents. */
  lemma {:induction false} SessionIsRecoverable(orig: seq<byte>, d: Disp, bs: nat, log: seq<Entrada>, ordenes: seq<Orden>)
    requires EnMarcha(orig, d, bs, log)
    requires d.averias == [] || SesionSinFuga(d, bs, log, ordenes)
    ensures var r := Correr(d, bs, log, ordenes); Recuperable(orig, r.d.disco, r.log)
    decreases |ordenes|
  {
    hide UnaOrden, Recuperable, OrdenSinFuga;
    if ordenes == [] {
      LogOfRecoverable(orig, d, bs, log);
    } else {
      var r := UnaOrden(d, bs, log, ordenes[0]);
      if r.ok {
        OrderStaysRecoverable(orig, d, bs, log, ordenes[0]);
        SessionIsRecoverable(orig, r.d, bs, r.log, ordenes[1..]);
      } else {
        FailedOrderStaysRecoverable(orig, d, bs, log, ordenes[0]);
      }
    }
  }

  // ----- Replaying the log -----

  /** What writing one saved range back does to a flat array. */
  function Aplicar(x: seq<byte>, e: Entrada): (r: seq<byte>)
    requires e.datos != [] ==> e.loc + |e.datos| <= |x|
    ensures |r| == |x|
  {
    if e.datos == [] then x else Sobre(x, e.loc, e.datos)
  }

  /** The saved ranges written back, latest first. */
  function Reponer(log: seq<Entrada>, x: seq<byte>): (r: seq<byte>)
    requires EnDisco(log, |x|)
    ensures |r| == |x|
  {
    if log == [] then x else Aplicar(Reponer(log[1..], x), log[0])
  }

  /** The saved ranges written back in the order of the list. */
  function AplicarTodo(rev: seq<Entrada>, x: seq<byte>): (r: seq<byte>)
    requires EnDisco(rev, |x|)
    ensures |r| == |x|
  {
    if rev == [] then x else AplicarTodo(rev[1..], Aplicar(x, rev[0]))
  }

  function Invertir(log: seq<Entrada>): (r: seq<Entrada>)
    ensures |r| == |log|
    ensures forall i :: 0 <= i < |log| ==> r[i] == log[|log| - 1 - i]
  {
    seq(|log|, i requires 0 <= i < |log| => log[|log| - 1 - i])
  }

  lemma {:induction false} ReplayAppend(a: seq<Entrada>, e: Entrada, x: seq<byte>)
    requires EnDisco(a, |x|) && (e.datos != [] ==> e.loc + |e.datos| <= |x|)
    ensures EnDisco(a + [e], |x|) && AplicarTodo(a + [e], x) == Aplicar(AplicarTodo(a, x), e)
  {
    if a == [] {
      assert a + [e] == [e] && [e][1..] == [] && [e][0] == e;
    } else {
      assert (a + [e])[1..] == a[1..] + [e];
      ReplayAppend(a[1..], e, Aplicar(x, a[0]));
    }
  }

  lemma {:induction false} ReversedReplayUndoes(log: seq<Entrada>, x: seq<byte>)
    requires EnDisco(log, |x|)
    ensures EnDisco(Invertir(log), |x|) && AplicarTodo(Invertir(log), x) == Reponer(log, x)
  {
    if log != [] {
      ReversedReplayUndoes(log[1..], x);
      assert Invertir(log) == Invertir(log[1..]) + [log[0]];
      assert EnDisco([log[0]], |x|);
      ReplayAppend(Invertir(log[1..]), log[0], x);
    }
  }

  /** Overlapping ranges included, the replay leaves the earliest saved byte everywhere. */
  lemma {:induction false} ReplayRestoresEarliest(log: seq<Entrada>, x: seq<byte>, p: nat)
    requires EnDisco(log, |x|) && p < |x|
    ensures Reponer(log, x)[p] == if Cubre(log, p) then Primera(log, p) else x[p]
  {
    if log != [] {
      ReplayRestoresEarliest(log[1..], x, p);
    }
  }

  lemma RecoverableIsRestored(orig: seq<byte>, disco: seq<byte>, log: seq<Entrada>)
    requires Recuperable(orig, disco, log)
    ensures EnDisco(Invertir(log), |disco|) && AplicarTodo(Invertir(log), disco) == orig
  {
    ReversedReplayUndoes(log, disco);
    forall p | 0 <= p < |orig| ensures Reponer(log, disco)[p] == orig[p] {
      ReplayRestoresEarliest(log, disco, p);
    }
  }

  // ----- Uninstalling -----

  datatype Deshecho = Deshecho(bien: bool, d: Disp)

  function Descartar(d: Disp): Disp { d.(sucia := false, bloque := -1) }

  /** One saved range written back, with one retry from an empty cache. */
  function RestituirUna(d: Disp, bs: nat, e: Entrada): (r: Deshecho)
    requires Estable(d, bs)
    ensures Estable(r.d, bs) && |r.d.disco| == |d.disco|
  {
    var c := Copiar(d, bs, e.loc, e.datos);
    if c.ok then Deshecho(true, c.d)
    else
      var v := Vaciar(c.d, bs);
      var otra := Copiar(Descartar(v.d), bs, e.loc, e.datos);
      Deshecho(v.ok && otra.ok, otra.d)
  }

  function RestituirTodo(d: Disp, bs: nat, rev: seq<Entrada>): (r: Deshecho)
    requires Estable(d, bs)
    ensures Estable(r.d, bs) && |r.d.disco| == |d.disco|
    decreases |rev|
  {
    if rev == [] then Deshecho(true, d)
    else
      var una := RestituirUna(d, bs, rev[0]);
      var resto := RestituirTodo(una.d, bs, rev[1..]);
      Deshecho(una.bien && resto.bien, resto.d)
  }

  /** `rev` is the log after it was reversed; the dirty block of the failed session is dropped. */
  function Desinstalar(d: Disp, bs: nat, rev: seq<Entrada>): (r: Deshecho)
    requires Estable(d, bs)
    ensures Estable(r.d, bs) && |r.d.disco| == |d.disco|
  {
    var t := RestituirTodo(Descartar(d), bs, rev);
    var v := Vaciar(t.d, bs);
    Deshecho(t.bien && v.ok, v.d)
  }

  lemma OneRangeRestored(d: Disp, bs: nat, e: Entrada)
    requires Valido(d, bs) && RestituirUna(d, bs, e).bien && EnDisco([e], |d.disco|)
    ensures var r := RestituirUna(d, bs, e);
            Valido(r.d, bs) && (e.datos != [] ==> e.loc + |e.datos| <= |d.disco|)
            && Vista(r.d, bs) == Aplicar(Vista(d, bs), e)
  {
    hide Copiar, Base;
    assert e == [e][0];
    WriteStep(d, bs, e.loc, e.datos);
    var c := Copiar(d, bs, e.loc, e.datos);
    if c.ok {
      WriteChangesView(d, bs, e.loc, e.datos);
    } else {
      FailedWriteStaysInRange(d, bs, e.loc, e.datos);
      var v := Vaciar(c.d, bs);
      WriteChangesView(Descartar(v.d), bs, e.loc, e.datos);
    }
  }

  lemma {:induction false} AllRangesRestored(d: Disp, bs: nat, rev: seq<Entrada>)
    requires Valido(d, bs) && RestituirTodo(d, bs, rev).bien && EnDisco(rev, |d.disco|)
    ensures Valido(RestituirTodo(d, bs, rev).d, bs)
    ensures Vista(RestituirTodo(d, bs, rev).d, bs) == AplicarTodo(rev, Vista(d, bs))
    decreases |rev|
  {
    hide Vista, RestituirUna, Aplicar;
    if rev != [] {
      assert EnDisco([rev[0]], |d.disco|);
      OneRangeRestored(d, bs, rev[0]);
      AllRangesRestored(RestituirUna(d, bs, rev[0]).d, bs, rev[1..]);
    }
  }

  /** An uninstall that reports success has written exactly the saved ranges back. */
  lemma UninstallReplaysLog(d: Disp, bs: nat, rev: seq<Entrada>)
    requires Estable(d, bs) && EnDisco(rev, |d.disco|) && Desinstalar(d, bs, rev).bien
    ensures Desinstalar(d, bs, rev).d.disco == AplicarTodo(rev, d.disco)
  {
    hide RestituirTodo, AplicarTodo;
    AllRangesRestored(Descartar(d), bs, rev);
  }

  /** Whatever the session did and wherever it stopped, a successful uninstall gives the original
      disk back: under any transfer errors when no write in turn can leak, as none confined to one
      block can, and for all writes when no transfer fails. */
  lemma UninstallRestoresDisk(d: Disp, bs: nat, ordenes: seq<Orden>)
    requires Valido(d, bs) && !d.sucia
    requires d.averias == [] || SesionSinFuga(d, bs, [], ordenes)
    ensures var r := Correr(d, bs, [], ordenes);
            var u := Desinstalar(r.d, bs, Invertir(r.log));
            u.bien ==> u.d.disco == d.disco
  {
    hide Correr, Desinstalar, SesionSinFuga;
    SessionIsRecoverable(d.disco, d, bs, [], ordenes);
    var r := Correr(d, bs, [], ordenes);
    RecoverableIsRestored(d.disco, r.d.disco, r.log);
    if Desinstalar(r.d, bs, Invertir(r.log)).bien {
      UninstallReplaysLog(r.d, bs, Invertir(r.log));
    }
  }

  // ----- Without transfer errors the uninstall does succeed -----

  lemma {:induction false} ReadableAnywhere(d: Disp, e: Disp, bs: nat, loc: nat, cant: nat)
    requires Valido(d, bs) && Valido(e, bs) && d.averias == e.averias == [] && |d.disco| == |e.disco|
    requires Leer(d, bs, loc, cant).ok
    ensures Leer(e, bs, loc, cant).ok
    decreases cant
  {
    hide Leer, Vista, Por, Cociente, Resto, Trozo;
    ReadStep(d, bs, loc, cant);
    ReadStep(e, bs, loc, cant);
    if cant > 0 {
      var b, k := Cociente(loc, bs), Trozo(loc, bs, cant);
      LoadedBlockKeepsView(d, bs, b);
      LoadingWithoutErrors(d, e, bs, b);
      LoadedBlockKeepsView(e, bs, b);
      ReadableAnywhere(CargarBloque(d, bs, b).d, CargarBloque(e, bs, b).d, bs, loc + k, cant - k);
    }
  }

  /** Every saved range is one that the device `d` can deliver. */
  predicate Alcanzable(d: Disp, bs: nat, log: seq<Entrada>)
    requires Estable(d, bs)
  {
    forall i :: 0 <= i < |log| ==> Leer(d, bs, log[i].loc, |log[i].datos|).ok
  }

  lemma {:induction false} ErrorFreeSessionIsReachable(ref: Disp, d: Disp, bs: nat, log: seq<Entrada>, ordenes: seq<Orden>)
    requires Valido(ref, bs) && Valido(d, bs) && ref.averias == d.averias == [] && |ref.disco| == |d.disco|
    requires Alcanzable(ref, bs, log)
    ensures var r := Correr(d, bs, log, ordenes); Alcanzable(ref, bs, r.log) && r.d.averias == []
    decreases |ordenes|
  {
    if ordenes != [] {
      var r := UnaOrden(d, bs, log, ordenes[0]);
      ErrorFreeOrder(ref, d, bs, log, ordenes[0]);
      if r.ok {
        ErrorFreeSessionIsReachable(ref, r.d, bs, r.log, ordenes[1..]);
      }
    }
  }

  lemma ErrorFreeOrder(ref: Disp, d: Disp, bs: nat, log: seq<Entrada>, orden: Orden)
    requires Valido(ref, bs) && Valido(d, bs) && ref.averias == d.averias == [] && |ref.disco| == |d.disco|
    requires Alcanzable(ref, bs, log)
    ensures var r := UnaOrden(d, bs, log, orden);
            Alcanzable(ref, bs, r.log) && r.d.averias == [] && (r.ok ==> Valido(r.d, bs))
  {
    hide Leer, Copiar;
    match orden
    case LeerDe(loc, cant) =>
      ReadErrorFree(d, bs, loc, cant);
      if Leer(d, bs, loc, cant).ok {
        ReadSeesView(d, bs, loc, cant);
      }
    case VaciarCache =>
    case EscribirEn(loc, datos) =>
      ReadErrorFree(d, bs, loc, |datos|);
      var previa := Leer(d, bs, loc, |datos|);
      if previa.ok {
        ReadSeesView(d, bs, loc, |datos|);
        ReadKeepsErrorFree(d, previa.d, bs, loc, datos);
        WriteChangesView(previa.d, bs, loc, datos);
        ReadableAnywhere(d, ref, bs, loc, |datos|);
      }
  }

  lemma {:induction false} ReadErrorFree(d: Disp, bs: nat, loc: nat, cant: nat)
    requires Estable(d, bs) && d.averias == []
    ensures Leer(d, bs, loc, cant).d.averias == []
    decreases cant
  {
    hide CargarBloque, Por, Cociente, Resto, Trozo, Leer;
    ReadStep(d, bs, loc, cant);
    LoadKeepsErrorFree(d, bs, Cociente(loc, bs));
    if cant > 0 && CargarBloque(d, bs, Cociente(loc, bs)).ok {
      var k := Trozo(loc, bs, cant);
      ReadErrorFree(CargarBloque(d, bs, Cociente(loc, bs)).d, bs, loc + k, cant - k);
    }
  }

  lemma {:induction false} ErrorFreeReplaySucceeds(ref: Disp, d: Disp, bs: nat, rev: seq<Entrada>)
    requires Valido(ref, bs) && Valido(d, bs) && ref.averias == d.averias == [] && |ref.disco| == |d.disco|
    requires Alcanzable(ref, bs, rev)
    ensures RestituirTodo(d, bs, rev).bien && RestituirTodo(d, bs, rev).d.averias == []
    decreases |rev|
  {
    hide Leer, Copiar;
    if rev != [] {
      ReadableIsWritable(ref, d, bs, rev[0].loc, rev[0].datos);
      WriteChangesView(d, bs, rev[0].loc, rev[0].datos);
      assert RestituirUna(d, bs, rev[0]) == Deshecho(true, Copiar(d, bs, rev[0].loc, rev[0].datos).d);
      ErrorFreeReplaySucceeds(ref, RestituirUna(d, bs, rev[0]).d, bs, rev[1..]);
    }
  }

  /** With no transfer errors a broken-off installation is always undone, and undone completely. */
  lemma ErrorFreeUndoIsTotal(d: Disp, bs: nat, ordenes: seq<Orden>)
    requires Valido(d, bs) && !d.sucia && d.averias == []
    ensures var r := Correr(d, bs, [], ordenes);
            Desinstalar(r.d, bs, Invertir(r.log)) == Deshecho(true, Desinstalar(r.d, bs, Invertir(r.log)).d)
            && Desinstalar(r.d, bs, Invertir(r.log)).d.disco == d.disco
  {
    hide Correr, RestituirTodo, Leer;
    ErrorFreeSessionIsReachable(d, d, bs, [], ordenes);
    var r := Correr(d, bs, [], ordenes);
    ErrorFreeReplaySucceeds(d, Descartar(r.d), bs, Invertir(r.log));
    UninstallRestoresDisk(d, bs, ordenes);
  }

  // ----- And so does every transfer inside the device -----

  /** The device has `n` whole blocks; what is left over is never reached. */
  predicate Bloques(d: Disp, bs: nat, n: nat) {
    n * bs <= |d.disco| < (n + 1) * bs
  }

  lemma BlockIsInside(d: Disp, bs: nat, n: nat, b: nat)
    requires bs > 0 && Bloques(d, bs, n)
    ensures Base(b, bs) + bs <= |d.disco| <==> b < n
    ensures b < n ==> Base(b, bs) + bs <= n * bs
    ensures b >= n ==> Base(b, bs) >= n * bs
  {
    PorIsProduct(b, bs);
    assert (b + 1) * bs == b * bs + bs && (n + 1) * bs == n * bs + bs;
    if b < n {
      MulMonotone(b + 1, n, bs);
    } else {
      MulMonotone(n, b, bs);
    }
  }

  lemma LoadSucceedsIff(d: Disp, bs: nat, b: nat)
    requires Estable(d, bs) && d.averias == []
    ensures CargarBloque(d, bs, b).ok <==> Base(b, bs) + bs <= |d.disco|
    ensures CargarBloque(d, bs, b).d.averias == [] && |CargarBloque(d, bs, b).d.disco| == |d.disco|
  {
  }

  /** Without transfer errors a read succeeds exactly when it stays inside the whole blocks. */
  lemma {:induction false} ReadSucceedsIff(d: Disp, bs: nat, n: nat, loc: nat, cant: nat)
    requires Estable(d, bs) && d.averias == [] && Bloques(d, bs, n)
    ensures Leer(d, bs, loc, cant).ok <==> cant == 0 || loc + cant <= n * bs
    decreases cant
  {
    hide Leer, CargarBloque, Base, Por, Cociente, Resto, Trozo, Vista;
    ReadStep(d, bs, loc, cant);
    if cant > 0 {
      var b := Cociente(loc, bs);
      BaseOf(loc, bs);
      BlockIsInside(d, bs, n, b);
      LoadSucceedsIff(d, bs, b);
      var c := CargarBloque(d, bs, b);
      if c.ok {
        var k := Trozo(loc, bs, cant);
        ChunkStaysInBlock(loc, bs, cant);
        ReadSucceedsIff(c.d, bs, n, loc + k, cant - k);
      }
    }
  }

  lemma ChunkStaysInBlock(loc: nat, bs: nat, cant: nat)
    requires bs > 0 && cant > 0
    ensures Resto(loc, bs) + Trozo(loc, bs, cant) <= bs && Resto(loc, bs) < bs
  {
  }

  /** A logged write succeeds exactly when, besides, the list of saved ranges has room. */
  lemma WriteSucceedsIff(d: Disp, bs: nat, n: nat, log: seq<Entrada>, loc: nat, datos: seq<byte>)
    requires Valido(d, bs) && d.averias == [] && Bloques(d, bs, n)
    ensures Escribir(d, bs, log, loc, datos).ok <==> |log| < 256 && (datos == [] || loc + |datos| <= n * bs)
    ensures Escribir(d, bs, log, loc, datos).ok ==> |Escribir(d, bs, log, loc, datos).log| == |log| + 1
  {
    hide Leer, Copiar, Vista;
    ReadSucceedsIff(d, bs, n, loc, |datos|);
    var previa := Leer(d, bs, loc, |datos|);
    if previa.ok {
      ReadSeesView(d, bs, loc, |datos|);
      ReadErrorFree(d, bs, loc, |datos|);
      ReadableIsWritable(d, previa.d, bs, loc, datos);
    }
  }

  /** An order that stays inside `n` whole blocks. */
  predicate Interior(orden: Orden, n: nat, bs: nat) {
    match orden
    case LeerDe(loc, cant) => loc + cant <= n * bs
    case EscribirEn(loc, datos) => loc + |datos| <= n * bs
    case VaciarCache => true
  }

  function Escrituras(ordenes: seq<Orden>): nat {
    if ordenes == [] then 0 else (if ordenes[0].EscribirEn? then 1 else 0) + Escrituras(ordenes[1..])
  }

  /** The flat bytes after the writes of a session. */
  function Resultado(x: seq<byte>, ordenes: seq<Orden>): (r: seq<byte>)
    ensures |r| == |x|
    decreases |ordenes|
  {
    if ordenes == [] then x
    else
      match ordenes[0]
      case EscribirEn(loc, datos) =>
        Resultado(if loc + |datos| <= |x| then Sobre(x, loc, datos) else x, ordenes[1..])
      case _ => Resultado(x, ordenes[1..])
  }

  /** Without transfer errors a session that stays inside the whole blocks and writes at most 256 times
      runs to its end, and leaves the bytes that its writes say. */
  lemma {:induction false} ErrorFreeSessionSucceeds(d: Disp, bs: nat, n: nat, log: seq<Entrada>, ordenes: seq<Orden>)
    requires Valido(d, bs) && d.averias == [] && Bloques(d, bs, n)
    requires |log| + Escrituras(ordenes) <= 256 && forall i :: 0 <= i < |ordenes| ==> Interior(ordenes[i], n, bs)
    ensures var r := Correr(d, bs, log, ordenes); r.ok && Vista(r.d, bs) == Resultado(Vista(d, bs), ordenes)
    decreases |ordenes|
  {
    hide UnaOrden, Vista, Sobre, Interior;
    if ordenes != [] {
      var r := UnaOrden(d, bs, log, ordenes[0]);
      assert Interior(ordenes[0], n, bs);
      OneOrderSucceeds(d, bs, n, log, ordenes[0]);
      assert forall i :: 0 <= i < |ordenes[1..]| ==> ordenes[1..][i] == ordenes[i + 1];
      ErrorFreeSessionSucceeds(r.d, bs, n, r.log, ordenes[1..]);
    }
  }

  lemma OneOrderSucceeds(d: Disp, bs: nat, n: nat, log: seq<Entrada>, orden: Orden)
    requires Valido(d, bs) && d.averias == [] && Bloques(d, bs, n) && Interior(orden, n, bs)
    requires orden.EscribirEn? ==> |log| < 256
    ensures var r := UnaOrden(d, bs, log, orden);
            && r.ok && Valido(r.d, bs) && r.d.averias == [] && |r.log| == |log| + (if orden.EscribirEn? then 1 else 0)
            && Vista(r.d, bs) == match orden
               case EscribirEn(loc, datos) =>
                 if loc + |datos| <= |Vista(d, bs)| then Sobre(Vista(d, bs), loc, datos) else Vista(d, bs)
               case _ => Vista(d, bs)
  {
    hide Leer, Copiar, Base, Por;
    ErrorFreeOrder(d, d, bs, [], orden);
    match orden
    case LeerDe(loc, cant) =>
      ReadSucceedsIff(d, bs, n, loc, cant);
      ReadSeesView(d, bs, loc, cant);
    case EscribirEn(loc, datos) =>
      WriteSucceedsIff(d, bs, n, log, loc, datos);
      WriteIsFlat(d, bs, log, loc, datos);
    case VaciarCache =>
  }

  lemma WriteIsFlat(d: Disp, bs: nat, log: seq<Entrada>, loc: nat, datos: seq<byte>)
    requires Valido(d, bs) && Escribir(d, bs, log, loc, datos).ok
    ensures Valido(Escribir(d, bs, log, loc, datos).d, bs)
    ensures loc + |datos| <= |d.disco| ==> Vista(Escribir(d, bs, log, loc, datos).d, bs) == Sobre(Vista(d, bs), loc, datos)
    ensures datos != [] ==> loc + |datos| <= |d.disco|
    ensures datos == [] ==> Vista(Escribir(d, bs, log, loc, datos).d, bs) == Vista(d, bs)
  {
    hide Leer, Copiar, Vista, Base, Por;
    ReadSeesView(d, bs, loc, |datos|);
    WriteChangesView(Leer(d, bs, loc, |datos|).d, bs, loc, datos);
    if datos == [] && loc <= |d.disco| {
      assert Sobre(Vista(d, bs), loc, []) == Vista(d, bs);
    }
  }

  // ----- Exactly which writes can leak past the log -----

  function Bienes(n: nat): (s: seq<Averia>)
    ensures |s| == n && forall i :: 0 <= i < n ==> s[i] == Bien
  {
    seq(n, _ => Bien)
  }

  lemma BienesJoin(a: nat, b: nat, resto: seq<Averia>)
    ensures Bienes(a) + (Bienes(b) + resto) == Bienes(a + b) + resto
  {
  }

  /** A load that needs `n` transfers still works if just those succeed. */
  lemma LoadSchedule(d: Disp, bs: nat, b: nat) returns (n: nat)
    requires Valido(d, bs) && d.averias == [] && CargarBloque(d, bs, b).ok
    ensures forall resto: seq<Averia> ::
              CargarBloque(d.(averias := Bienes(n) + resto), bs, b) ==
              Res(true, CargarBloque(d, bs, b).d.(averias := resto))
  {
    n := if d.bloque == b then 0 else if d.sucia then 2 else 1;
    forall resto: seq<Averia>
      ensures CargarBloque(d.(averias := Bienes(n) + resto), bs, b) ==
              Res(true, CargarBloque(d, bs, b).d.(averias := resto))
    {
      var av := Bienes(n) + resto;
      if n == 0 {
        assert av == resto;
      } else if n == 1 {
        assert av[1..] == resto;
      } else {
        assert av[1..][1..] == resto;
      }
    }
  }

  lemma {:induction false} ReadSchedule(d: Disp, bs: nat, loc: nat, cant: nat, resto: seq<Averia>) returns (n: nat)
    requires Valido(d, bs) && d.averias == [] && Leer(d, bs, loc, cant).ok
    ensures Leer(d.(averias := Bienes(n) + resto), bs, loc, cant) ==
            Leer(d, bs, loc, cant).(d := Leer(d, bs, loc, cant).d.(averias := resto))
    decreases cant
  {
    hide Leer, Vista, CargarBloque, Por, Cociente, Resto, Trozo;
    ReadStep(d, bs, loc, cant);
    if cant == 0 {
      n := 0;
      assert Bienes(0) + resto == resto;
      ReadStep(d.(averias := resto), bs, loc, cant);
    } else {
      var b, k := Cociente(loc, bs), Trozo(loc, bs, cant);
      LoadedBlockKeepsView(d, bs, b);
      LoadKeepsErrorFree(d, bs, b);
      var c := CargarBloque(d, bs, b).d;
      var n2 := ReadSchedule(c, bs, loc + k, cant - k, resto);
      var n1 := LoadSchedule(d, bs, b);
      n := n1 + n2;
      BienesJoin(n1, n2, resto);
      assert CargarBloque(d.(averias := Bienes(n1) + (Bienes(n2) + resto)), bs, b) ==
             Res(true, c.(averias := Bienes(n2) + resto));
      ReadStep(d.(averias := Bienes(n) + resto), bs, loc, cant);
    }
  }

  lemma LoadKeepsErrorFree(d: Disp, bs: nat, b: nat)
    requires Estable(d, bs) && d.averias == []
    ensures CargarBloque(d, bs, b).d.averias == []
  {
  }

  lemma {:induction false} NextBlockBegins(loc: nat, bs: nat)
    requires bs > 0
    ensures Cociente(loc + (bs - Resto(loc, bs)), bs) == Cociente(loc, bs) + 1
  {
    if loc >= bs {
      NextBlockBegins(loc - bs, bs);
    } else {
      assert Cociente(bs, bs) == 1 + Cociente(0, bs);
    }
  }

  /** A schedule of transfers under which a write stops in its last block, after the blocks
      before it reached the disk. */
  lemma {:induction false} LeakSchedule(d: Disp, bs: nat, loc: nat, datos: seq<byte>) returns (av: seq<Averia>)
    requires Valido(d, bs) && d.averias == [] && Copiar(d, bs, loc, datos).ok
    requires Cabeza(bs, loc, |datos|) > 0
    ensures loc + |datos| <= |d.disco|
    ensures var r := Copiar(d.(averias := av), bs, loc, datos);
            !r.ok && r.d.averias == [] && !r.d.sucia
            && r.d.disco == Sobre(Vista(d, bs), loc, datos[..Cabeza(bs, loc, |datos|)])
    decreases |datos|
  {
    hide Copiar, Vista, CargarBloque, Por, Cociente, Resto, Cabeza, Sobre;
    HeadStep(bs, loc, |datos|);
    WriteStep(d, bs, loc, datos);
    WriteChangesView(d, bs, loc, datos);
    var b, k := Cociente(loc, bs), Trozo(loc, bs, |datos|);
    NextBlockBegins(loc, bs);
    LoadedBlockKeepsView(d, bs, b);
    LoadKeepsErrorFree(d, bs, b);
    var c := CargarBloque(d, bs, b).d;
    TouchedView(c, bs, loc, datos[..k]);
    var t := Tocar(c, Resto(loc, bs), datos[..k]);
    var n := LoadSchedule(d, bs, b);
    var av2 := [Bien, Falla(0, [])];
    if Cabeza(bs, loc + k, |datos| - k) == 0 {
      StopAtNextBlock(t, bs, loc + k, datos[k..]);
    } else {
      av2 := LeakSchedule(t, bs, loc + k, datos[k..]);
      SobreJoins(Vista(d, bs), loc, datos[..k], datos[k..][..Cabeza(bs, loc + k, |datos| - k)]);
      assert datos[..k] + datos[k..][..Cabeza(bs, loc + k, |datos| - k)] == datos[..Cabeza(bs, loc, |datos|)];
    }
    av := Bienes(n) + av2;
    WriteStep(d.(averias := av), bs, loc, datos);
  }

  lemma StopAtNextBlock(t: Disp, bs: nat, loc: nat, datos: seq<byte>)
    requires Valido(t, bs) && t.sucia && datos != [] && t.bloque != Cociente(loc, bs)
    ensures var r := Copiar(t.(averias := [Bien, Falla(0, [])]), bs, loc, datos);
            !r.ok && r.d.averias == [] && !r.d.sucia && r.d.disco == Vista(t, bs)
  {
    hide Cociente, Resto, Por;
    WriteStep(t.(averias := [Bien, Falla(0, [])]), bs, loc, datos);
    hide Copiar;
  }

  /** For a write that works when no transfer fails: an uninstall that reports success restores the
      disk under every pattern of transfer errors if and only if the blocks before the last one
      already held the data. A write that spans blocks and changes them can leak past the log. */
  lemma WriteIsUndoableIff(d: Disp, bs: nat, loc: nat, datos: seq<byte>)
    requires Valido(d, bs) && !d.sucia && d.averias == [] && Escribir(d, bs, [], loc, datos).ok
    ensures (forall av: seq<Averia> {:trigger d.(averias := av)} ::
               var r := Escribir(d.(averias := av), bs, [], loc, datos);
               var u := Desinstalar(r.d, bs, Invertir(r.log));
               u.bien ==> u.d.disco == d.disco)
            <==> SinFuga(d, bs, loc, datos)
  {
    hide Escribir, Desinstalar, Copiar, Leer, Cabeza;
    if SinFuga(d, bs, loc, datos) {
      forall av: seq<Averia>
        ensures var r := Escribir(d.(averias := av), bs, [], loc, datos);
                var u := Desinstalar(r.d, bs, Invertir(r.log));
                u.bien ==> u.d.disco == d.disco
      {
        NoLeakIsUndone(d, d.(averias := av), bs, loc, datos);
      }
    } else {
      var av := LeakingSchedule(d, bs, loc, datos);
      var r := Escribir(d.(averias := av), bs, [], loc, datos);
      var u := Desinstalar(r.d, bs, Invertir(r.log));
      assert u.bien && u.d.disco != d.disco;
    }
  }

  lemma NoLeakIsUndone(d0: Disp, d: Disp, bs: nat, loc: nat, datos: seq<byte>)
    requires Valido(d, bs) && !d.sucia && d == d0.(averias := d.averias) && Estable(d0, bs)
    requires SinFuga(d0, bs, loc, datos)
    ensures var r := Escribir(d, bs, [], loc, datos);
            var u := Desinstalar(r.d, bs, Invertir(r.log));
            u.bien ==> u.d.disco == d.disco
  {
    hide Escribir, Desinstalar, Copiar, Leer, Cabeza;
    var r := Escribir(d, bs, [], loc, datos);
    if r.ok {
      WriteStaysRecoverable(d.disco, d, bs, [], loc, datos);
    } else {
      FailedWriteStaysRecoverable(d.disco, d, bs, [], loc, datos);
    }
    RecoverableIsRestored(d.disco, r.d.disco, r.log);
    if Desinstalar(r.d, bs, Invertir(r.log)).bien {
      UninstallReplaysLog(r.d, bs, Invertir(r.log));
    }
  }

  lemma LeakingSchedule(d: Disp, bs: nat, loc: nat, datos: seq<byte>) returns (av: seq<Averia>)
    requires Valido(d, bs) && !d.sucia && d.averias == [] && Escribir(d, bs, [], loc, datos).ok
    requires !SinFuga(d, bs, loc, datos)
    ensures var r := Escribir(d.(averias := av), bs, [], loc, datos);
            !r.ok && r.log == [] && Desinstalar(r.d, bs, Invertir(r.log)).bien
            && Desinstalar(r.d, bs, Invertir(r.log)).d.disco != d.disco
  {
    hide Copiar, Leer, Cabeza;
    var previa := Leer(d, bs, loc, |datos|);
    ReadSeesView(d, bs, loc, |datos|);
    ReadErrorFree(d, bs, loc, |datos|);
    var av2 := LeakSchedule(previa.d, bs, loc, datos);
    var n := ReadSchedule(d, bs, loc, |datos|, av2);
    av := Bienes(n) + av2;
    var k := Cabeza(bs, loc, |datos|);
    var nuevo := Sobre(d.disco, loc, datos[..k]);
    assert nuevo[loc..loc + k] == datos[..k];
    var r := Escribir(d.(averias := av), bs, [], loc, datos);
    assert Invertir(r.log) == [];
  }
}
