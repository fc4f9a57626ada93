/** The compressed up-case table of an exFAT volume (section 7.2 of the exFAT specification): a list
    of 16-bit values in which 0xFFFF announces the length of a run of characters that fold to
    themselves. */
module Mayusculas {
  import opened Bytes
  import opened Particiones

  type u16 = x: int | 0 <= x < 0x1_0000

  const MARCA: u16 := 0xffff
  const LONGITUD_MAXIMA: nat := 131072

  // ----- What the values mean, one after another -----

  /** The entries so far, and whether the last value announced a run; or a value that does not fit. */
  datatype Expansion = Expansion(tabla: seq<u16>, salto: bool) | Rota

  function Identidad(a: nat, n: nat): (s: seq<u16>)
    requires a + n <= DOS16
    ensures |s| == n && forall k :: 0 <= k < n ==> s[k] == a + k
  {
    seq(n, k requires 0 <= k < n => a + k)
  }

  function Paso(e: Expansion, valor: u16): Expansion {
    match e
    case Rota => Rota
    case Expansion(tabla, salto) =>
      if salto then
        if valor == 0 || valor > DOS16 - |tabla| then Rota
        else Expansion(tabla + Identidad(|tabla|, valor), false)
      else if valor == MARCA && |tabla| < 65535 then Expansion(tabla, true)
      else if |tabla| >= DOS16 then Rota
      else Expansion(tabla + [valor], false)
  }

  function Tras(v: seq<u16>): Expansion {
    if v == [] then Expansion([], false) else Paso(Tras(v[..|v| - 1]), v[|v| - 1])
  }

  // ----- An independent reading: literal characters and identity runs -----

  datatype Ficha = Letra(valor: u16) | Corrida(n: u16)

  function Codigo(f: Ficha): seq<u16> {
    match f
    case Letra(x) => [x]
    case Corrida(n) => [MARCA, n]
  }

  function Codificar(fs: seq<Ficha>): seq<u16> {
    if fs == [] then [] else Codificar(fs[..|fs| - 1]) + Codigo(fs[|fs| - 1])
  }

  /** A piece that may come when `hechas` entries are done: only the last entry can be a literal
      0xFFFF, and a run is not empty and does not pass the end. */
  predicate Cabe(hechas: nat, f: Ficha) {
    match f
    case Letra(x) => hechas < DOS16 && (x == MARCA ==> hechas == 65535)
    case Corrida(n) => hechas < 65535 && 1 <= n <= DOS16 - hechas
  }

  predicate Valida(fs: seq<Ficha>)
    decreases |fs|, 0
  {
    fs == [] || (Valida(fs[..|fs| - 1]) && Cabe(|Tabla(fs[..|fs| - 1])|, fs[|fs| - 1]))
  }

  function Tabla(fs: seq<Ficha>): (t: seq<u16>)
    requires Valida(fs)
    ensures |t| <= DOS16
    decreases |fs|, 1
  {
    if fs == [] then []
    else
      var t := Tabla(fs[..|fs| - 1]);
      match fs[|fs| - 1]
      case Letra(x) => t + [x]
      case Corrida(n) => t + Identidad(|t|, n)
  }

  ghost predicate Codifica(v: seq<u16>, t: seq<u16>) {
    exists fs :: Valida(fs) && Codificar(fs) == v && Tabla(fs) == t
  }

  lemma TrasAppend(v: seq<u16>, x: u16)
    ensures Tras(v + [x]) == Paso(Tras(v), x)
  {
    assert (v + [x])[..|v|] == v;
  }

  lemma ReadingAppend(fs: seq<Ficha>, f: Ficha)
    requires Valida(fs) && Cabe(|Tabla(fs)|, f)
    ensures Valida(fs + [f]) && Codificar(fs + [f]) == Codificar(fs) + Codigo(f)
    ensures Tabla(fs + [f]) == Tabla(fs) + (if f.Letra? then [f.valor] else Identidad(|Tabla(fs)|, f.n))
  {
    assert (fs + [f])[..|fs|] == fs;
  }

  /** A run was announced by the value before it. */
  lemma AnnouncedByMark(v: seq<u16>)
    requires Tras(v).Expansion? && Tras(v).salto
    ensures v != [] && v[|v| - 1] == MARCA
    ensures Tras(v[..|v| - 1]) == Expansion(Tras(v).tabla, false) && |Tras(v).tabla| < 65535
  {
  }

  /** Expanding inverts every way of writing a table, literal by literal or with runs. */
  lemma {:induction false} ExpandsWhatIsWritten(fs: seq<Ficha>)
    requires Valida(fs)
    ensures Tras(Codificar(fs)) == Expansion(Tabla(fs), false)
  {
    if fs != [] {
      var antes, f := fs[..|fs| - 1], fs[|fs| - 1];
      ExpandsWhatIsWritten(antes);
      var v := Codificar(antes);
      match f
      case Letra(x) =>
        TrasAppend(v, x);
      case Corrida(n) =>
        TrasAppend(v, MARCA);
        TrasAppend(v + [MARCA], n);
        assert v + [MARCA] + [n] == v + [MARCA, n];
    }
  }

  /** And expands nothing else. */
  lemma NothingReadsNothing()
    ensures Valida([]) && Codificar([]) == [] && Tabla([]) == [] && Tras([]) == Expansion([], false)
  {
  }

  lemma LastStep(v: seq<u16>)
    requires v != [] && Tras(v).Expansion? && !Tras(v).salto
    ensures var e, x := Tras(v[..|v| - 1]), v[|v| - 1];
            e.Expansion? && Cabe(|e.tabla|, if e.salto then Corrida(x) else Letra(x))
            && Tras(v).tabla == e.tabla + if e.salto then Identidad(|e.tabla|, x) else [x]
  {
    if Tras(v[..|v| - 1]).salto {
      AnnouncedByMark(v[..|v| - 1]);
    }
  }

  lemma {:induction false} ExpandedWasWritten(v: seq<u16>) returns (fs: seq<Ficha>)
    requires Tras(v).Expansion? && !Tras(v).salto
    ensures Valida(fs) && Codificar(fs) == v && Tabla(fs) == Tras(v).tabla
  {
    hide Tras, Tabla, Codificar, Valida, Cabe;
    if v == [] {
      NothingReadsNothing();
      return [];
    }
    var antes, x := v[..|v| - 1], v[|v| - 1];
    LastStep(v);
    if Tras(antes).salto {
      AnnouncedByMark(antes);
      fs := ExpandedWasWritten(antes[..|antes| - 1]);
      ReadingAppend(fs, Corrida(x));
      assert v == antes[..|antes| - 1] + [MARCA, x];
      fs := fs + [Corrida(x)];
    } else {
      fs := ExpandedWasWritten(antes);
      ReadingAppend(fs, Letra(x));
      assert v == antes + [x];
      fs := fs + [Letra(x)];
    }
  }

  lemma ExpansionIsReading(v: seq<u16>, t: seq<u16>)
    ensures Tras(v) == Expansion(t, false) <==> Codifica(v, t)
  {
    if Tras(v) == Expansion(t, false) {
      var fs := ExpandedWasWritten(v);
    }
    if Codifica(v, t) {
      var fs :| Valida(fs) && Codificar(fs) == v && Tabla(fs) == t;
      ExpandsWhatIsWritten(fs);
    }
  }

  // ----- Which tables can be written at all -----

  predicate SinMarca(t: seq<u16>) {
    forall p :: 0 <= p < |t| && p < 65535 ==> t[p] != MARCA
  }

  ghost predicate Escribible(t: seq<u16>) {
    exists v: seq<u16> :: 2 * |v| <= LONGITUD_MAXIMA && Tras(v) == Expansion(t, false)
  }

  lemma {:induction false} ExpandedHasNoMark(v: seq<u16>)
    ensures Tras(v).Expansion? ==> SinMarca(Tras(v).tabla) && |Tras(v).tabla| <= DOS16
    ensures Tras(v).Expansion? && Tras(v).salto ==> |Tras(v).tabla| < 65535
  {
    if v != [] {
      ExpandedHasNoMark(v[..|v| - 1]);
    }
  }

  lemma NothingRead()
    ensures Tras([]) == Expansion([], false)
  {
  }

  lemma {:induction false} LiteralsExpand(t: seq<u16>, n: nat)
    requires n <= |t| <= DOS16 && SinMarca(t)
    ensures Tras(t[..n]) == Expansion(t[..n], false)
  {
    hide Tras, Identidad;
    NothingRead();
    if n > 0 {
      LiteralsExpand(t, n - 1);
      TrasAppend(t[..n - 1], t[n - 1]);
      assert t[..n] == t[..n - 1] + [t[n - 1]];
    }
  }

  /** A full table can be stored in the space allowed for it if and only if no character but the
      last folds to 0xFFFF. */
  lemma TableFitsIff(t: seq<u16>)
    requires |t| == DOS16
    ensures Escribible(t) <==> SinMarca(t)
  {
    if Escribible(t) {
      var v: seq<u16> :| 2 * |v| <= LONGITUD_MAXIMA && Tras(v) == Expansion(t, false);
      ExpandedHasNoMark(v);
    }
    if SinMarca(t) {
      LiteralsExpand(t, |t|);
      assert t[..|t|] == t;
    }
  }

  // ----- The loading loop -----

  function Rotar(h: nat, b: byte): (r: nat)
    requires h < DOS32
    ensures r < DOS32
  {
    (h / 2 + h % 2 * 0x8000_0000 + b) % DOS32
  }

  function Suma(s: seq<byte>, n: nat): (h: nat)
    requires n <= |s|
    ensures h < DOS32
  {
    if n == 0 then 0 else Rotar(Suma(s, n - 1), s[n - 1])
  }

  /** The first `n` 16-bit values of a file. */
  function Valores(s: seq<byte>, n: nat): (v: seq<u16>)
    requires 2 * n <= |s|
    ensures |v| == n
  {
    if n == 0 then [] else Valores(s, n - 1) + [U16(s, 2 * (n - 1))]
  }

  predicate LongitudAdmitida(s: seq<byte>) {
    0 < |s| <= LONGITUD_MAXIMA && |s| % 2 == 0
  }

  ghost predicate Aceptada(s: seq<byte>, suma: nat, t: seq<u16>) {
    && LongitudAdmitida(s)
    && Suma(s, |s|) == suma
    && |t| == DOS16
    && Codifica(Valores(s, |s| / 2), t)
  }

  lemma AcceptedIff(s: seq<byte>, suma: nat, t: seq<u16>)
    requires LongitudAdmitida(s)
    ensures Aceptada(s, suma, t) <==>
            Suma(s, |s|) == suma && |t| == DOS16 && Tras(Valores(s, |s| / 2)) == Expansion(t, false)
  {
    ExpansionIsReading(Valores(s, |s| / 2), t);
  }

  lemma RefusedForAll(s: seq<byte>, suma: nat)
    requires LongitudAdmitida(s)
    requires var e := Tras(Valores(s, |s| / 2));
             e.Rota? || e.salto || |e.tabla| != DOS16 || Suma(s, |s|) != suma
    ensures forall t :: !Aceptada(s, suma, t)
  {
    hide Aceptada, Tras, Suma, Valores;
    forall t {
      AcceptedIff(s, suma, t);
    }
  }

  lemma OneMoreValue(s: seq<byte>, n: nat)
    requires 2 * n + 2 <= |s|
    ensures Tras(Valores(s, n + 1)) == Paso(Tras(Valores(s, n)), U16(s, 2 * n))
  {
    TrasAppend(Valores(s, n), U16(s, 2 * n));
  }

  lemma {:induction false} BrokenStaysBroken(s: seq<byte>, a: nat, b: nat)
    requires a <= b && 2 * b <= |s| && Tras(Valores(s, a)).Rota?
    ensures Tras(Valores(s, b)).Rota?
    decreases b
  {
    hide Tras, Valores, U16;
    if a < b {
      BrokenStaysBroken(s, a, b - 1);
      OneMoreValue(s, b - 1);
    }
  }

  lemma ValueOfPage(s: seq<byte>, a: nat, n: nat, k: nat)
    requires a + n <= |s| && k + 2 <= n
    ensures U16(s[a..a + n], k) == U16(s, a + k)
  {
  }

  lemma NothingYet(s: seq<byte>, suma: nat)
    ensures Tras(Valores(s, 0)) == Expansion([], false) && Suma(s, 0) == 0
    ensures !LongitudAdmitida(s) ==> forall t :: !Aceptada(s, suma, t)
  {
  }

  /** One value of the file. A value that does not fit is refused. */
  method Anotar(valor: u16, pos: nat, salto: bool, upcase: array<u16>) returns (ok: bool, pos': nat, salto': bool)
    requires pos <= upcase.Length == DOS16
    modifies upcase
    ensures pos' <= DOS16
    ensures Paso(Expansion(old(upcase[..pos]), salto), valor)
            == if ok then Expansion(upcase[..pos'], salto') else Rota
  {
    ok, pos', salto' := true, pos, salto;
    if salto {
      if valor == 0 || valor > DOS16 - pos {
        return false, pos, salto;
      }
      for k := 0 to valor
        invariant pos' == pos + k
        invariant forall p :: 0 <= p < pos ==> upcase[p] == old(upcase[p])
        invariant forall p :: pos <= p < pos' ==> upcase[p] == p
      {
        upcase[pos'] := pos';
        pos' := pos' + 1;
      }
      salto' := false;
      assert upcase[..pos'] == old(upcase[..pos]) + Identidad(pos, valor);
    } else if valor == MARCA && pos < 65535 {
      salto' := true;
    } else {
      if pos >= DOS16 {
        return false, pos, salto;
      }
      upcase[pos] := valor;
      pos' := pos + 1;
      assert upcase[..pos'] == old(upcase[..pos]) + [valor];
    }
  }

  /** The values of one page, `cantidad` bytes from `desde` on. */
  method ExpandirPagina(datos: seq<byte>, desde: nat, cantidad: nat, pos: nat, salto: bool, upcase: array<u16>)
    returns (ok: bool, pos': nat, salto': bool)
    requires pos <= upcase.Length == DOS16
    requires desde % 2 == 0 && cantidad % 2 == 0 && desde + cantidad <= |datos|
    requires Tras(Valores(datos, desde / 2)) == Expansion(upcase[..pos], salto)
    modifies upcase
    ensures pos' <= DOS16
    ensures ok ==> Tras(Valores(datos, (desde + cantidad) / 2)) == Expansion(upcase[..pos'], salto')
    ensures !ok ==> Tras(Valores(datos, |datos| / 2)) == Rota
  {
    hide Paso, U16, Tras, Valores;
    ok, pos', salto' := true, pos, salto;
    var pagina := datos[desde..desde + cantidad];
    for j := 0 to cantidad / 2
      invariant ok && pos' <= DOS16
      invariant Tras(Valores(datos, desde / 2 + j)) == Expansion(upcase[..pos'], salto')
    {
      OneMoreValue(datos, desde / 2 + j);
      ValueOfPage(datos, desde, cantidad, 2 * j);
      ok, pos', salto' := Anotar(U16(pagina, 2 * j), pos', salto', upcase);
      if !ok {
        BrokenStaysBroken(datos, desde / 2 + j + 1, |datos| / 2);
        return;
      }
    }
  }

  method SumarPagina(datos: seq<byte>, desde: nat, cantidad: nat, suma: nat) returns (h: nat)
    requires desde + cantidad <= |datos| && suma == Suma(datos, desde)
    ensures h == Suma(datos, desde + cantidad)
  {
    h := suma;
    for j := 0 to cantidad
      invariant h == Suma(datos, desde + j)
    {
      h := Rotar(h, datos[desde + j]);
    }
  }

  /** Expands the table stored in `datos`, page by page, into `upcase`. It is accepted exactly when
      its bytes have the announced checksum and encode one entry for each character. */
  method CargarMayusculas(datos: seq<byte>, suma: nat, upcase: array<u16>) returns (r: int)
    requires upcase.Length == DOS16
    modifies upcase
    ensures r == 0 || r == VOLUMEN_CORRUPTO
    ensures r == 0 ==> Aceptada(datos, suma, upcase[..])
    ensures r != 0 ==> forall t :: !Aceptada(datos, suma, t)
  {
    hide Tras, Suma, Valores, Codifica, Aceptada, Paso;
    NothingYet(datos, suma);
    if |datos| == 0 || |datos| > LONGITUD_MAXIMA || |datos| % 2 == 1 {
      return VOLUMEN_CORRUPTO;
    }
    var acumulada: nat, pos: nat, salto, desde: nat := 0, 0, false, 0;
    assert upcase[..pos] == [];
    while desde < |datos|
      invariant desde <= |datos| && desde % 2 == 0
      invariant acumulada == Suma(datos, desde)
      invariant pos <= DOS16
      invariant Tras(Valores(datos, desde / 2)) == Expansion(upcase[..pos], salto)
    {
      var cantidad: nat := Min(|datos| - desde, SECTOR);
      acumulada := SumarPagina(datos, desde, cantidad, acumulada);
      var ok;
      ok, pos, salto := ExpandirPagina(datos, desde, cantidad, pos, salto, upcase);
      if !ok {
        RefusedForAll(datos, suma);
        return VOLUMEN_CORRUPTO;
      }
      desde := desde + cantidad;
    }
    if acumulada != suma || pos != DOS16 || salto {
      RefusedForAll(datos, suma);
      return VOLUMEN_CORRUPTO;
    }
    AcceptedIff(datos, suma, upcase[..]);
    assert upcase[..pos] == upcase[..];
    return 0;
  }
}
