/** The twelve sectors of an exFAT boot region: name, signatures and checksum (sections 3.1 to 3.4 of
    the exFAT specification), before the geometry is looked at. */
module RegionExfat {
  import opened Bytes
  import opened MedioFat
  import opened Particiones
  import opened Geometria
  import opened Mayusculas

  const REGION: nat := 6144
  const SUMADOS: nat := 5632
  const NOMBRE: seq<byte> := [69, 88, 70, 65, 84, 32, 32, 32]
  const FIRMA: nat := 0xaa55_0000

  /** Volume flags and percent in use may change without the checksum changing. */
  predicate SinSumar(k: nat) {
    k == 106 || k == 107 || k == 112
  }

  /** The checksum of the first `n` bytes of a region. */
  function SumaRegion(x: seq<byte>, n: nat): (h: nat)
    requires n <= |x|
    ensures h < DOS32
  {
    if n == 0 then 0
    else if SinSumar(n - 1) then SumaRegion(x, n - 1)
    else Rotar(SumaRegion(x, n - 1), x[n - 1])
  }

  predicate ConNombre(x: seq<byte>)
    requires |x| >= SECTOR
  {
    x[3..11] == NOMBRE
  }

  predicate Firmados(x: seq<byte>, n: nat)
    requires n * SECTOR <= |x|
  {
    forall i :: 1 <= i < n && i <= 8 ==> U32(x, i * SECTOR + 508) == FIRMA
  }

  function Palabra(s: seq<byte>, j: nat): nat
    requires 4 * j + 4 <= |s|
  {
    U32(s, 4 * j)
  }

  /** The first `n` words of the checksum sector. */
  predicate SelloDe(s: seq<byte>, suma: nat, n: nat)
    requires 4 * n <= |s|
  {
    forall j :: 0 <= j < n ==> Palabra(s, j) == suma
  }

  predicate Sellada(x: seq<byte>, suma: nat)
    requires |x| == REGION
  {
    SelloDe(x[SUMADOS..], suma, 128)
  }

  /** What the loop over the twelve sectors says of a region. */
  function CodigoRegion(x: seq<byte>): int
    requires |x| == REGION
  {
    if !ConNombre(x) then VOLUMEN_CORRUPTO
    else if x[108] != 9 then SECTOR_NO_SOPORTADO
    else if !Firmados(x, 12) || !Sellada(x, SumaRegion(x, SUMADOS)) then VOLUMEN_CORRUPTO
    else 0
  }

  /** The whole boot check: the region at `inicio`, then the geometry in its first sector. A region cut
      short by the end of the partition is refused. */
  function Arrancable(p: Medio, inicio: nat): (r: Montaje)
    requires p.ParticionEnDisco()
  {
    if inicio + 12 > p.sectores then
      if inicio < p.sectores && ConNombre(Sectores(p, inicio, 1)) && Sectores(p, inicio, 1)[108] != 9
      then Rechazado(SECTOR_NO_SOPORTADO) else Rechazado(VOLUMEN_CORRUPTO)
    else
      var x := Sectores(p, inicio, 12);
      if CodigoRegion(x) != 0 then Rechazado(CodigoRegion(x)) else BootExfat(p, x[..SECTOR])
  }

  // ----- What the checksum detects -----

  lemma RotationKeepsApart(h: nat, g: nat, b: byte)
    requires h < DOS32 && g < DOS32 && h != g
    ensures Rotar(h, b) != Rotar(g, b)
  {
    assert h / 2 + h % 2 * 0x8000_0000 != g / 2 + g % 2 * 0x8000_0000;
  }

  lemma OtherByteOtherSum(h: nat, a: byte, b: byte)
    requires h < DOS32 && a != b
    ensures Rotar(h, a) != Rotar(h, b)
  {
  }

  lemma {:induction false} SameBytesSameSum(x: seq<byte>, y: seq<byte>, n: nat)
    requires n <= |x| && n <= |y| && forall k :: 0 <= k < n && !SinSumar(k) ==> x[k] == y[k]
    ensures SumaRegion(x, n) == SumaRegion(y, n)
  {
    hide Rotar;
    if n > 0 {
      SameBytesSameSum(x, y, n - 1);
    }
  }

  lemma {:induction false} OneByteChangesSum(x: seq<byte>, y: seq<byte>, n: nat, k: nat)
    requires k < n <= |x| && n <= |y| && !SinSumar(k) && x[k] != y[k]
    requires forall j :: 0 <= j < n && j != k ==> x[j] == y[j]
    ensures SumaRegion(x, n) != SumaRegion(y, n)
  {
    hide Rotar;
    if k == n - 1 {
      SameBytesSameSum(x, y, n - 1);
      OtherByteOtherSum(SumaRegion(x, n - 1), x[k], y[k]);
    } else {
      OneByteChangesSum(x, y, n - 1, k);
      if !SinSumar(n - 1) {
        RotationKeepsApart(SumaRegion(x, n - 1), SumaRegion(y, n - 1), x[n - 1]);
      }
    }
  }

  /** One wrong byte in an accepted region is noticed, the checksum sector included, unless it is in
      the volume flags or the percent in use; and those may be anything. */
  lemma OneByteIsNoticedIff(x: seq<byte>, y: seq<byte>, k: nat)
    requires |x| == |y| == REGION && k < REGION && x[k] != y[k] && CodigoRegion(x) == 0
    requires forall j :: 0 <= j < REGION && j != k ==> x[j] == y[j]
    ensures CodigoRegion(y) != 0 <==> !SinSumar(k)
  {
    hide SumaRegion, U32, Firmados, Sellada;
    if SinSumar(k) {
      SameBytesSameSum(x, y, SUMADOS);
      FlagsAreElsewhere(x, y, k);
    } else if k < SUMADOS {
      OneByteChangesSum(x, y, SUMADOS, k);
      SealTellsSum(x, y);
    } else {
      SameBytesSameSum(x, y, SUMADOS);
      SealTellsByte(x, y, k);
    }
  }

  lemma FlagsAreElsewhere(x: seq<byte>, y: seq<byte>, k: nat)
    requires |x| == |y| == REGION && SinSumar(k) && forall j :: 0 <= j < REGION && j != k ==> x[j] == y[j]
    ensures ConNombre(y) == ConNombre(x) && y[108] == x[108] && (Firmados(x, 12) ==> Firmados(y, 12))
    ensures forall s: nat :: Sellada(x, s) ==> Sellada(y, s)
  {
    assert x[SUMADOS..] == y[SUMADOS..];
  }

  lemma SealTellsSum(x: seq<byte>, y: seq<byte>)
    requires |x| == |y| == REGION && forall j :: SUMADOS <= j < REGION ==> x[j] == y[j]
    requires Sellada(x, SumaRegion(x, SUMADOS)) && SumaRegion(x, SUMADOS) != SumaRegion(y, SUMADOS)
    ensures !Sellada(y, SumaRegion(y, SUMADOS))
  {
    hide SumaRegion;
    assert x[SUMADOS..] == y[SUMADOS..];
    assert Palabra(x[SUMADOS..], 0) == Palabra(y[SUMADOS..], 0);
  }

  lemma SealTellsByte(x: seq<byte>, y: seq<byte>, k: nat)
    requires |x| == |y| == REGION && SUMADOS <= k < REGION && x[k] != y[k]
    requires forall j :: 0 <= j < REGION && j != k ==> x[j] == y[j]
    requires SumaRegion(x, SUMADOS) == SumaRegion(y, SUMADOS) && Sellada(x, SumaRegion(x, SUMADOS))
    ensures !Sellada(y, SumaRegion(y, SUMADOS))
  {
    hide SumaRegion, U32;
    var j := (k - SUMADOS) / 4;
    var u, v := x[SUMADOS..], y[SUMADOS..];
    WordTellsByte(u, v, 4 * j, k - SUMADOS);
    assert Palabra(u, j) != Palabra(v, j);
  }

  lemma WordTellsByte(x: seq<byte>, y: seq<byte>, a: nat, k: nat)
    requires a <= k < a + 4 <= |x| == |y| && x[k] != y[k] && forall j :: a <= j < a + 4 && j != k ==> x[j] == y[j]
    ensures U32(x, a) != U32(y, a)
  {
  }

  // ----- The loop -----

  /** The checks sector by sector. */
  method RevisarRegion(p: Medio, inicio: nat) returns (r: int, cabecera: seq<byte>)
    requires p.ParticionEnDisco()
    ensures r == 0 ==> inicio + 12 <= p.sectores && cabecera == Sectores(p, inicio, 12)[..SECTOR]
    ensures if inicio + 12 <= p.sectores then r == CodigoRegion(Sectores(p, inicio, 12))
            else Arrancable(p, inicio) == Rechazado(r)
  {
    hide SumaRegion, U32, Rotar;
    cabecera := [];
    ghost var x := if inicio + 12 <= p.sectores then Sectores(p, inicio, 12) else [];
    var suma: nat := 0;
    NothingSummed(x);
    var i: nat := 0;
    while i < 12
      invariant i <= 12 && suma < DOS32
      invariant i > 0 ==> inicio + i <= p.sectores && cabecera == Sectores(p, inicio, 1) && ConNombre(cabecera) && cabecera[108] == 9
      invariant x != [] ==> Firmados(x, i) && suma == SumaRegion(x, if i <= 11 then i * SECTOR else SUMADOS)
      invariant x != [] && i == 12 ==> Sellada(x, suma)
    {
      if inicio + i >= p.sectores {
        return VOLUMEN_CORRUPTO, cabecera;
      }
      var s := Sectores(p, inicio + i, 1);
      if x != [] {
        SectorOfRegion(p, inicio, i);
      }
      if i == 0 {
        cabecera := s;
        if x != [] {
          FirstSector(p, inicio);
        }
        if !ConNombre(s) {
          return VOLUMEN_CORRUPTO, cabecera;
        }
        if s[108] != 9 {
          return SECTOR_NO_SOPORTADO, cabecera;
        }
      }
      if 1 <= i <= 8 && U32(s, 508) != FIRMA {
        return VOLUMEN_CORRUPTO, cabecera;
      }
      if i == 11 {
        var bien := RevisarSello(s, suma);
        if !bien {
          return VOLUMEN_CORRUPTO, cabecera;
        }
      } else {
        suma := SumarSector(s, i, suma, x);
      }
      i := i + 1;
    }
    FirstSector(p, inicio);
    return 0, cabecera;
  }

  lemma FirstSector(p: Medio, inicio: nat)
    requires p.ParticionEnDisco() && inicio + 12 <= p.sectores
    ensures var x, s := Sectores(p, inicio, 12), Sectores(p, inicio, 1);
            x[..SECTOR] == s && (ConNombre(x) <==> ConNombre(s)) && x[108] == s[108]
  {
    var x, s := Sectores(p, inicio, 12), Sectores(p, inicio, 1);
    assert x[..SECTOR] == s;
    assert x[3..11] == x[..SECTOR][3..11];
  }

  lemma NothingSummed(x: seq<byte>)
    ensures SumaRegion(x, 0) == 0
  {
  }

  lemma SectorOfRegion(p: Medio, inicio: nat, i: nat)
    requires p.ParticionEnDisco() && inicio + 12 <= p.sectores && i < 12
    ensures var x, s := Sectores(p, inicio, 12), Sectores(p, inicio + i, 1);
            && s == x[i * SECTOR..i * SECTOR + SECTOR]
            && U32(s, 508) == U32(x, i * SECTOR + 508)
            && (i == 11 ==> s == x[SUMADOS..])
  {
    var x, s := Sectores(p, inicio, 12), Sectores(p, inicio + i, 1);
    assert s == x[i * SECTOR..i * SECTOR + SECTOR];
  }

  method RevisarSello(s: seq<byte>, suma: nat) returns (bien: bool)
    requires |s| == SECTOR
    ensures bien <==> SelloDe(s, suma, 128)
  {
    hide U32;
    var j: nat := 0;
    while j < SECTOR
      invariant j <= SECTOR && j % 4 == 0
      invariant SelloDe(s, suma, j / 4)
    {
      if U32(s, j) != suma {
        assert Palabra(s, j / 4) != suma;
        return false;
      }
      j := j + 4;
    }
    return true;
  }

  method SumarSector(s: seq<byte>, i: nat, suma: nat, ghost x: seq<byte>) returns (h: nat)
    requires |s| == SECTOR && suma < DOS32 && i < 11
    requires x != [] ==> |x| == REGION && s == x[i * SECTOR..i * SECTOR + SECTOR] && suma == SumaRegion(x, i * SECTOR)
    ensures h < DOS32 && (x != [] ==> h == SumaRegion(x, i * SECTOR + SECTOR))
  {
    hide Rotar;
    h := suma;
    for j := 0 to SECTOR
      invariant h < DOS32 && (x != [] ==> h == SumaRegion(x, i * SECTOR + j))
    {
      if i > 0 || !SinSumar(j) {
        h := Rotar(h, s[j]);
      }
    }
  }

  /** Whatever is accepted has a sound geometry; see Geometria. */
  lemma BootedIsSound(p: Medio, inicio: nat)
    requires p.ParticionEnDisco() && Arrancable(p, inicio).Listo?
    ensures inicio + 12 <= p.sectores && CodigoRegion(Sectores(p, inicio, 12)) == 0
    ensures var m := Arrancable(p, inicio).m; m.GeometriaValida() && m.Valido(m.raiz) && m.exfat
  {
    hide CodigoRegion, BootExfat;
    ExfatGeometryIsSound(p, Sectores(p, inicio, 12)[..SECTOR]);
  }
}
