/** Finding the partitions of a disk: the GPT, with its two checksums and its backup, and the MBR. */
module Discos {
  import opened Bytes
  import opened MedioFat
  import opened Particiones
  import opened Geometria
  import opened Crc32

  const PARTICIONES_MAX: nat := 128
  const DESCONOCIDO: int := -20
  const CABECERA_MINIMA: nat := 92

  /** A disk of whole sectors, few enough for 32-bit addresses. */
  predicate EsDisco(d: seq<byte>) {
    |d| % SECTOR == 0 && |d| / SECTOR < DOS32
  }

  function Total(d: seq<byte>): nat {
    |d| / SECTOR
  }

  function Sector(d: seq<byte>, lba: nat): (s: seq<byte>)
    requires lba < Total(d)
    ensures |s| == SECTOR
  {
    d[lba * SECTOR..lba * SECTOR + SECTOR]
  }

  // ----- Lists of partitions -----

  datatype Entrada = Entrada(inicio: nat, sectores: nat, numero: nat, esquema: nat)

  predicate Solapa(p: Entrada, inicio: nat, n: nat) {
    inicio < p.inicio + p.sectores && p.inicio < inicio + n
  }

  predicate Apartadas(ps: seq<Entrada>) {
    forall i, j :: 0 <= i < j < |ps| ==> !Solapa(ps[i], ps[j].inicio, ps[j].sectores)
  }

  predicate EnDisco(total: nat, ps: seq<Entrada>) {
    forall i :: 0 <= i < |ps| ==>
      1 <= ps[i].inicio && 1 <= ps[i].sectores && ps[i].inicio + ps[i].sectores <= total
  }

  /** Partitions that lie on the disk, past its first sector, and share no sector. */
  predicate Sana(total: nat, ps: seq<Entrada>) {
    |ps| <= PARTICIONES_MAX && EnDisco(total, ps) && Apartadas(ps)
  }

  predicate AlgunaSolapa(ps: seq<Entrada>, inicio: nat, n: nat) {
    exists i :: 0 <= i < |ps| && Solapa(ps[i], inicio, n)
  }

  function CodigoAgregar(total: nat, ps: seq<Entrada>, inicio: nat, n: nat): int {
    if n == 0 || inicio == 0 || inicio >= total || n > total - inicio then VOLUMEN_CORRUPTO
    else if |ps| == PARTICIONES_MAX then NO_SOPORTADO
    else if AlgunaSolapa(ps, inicio, n) then VOLUMEN_CORRUPTO
    else 0
  }

  /** What a walk over table entries has listed when it ends, or stops at an entry with an error. */
  datatype Recorrido = Recorrido(codigo: int, ps: seq<Entrada>)

  function Agregada(total: nat, ps: seq<Entrada>, p: Entrada): Recorrido {
    var codigo := CodigoAgregar(total, ps, p.inicio, p.sectores);
    Recorrido(codigo, if codigo == 0 then ps + [p] else ps)
  }

  lemma NothingIsSane(total: nat)
    ensures Sana(total, [])
  {
  }

  lemma AddingKeepsSane(total: nat, ps: seq<Entrada>, p: Entrada)
    requires Sana(total, ps)
    ensures Sana(total, Agregada(total, ps, p).ps)
  {
    if CodigoAgregar(total, ps, p.inicio, p.sectores) == 0 {
      forall i | 0 <= i < |ps| ensures !Solapa(ps[i], p.inicio, p.sectores) {
      }
    }
  }

  // ----- GPT -----

  function Tabla(h: seq<byte>): nat requires |h| == SECTOR { U64(h, 72) }
  function Cuantas(h: seq<byte>): nat requires |h| == SECTOR { U32(h, 80) }
  function Ancho(h: seq<byte>): nat requires |h| == SECTOR { U32(h, 84) }
  function Primero(h: seq<byte>): nat requires |h| == SECTOR { U64(h, 40) }
  function Ultimo(h: seq<byte>): nat requires |h| == SECTOR { U64(h, 48) }
  function Alterno(donde: nat, total: nat): int { if donde == 1 then total - 1 else 1 }

  const FIRMA: seq<byte> := [0x45, 0x46, 0x49, 0x20, 0x50, 0x41, 0x52, 0x54]

  predicate Firmada(h: seq<byte>, donde: nat, total: nat)
    requires |h| == SECTOR
  {
    && h[..8] == FIRMA
    && U32(h, 8) == 0x1_0000
    && CABECERA_MINIMA <= U32(h, 12) <= SECTOR
    && U32(h, 20) == 0
    && U64(h, 24) == donde
    && U64(h, 32) < total
    && Primero(h) <= Ultimo(h) < total
  }

  predicate BienSituada(h: seq<byte>, donde: nat, total: nat)
    requires |h| == SECTOR
  {
    var alterno := Alterno(donde, total);
    && U64(h, 32) == alterno
    && 2 <= Primero(h)
    && Ultimo(h) < total - 1
    && !(Primero(h) <= donde <= Ultimo(h))
    && !(Primero(h) <= alterno <= Ultimo(h))
  }

  function SinSello(h: seq<byte>): (r: seq<byte>)
    requires |h| == SECTOR
    ensures |r| == SECTOR
  {
    h[..16] + [0, 0, 0, 0] + h[20..]
  }

  predicate SelloCabecera(h: seq<byte>)
    requires |h| == SECTOR && U32(h, 12) <= SECTOR
  {
    Sellado(SinSello(h), 0, U32(h, 12)) == Campo(h, 16)
  }

  predicate AnchoAdmitido(w: nat) {
    w == 128 || w == 256 || w == 512 || w == 1024 || w == 2048 || w == 4096
  }

  predicate TamanoAdmitido(h: seq<byte>)
    requires |h| == SECTOR
  {
    1 <= Cuantas(h) <= 4096 && AnchoAdmitido(Ancho(h))
  }

  function Largo(h: seq<byte>): nat
    requires |h| == SECTOR
  {
    Por(Cuantas(h), Ancho(h))
  }

  predicate TablaSituada(h: seq<byte>, donde: nat, total: nat)
    requires |h| == SECTOR
  {
    var sectores := (Largo(h) + 511) / 512;
    var alterno := Alterno(donde, total);
    && 0 < Tabla(h) < total
    && sectores <= total - Tabla(h)
    && !(Tabla(h) <= Ultimo(h) && Tabla(h) + sectores > Primero(h))
    && !(Tabla(h) <= donde < Tabla(h) + sectores)
    && !(Tabla(h) <= alterno < Tabla(h) + sectores)
  }

  lemma TableIsOnDisk(d: seq<byte>, h: seq<byte>, donde: nat)
    requires EsDisco(d) && |h| == SECTOR && TablaSituada(h, donde, Total(d))
    ensures Tabla(h) * SECTOR + Largo(h) <= |d|
  {
  }

  predicate SelloTabla(d: seq<byte>, h: seq<byte>)
    requires |h| == SECTOR && Tabla(h) * SECTOR + Largo(h) <= |d|
  {
    Sellado(d, Tabla(h) * SECTOR, Largo(h)) == Campo(h, 88)
  }

  /** The verdict on header and table as a whole. */
  function CodigoCabecera(d: seq<byte>, donde: nat): int
    requires EsDisco(d)
  {
    if donde >= Total(d) then VOLUMEN_CORRUPTO
    else
      var h := Sector(d, donde);
      if !Firmada(h, donde, Total(d)) || !BienSituada(h, donde, Total(d)) || !SelloCabecera(h) then VOLUMEN_CORRUPTO
      else if !TamanoAdmitido(h) then NO_SOPORTADO
      else if !TablaSituada(h, donde, Total(d)) then VOLUMEN_CORRUPTO
      else
        TableIsOnDisk(d, h, donde);
        if !SelloTabla(d, h) then VOLUMEN_CORRUPTO else 0
  }

  /** Where on the disk entry `i` starts. */
  function Lugar(h: seq<byte>, i: nat): nat
    requires |h| == SECTOR
  {
    Tabla(h) * SECTOR + Por(i, Ancho(h))
  }

  predicate Usada(d: seq<byte>, o: nat)
    requires o + 16 <= |d|
  {
    exists k :: o <= k < o + 16 && d[k] != 0
  }

  function Desde(d: seq<byte>, o: nat): nat requires o + 48 <= |d| { U64(d, o + 32) }
  function Hasta(d: seq<byte>, o: nat): nat requires o + 48 <= |d| { U64(d, o + 40) }

  predicate Dentro(h: seq<byte>, d: seq<byte>, o: nat)
    requires |h| == SECTOR && o + 48 <= |d|
  {
    Primero(h) <= Desde(d, o) <= Hasta(d, o) <= Ultimo(h)
  }

  function Listada(d: seq<byte>, o: nat, i: nat): Entrada
    requires o + 48 <= |d|
  {
    Entrada(Desde(d, o), Max(0, Hasta(d, o) - Desde(d, o) + 1), i + 1, 2)
  }

  /** A header whose table is on the disk. */
  predicate ConTabla(d: seq<byte>, h: seq<byte>) {
    |h| == SECTOR && TamanoAdmitido(h) && Tabla(h) * SECTOR + Largo(h) <= |d|
  }

  lemma EntryIsOnDisk(d: seq<byte>, h: seq<byte>, i: nat)
    requires ConTabla(d, h) && i < Cuantas(h)
    ensures Lugar(h, i) + 128 <= |d|
  {
    PorMonotone(i + 1, Cuantas(h), Ancho(h));
  }

  function Recorrer(d: seq<byte>, h: seq<byte>, previas: seq<Entrada>, n: nat): Recorrido
    requires ConTabla(d, h) && n <= Cuantas(h)
  {
    if n == 0 then Recorrido(0, previas)
    else
      var r := Recorrer(d, h, previas, n - 1);
      if r.codigo != 0 then r
      else
        EntryIsOnDisk(d, h, n - 1);
        var o := Lugar(h, n - 1);
        if !Usada(d, o) then r
        else if !Dentro(h, d, o) then Recorrido(VOLUMEN_CORRUPTO, r.ps)
        else Agregada(Total(d), r.ps, Listada(d, o, n - 1))
  }

  /** The whole reading of the GPT whose header is in sector `donde`. */
  function LeidaGpt(d: seq<byte>, donde: nat): Recorrido
    requires EsDisco(d)
  {
    var codigo := CodigoCabecera(d, donde);
    if codigo != 0 then Recorrido(codigo, [])
    else
      var h := Sector(d, donde);
      TableIsOnDisk(d, h, donde);
      Recorrer(d, h, [], Cuantas(h))
  }

  // ----- What an accepted table says -----

  function Lee(d: seq<byte>, h: seq<byte>, i: nat): Entrada
    requires ConTabla(d, h) && i < Cuantas(h)
  {
    EntryIsOnDisk(d, h, i);
    Listada(d, Lugar(h, i), i)
  }

  predicate EnUso(d: seq<byte>, h: seq<byte>, i: nat)
    requires ConTabla(d, h) && i < Cuantas(h)
  {
    EntryIsOnDisk(d, h, i);
    Usada(d, Lugar(h, i))
  }

  predicate Cabe(d: seq<byte>, h: seq<byte>, i: nat)
    requires ConTabla(d, h) && i < Cuantas(h)
  {
    EntryIsOnDisk(d, h, i);
    Dentro(h, d, Lugar(h, i))
  }

  /** The used entries among the first `n`, in order. */
  function Usadas(d: seq<byte>, h: seq<byte>, n: nat): (ps: seq<Entrada>)
    requires ConTabla(d, h) && n <= Cuantas(h)
  {
    if n == 0 then []
    else if EnUso(d, h, n - 1) then Usadas(d, h, n - 1) + [Lee(d, h, n - 1)]
    else Usadas(d, h, n - 1)
  }

  predicate SinChoque(d: seq<byte>, h: seq<byte>, i: nat, j: nat)
    requires ConTabla(d, h) && i < Cuantas(h) && j < Cuantas(h)
  {
    EnUso(d, h, i) && EnUso(d, h, j) ==>
      !Solapa(Lee(d, h, i), Lee(d, h, j).inicio, Lee(d, h, j).sectores)
  }

  /** What the standard asks of the entries in use, and no more of them than the list has room for. */
  predicate Ordenada(d: seq<byte>, h: seq<byte>, n: nat)
    requires ConTabla(d, h) && n <= Cuantas(h)
  {
    && (forall i: nat :: i < n && EnUso(d, h, i) ==> Cabe(d, h, i))
    && (forall i: nat, j: nat :: i < j < n ==> SinChoque(d, h, i, j))
    && |Usadas(d, h, n)| <= PARTICIONES_MAX
  }

  lemma {:induction false} ListedIsUsed(d: seq<byte>, h: seq<byte>, n: nat, k: nat) returns (i: nat)
    requires ConTabla(d, h) && n <= Cuantas(h) && k < |Usadas(d, h, n)|
    ensures i < n && EnUso(d, h, i) && Usadas(d, h, n)[k] == Lee(d, h, i)
  {
    hide ConTabla, EnUso, Lee;
    if k == |Usadas(d, h, n)| - 1 && EnUso(d, h, n - 1) {
      return n - 1;
    }
    i := ListedIsUsed(d, h, n - 1, k);
  }

  lemma {:induction false} UsedIsListed(d: seq<byte>, h: seq<byte>, n: nat, i: nat) returns (k: nat)
    requires ConTabla(d, h) && i < n <= Cuantas(h) && EnUso(d, h, i)
    ensures k < |Usadas(d, h, n)| && Usadas(d, h, n)[k] == Lee(d, h, i)
  {
    hide ConTabla, EnUso, Lee;
    if i == n - 1 {
      return |Usadas(d, h, n)| - 1;
    }
    k := UsedIsListed(d, h, n - 1, i);
  }

  lemma ClashIff(d: seq<byte>, h: seq<byte>, n: nat)
    requires ConTabla(d, h) && n < Cuantas(h) && EnUso(d, h, n)
    ensures AlgunaSolapa(Usadas(d, h, n), Lee(d, h, n).inicio, Lee(d, h, n).sectores)
            <==> exists i: nat :: i < n && !SinChoque(d, h, i, n)
  {
    hide ConTabla, EnUso, Lee, Usadas, Solapa;
    var ps, p := Usadas(d, h, n), Lee(d, h, n);
    if AlgunaSolapa(ps, p.inicio, p.sectores) {
      var k: nat :| k < |ps| && Solapa(ps[k], p.inicio, p.sectores);
      var i := ListedIsUsed(d, h, n, k);
      assert !SinChoque(d, h, i, n);
    }
    if i: nat :| i < n && !SinChoque(d, h, i, n) {
      var k := UsedIsListed(d, h, n, i);
      assert Solapa(ps[k], p.inicio, p.sectores);
    }
  }

  lemma OrderedStep(d: seq<byte>, h: seq<byte>, n: nat)
    requires ConTabla(d, h) && n < Cuantas(h)
    ensures Ordenada(d, h, n + 1) <==>
            && Ordenada(d, h, n)
            && (EnUso(d, h, n) ==>
                  && Cabe(d, h, n) && |Usadas(d, h, n)| < PARTICIONES_MAX
                  && !exists i: nat :: i < n && !SinChoque(d, h, i, n))
    ensures Ordenada(d, h, n) ==> |Usadas(d, h, n)| <= PARTICIONES_MAX
  {
    hide ConTabla, EnUso, Lee, Cabe, Solapa;
  }

  lemma WalkStep(d: seq<byte>, h: seq<byte>, n: nat)
    requires ConTabla(d, h) && n < Cuantas(h)
    ensures var r := Recorrer(d, h, [], n);
            Recorrer(d, h, [], n + 1)
            == if r.codigo != 0 || !EnUso(d, h, n) then r
               else if !Cabe(d, h, n) then Recorrido(VOLUMEN_CORRUPTO, r.ps)
               else Agregada(Total(d), r.ps, Lee(d, h, n))
  {
    hide ConTabla, Usada, Dentro, Listada, Agregada, Lugar;
  }

  /** The walk over the table succeeds if and only if the entries in use lie in the usable range,
      share no sector and fit the list; it then lists exactly those, in order. */
  lemma {:induction false} ListsExactlyTheUsed(d: seq<byte>, h: seq<byte>, n: nat)
    requires ConTabla(d, h) && n <= Cuantas(h) && 0 < Primero(h) && Ultimo(h) < Total(d)
    ensures Recorrer(d, h, [], n).codigo == 0 <==> Ordenada(d, h, n)
    ensures Recorrer(d, h, [], n).codigo == 0 ==> Recorrer(d, h, [], n).ps == Usadas(d, h, n)
  {
    hide ConTabla, EnUso, Cabe, Lee, AlgunaSolapa, SinChoque, Ordenada, Recorrer, Primero, Ultimo;
    if n == 0 {
      NothingWalked(d, h);
    } else {
      ListsExactlyTheUsed(d, h, n - 1);
      OrderedStep(d, h, n - 1);
      WalkStep(d, h, n - 1);
      if EnUso(d, h, n - 1) && Cabe(d, h, n - 1) {
        RangeIsOnDisk(d, h, n - 1);
        ClashIff(d, h, n - 1);
      }
    }
  }

  lemma NothingWalked(d: seq<byte>, h: seq<byte>)
    requires ConTabla(d, h)
    ensures Recorrer(d, h, [], 0) == Recorrido(0, []) && Ordenada(d, h, 0) && Usadas(d, h, 0) == []
  {
  }

  lemma RangeIsOnDisk(d: seq<byte>, h: seq<byte>, i: nat)
    requires ConTabla(d, h) && i < Cuantas(h) && Cabe(d, h, i) && 0 < Primero(h) && Ultimo(h) < Total(d)
    ensures var p := Lee(d, h, i); 0 < p.inicio < Total(d) && 0 < p.sectores <= Total(d) - p.inicio
  {
    hide U64;
  }

  lemma {:induction false} WalkKeepsSane(d: seq<byte>, h: seq<byte>, n: nat)
    requires ConTabla(d, h) && n <= Cuantas(h)
    ensures Sana(Total(d), Recorrer(d, h, [], n).ps)
  {
    hide ConTabla, EnUso, Cabe, Lee, Sana, Recorrer, Agregada;
    if n == 0 {
      NothingWalked(d, h);
      NothingIsSane(Total(d));
    } else {
      WalkKeepsSane(d, h, n - 1);
      WalkStep(d, h, n - 1);
      AddingKeepsSane(Total(d), Recorrer(d, h, [], n - 1).ps, Lee(d, h, n - 1));
    }
  }

  // ----- Damage -----

  predicate IgualesSalvo(d: seq<byte>, e: seq<byte>, k: nat) {
    k < |d| == |e| && d[k] != e[k] && forall j :: 0 <= j < |d| && j != k ==> d[j] == e[j]
  }

  lemma OtherSectorsSame(d: seq<byte>, e: seq<byte>, k: nat, lba: nat)
    requires IgualesSalvo(d, e, k) && lba < Total(d) && !(lba * SECTOR <= k < lba * SECTOR + SECTOR)
    ensures Sector(d, lba) == Sector(e, lba)
  {
  }

  /** One wrong byte anywhere in the table: refused, and so the backup is tried. */
  lemma DamagedTableIsRefused(d: seq<byte>, e: seq<byte>, donde: nat, k: nat)
    requires EsDisco(d) && CodigoCabecera(d, donde) == 0 && IgualesSalvo(d, e, k)
    requires var h := Sector(d, donde); Tabla(h) * SECTOR <= k < Tabla(h) * SECTOR + Largo(h)
    ensures CodigoCabecera(e, donde) == VOLUMEN_CORRUPTO
  {
    hide Firmada, BienSituada, SelloCabecera, TamanoAdmitido, Largo, Tabla, Campo, U32, U64, Crc;
    var h := Sector(d, donde);
    OtherSectorsSame(d, e, k, donde);
    TableIsOnDisk(d, h, donde);
    OneByteIsDetected(0xffff_ffff, d, e, Tabla(h) * SECTOR, Largo(h), k);
  }

  /** So is one wrong byte in the header, its checksum included, unless it is in the length that
      says how much of the header is summed. */
  lemma DamagedHeaderIsRefused(d: seq<byte>, e: seq<byte>, donde: nat, k: nat)
    requires EsDisco(d) && CodigoCabecera(d, donde) == 0 && IgualesSalvo(d, e, k)
    requires donde * SECTOR <= k < donde * SECTOR + U32(Sector(d, donde), 12)
    requires !(donde * SECTOR + 12 <= k < donde * SECTOR + 16)
    ensures CodigoCabecera(e, donde) == VOLUMEN_CORRUPTO
  {
    hide BienSituada, TamanoAdmitido, TablaSituada, SelloTabla, Campo, U64, Crc, Largo;
    var h, g, j := Sector(d, donde), Sector(e, donde), k - donde * SECTOR;
    assert IgualesSalvo(h, g, j);
    assert U32(g, 12) == U32(h, 12);
    if Firmada(g, donde, Total(e)) && SelloCabecera(g) {
      if 16 <= j < 20 {
        assert SinSello(g) == SinSello(h);
        FieldIsInjective(h, g, 16);
      } else {
        assert g[16..20] == h[16..20];
        SameField(h, g, 16);
        OneByteIsDetected(0xffff_ffff, SinSello(h), SinSello(g), 0, U32(h, 12), j);
      }
    }
  }

  lemma SameField(h: seq<byte>, g: seq<byte>, k: nat)
    requires |h| == |g| && k + 4 <= |h| && forall j :: k <= j < k + 4 ==> h[j] == g[j]
    ensures Campo(h, k) == Campo(g, k)
  {
    hide Palabra;
  }

  predicate IgualesEntre(d: seq<byte>, e: seq<byte>, a: nat, b: nat) {
    |d| == |e| && forall j :: a <= j < b && j < |d| ==> d[j] == e[j]
  }

  lemma SameSizeSameTable(d: seq<byte>, e: seq<byte>, h: seq<byte>)
    requires ConTabla(d, h) && |d| == |e|
    ensures ConTabla(e, h)
  {
  }

  lemma {:induction false} SameWalk(d: seq<byte>, e: seq<byte>, h: seq<byte>, n: nat)
    requires ConTabla(d, h) && |d| == |e| && n <= Cuantas(h)
    requires IgualesEntre(d, e, Tabla(h) * SECTOR, Tabla(h) * SECTOR + Largo(h))
    ensures Recorrer(d, h, [], n) == Recorrer(e, h, [], n)
  {
    hide ConTabla, EnUso, Cabe, Lee, Recorrer, Agregada, IgualesEntre;
    SameSizeSameTable(d, e, h);
    if n == 0 {
      NothingWalked(d, h);
      NothingWalked(e, h);
    } else {
      SameWalk(d, e, h, n - 1);
      WalkStep(d, h, n - 1);
      WalkStep(e, h, n - 1);
      SameEntry(d, e, h, n - 1);
    }
  }

  lemma SameEntry(d: seq<byte>, e: seq<byte>, h: seq<byte>, i: nat)
    requires ConTabla(d, h) && |d| == |e| && i < Cuantas(h)
    requires IgualesEntre(d, e, Tabla(h) * SECTOR, Tabla(h) * SECTOR + Largo(h))
    ensures EnUso(d, h, i) == EnUso(e, h, i) && Cabe(d, h, i) == Cabe(e, h, i) && Lee(d, h, i) == Lee(e, h, i)
  {
    hide Tabla, Cuantas, Ancho, Primero, Ultimo;
    EntryIsOnDisk(d, h, i);
    PorMonotone(i + 1, Cuantas(h), Ancho(h));
    var o := Lugar(h, i);
    SameFields(d, e, o);
  }

  lemma SameFields(d: seq<byte>, e: seq<byte>, o: nat)
    requires o + 48 <= |d| == |e| && IgualesEntre(d, e, o, o + 48)
    ensures Usada(d, o) == Usada(e, o) && Desde(d, o) == Desde(e, o) && Hasta(d, o) == Hasta(e, o)
  {
  }

  lemma SameSum(d: seq<byte>, e: seq<byte>, a: nat, n: nat)
    requires a + n <= |d| && IgualesEntre(d, e, a, a + n)
    ensures Sellado(d, a, n) == Sellado(e, a, n)
  {
    hide Crc, Sellado;
    SameBytesSameSeal(d, e, a, n);
  }

  lemma SameSeal(d: seq<byte>, e: seq<byte>, h: seq<byte>)
    requires |h| == SECTOR && Tabla(h) * SECTOR + Largo(h) <= |d| == |e|
    requires IgualesEntre(d, e, Tabla(h) * SECTOR, Tabla(h) * SECTOR + Largo(h))
    ensures SelloTabla(d, h) == SelloTabla(e, h)
  {
    hide Largo, Tabla, Campo, Sellado, IgualesEntre;
    SameSum(d, e, Tabla(h) * SECTOR, Largo(h));
  }

  /** The reading depends on the header sector and on the bytes of the table, and on nothing else. */
  lemma SameReading(d: seq<byte>, e: seq<byte>, donde: nat)
    requires EsDisco(d) && |d| == |e| && CodigoCabecera(d, donde) == 0 && Sector(d, donde) == Sector(e, donde)
    requires var h := Sector(d, donde);
             IgualesEntre(d, e, Tabla(h) * SECTOR, Tabla(h) * SECTOR + Largo(h))
    ensures LeidaGpt(d, donde) == LeidaGpt(e, donde)
  {
    hide Firmada, BienSituada, SelloCabecera, SelloTabla, Recorrer, Largo, Tabla, Cuantas, IgualesEntre;
    var h := Sector(d, donde);
    TableIsOnDisk(d, h, donde);
    SameSeal(d, e, h);
    SameWalk(d, e, h, Cuantas(h));
  }

  // ----- Primary and backup, or MBR -----

  const PRIMERA_MBR: nat := 446

  predicate Protector(s: seq<byte>)
    requires |s| == SECTOR
  {
    s[450] == 0xee || s[466] == 0xee || s[482] == 0xee || s[498] == 0xee
  }

  function DescubiertaGpt(d: seq<byte>): (Recorrido, bool)
    requires EsDisco(d) && 1 <= Total(d)
  {
    var primaria := LeidaGpt(d, 1);
    var elegida := if primaria.codigo == VOLUMEN_CORRUPTO then LeidaGpt(d, Total(d) - 1) else primaria;
    (if elegida.codigo == 0 then elegida else Recorrido(elegida.codigo, []),
     primaria.codigo == VOLUMEN_CORRUPTO && elegida.codigo == 0)
  }

  /** The first `n` entries of the MBR in sector `s`. */
  function RecorrerMbr(total: nat, s: seq<byte>, n: nat): Recorrido
    requires |s| == SECTOR && n <= 4
  {
    if n == 0 then Recorrido(0, [])
    else
      var r := RecorrerMbr(total, s, n - 1);
      var o := PRIMERA_MBR + (n - 1) * 16;
      if r.codigo != 0 || s[o + 4] == 0 then r
      else if s[o] != 0 && s[o] != 0x80 then Recorrido(VOLUMEN_CORRUPTO, r.ps)
      else if s[o + 4] == 5 || s[o + 4] == 15 || s[o + 4] == 0x85 then Recorrido(NO_SOPORTADO, r.ps)
      else
        var a := Agregada(total, r.ps, Entrada(U32(s, o + 8), U32(s, o + 12), n, 1));
        if a.codigo == 0 then a else Recorrido(a.codigo, [])
  }

  function Descubierta(d: seq<byte>): (Recorrido, bool)
    requires EsDisco(d)
  {
    if Total(d) == 0 then (Recorrido(VOLUMEN_CORRUPTO, []), false)
    else
      var s := Sector(d, 0);
      if s[510] != 0x55 || s[511] != 0xaa then (Recorrido(VOLUMEN_CORRUPTO, []), false)
      else
        var (r, recuperado) := if Protector(s) then DescubiertaGpt(d) else (RecorrerMbr(Total(d), s, 4), false);
        (if r.codigo == 0 && r.ps == [] then Recorrido(DESCONOCIDO, []) else r, recuperado)
  }

  lemma {:induction false} MbrIsSane(total: nat, s: seq<byte>, n: nat)
    requires |s| == SECTOR && n <= 4
    ensures Sana(total, RecorrerMbr(total, s, n).ps)
  {
    hide Sana, Agregada, U32;
    NothingIsSane(total);
    if n > 0 {
      MbrIsSane(total, s, n - 1);
      var o := PRIMERA_MBR + (n - 1) * 16;
      AddingKeepsSane(total, RecorrerMbr(total, s, n - 1).ps, Entrada(U32(s, o + 8), U32(s, o + 12), n, 1));
    }
  }

  lemma GptIsSane(d: seq<byte>, donde: nat)
    requires EsDisco(d)
    ensures Sana(Total(d), LeidaGpt(d, donde).ps)
  {
    hide Sana, CodigoCabecera;
    NothingIsSane(Total(d));
    if CodigoCabecera(d, donde) == 0 {
      HeaderGivesTable(d, donde);
      WalkKeepsSane(d, Sector(d, donde), Cuantas(Sector(d, donde)));
    }
  }

  lemma HeaderGivesTable(d: seq<byte>, donde: nat)
    requires EsDisco(d) && CodigoCabecera(d, donde) == 0
    ensures donde < Total(d) && ConTabla(d, Sector(d, donde))
    ensures 0 < Primero(Sector(d, donde)) && Ultimo(Sector(d, donde)) < Total(d)
  {
    TableIsOnDisk(d, Sector(d, donde), donde);
  }

  /** Whatever the disk holds, the partitions found lie on it and share no sector: each is a
      partition the readers can be given. */
  lemma FoundPartitionsAreSound(d: seq<byte>, k: nat, m: Medio)
    requires EsDisco(d) && k < |Descubierta(d).0.ps|
    requires var p := Descubierta(d).0.ps[k]; m.disco == d && m.inicio == p.inicio && m.sectores == p.sectores
    ensures Sana(Total(d), Descubierta(d).0.ps) && m.ParticionEnDisco()
  {
    FoundIsSane(d);
  }

  lemma FoundIsSane(d: seq<byte>)
    requires EsDisco(d)
    ensures Sana(Total(d), Descubierta(d).0.ps)
  {
    hide Sana, LeidaGpt, RecorrerMbr;
    NothingIsSane(Total(d));
    if Total(d) > 0 {
      GptIsSane(d, 1);
      GptIsSane(d, Total(d) - 1);
      MbrIsSane(Total(d), Sector(d, 0), 4);
    }
  }

  predicate EnOrden(d: seq<byte>, donde: nat)
    requires EsDisco(d) && CodigoCabecera(d, donde) == 0
  {
    HeaderGivesTable(d, donde);
    Ordenada(d, Sector(d, donde), Cuantas(Sector(d, donde)))
  }

  function EntradasGpt(d: seq<byte>, donde: nat): seq<Entrada>
    requires EsDisco(d) && CodigoCabecera(d, donde) == 0
  {
    HeaderGivesTable(d, donde);
    Usadas(d, Sector(d, donde), Cuantas(Sector(d, donde)))
  }

  /** A GPT is accepted if and only if header and table pass their checks and the entries in use
      are in order; the list is then exactly those. */
  lemma GptIsReadIff(d: seq<byte>, donde: nat)
    requires EsDisco(d)
    ensures LeidaGpt(d, donde).codigo == 0 <==> CodigoCabecera(d, donde) == 0 && EnOrden(d, donde)
    ensures LeidaGpt(d, donde).codigo == 0 ==> LeidaGpt(d, donde).ps == EntradasGpt(d, donde)
  {
    hide CodigoCabecera, Ordenada, Usadas, Recorrer, Primero, Ultimo, Cuantas, ConTabla, Sector;
    if CodigoCabecera(d, donde) == 0 {
      HeaderGivesTable(d, donde);
      ListsExactlyTheUsed(d, Sector(d, donde), Cuantas(Sector(d, donde)));
    }
  }

  /** A wrong byte in the table of the primary, outside that of a good backup, does no harm: the
      partitions found are those of the backup. */
  lemma BackupSurvivesDamage(d: seq<byte>, e: seq<byte>, k: nat)
    requires EsDisco(d) && 2 <= Total(d) && IgualesSalvo(d, e, k)
    requires CodigoCabecera(d, 1) == 0 && LeidaGpt(d, Total(d) - 1).codigo == 0
    requires var h := Sector(d, 1); Tabla(h) * SECTOR <= k < Tabla(h) * SECTOR + Largo(h)
    requires var g := Sector(d, Total(d) - 1); !(Tabla(g) * SECTOR <= k < Tabla(g) * SECTOR + Largo(g))
    ensures DescubiertaGpt(e) == (LeidaGpt(d, Total(d) - 1), true)
  {
    hide Recorrer, Firmada, SelloCabecera, SelloTabla, Largo, Tabla, TamanoAdmitido, U64, U32;
    DamagedTableIsRefused(d, e, 1, k);
    var g := Sector(d, Total(d) - 1);
    TableIsOnDisk(d, g, Total(d) - 1);
    OtherSectorsSame(d, e, k, Total(d) - 1);
    SameReading(d, e, Total(d) - 1);
  }

  // ----- The loops -----

  method RevisarCabecera(h: seq<byte>) returns (ok: bool)
    requires |h| == SECTOR && U32(h, 12) <= SECTOR
    ensures ok == SelloCabecera(h)
  {
    hide Crc, Campo, U32, SinSello;
    var c := SeguirCrc(0xffff_ffff, SinSello(h), U32(h, 12));
    return Invertir(c) == Campo(h, 16);
  }

  method RevisarTabla(d: seq<byte>, h: seq<byte>) returns (ok: bool)
    requires EsDisco(d) && |h| == SECTOR && Tabla(h) * SECTOR + Largo(h) <= |d|
    ensures ok == SelloTabla(d, h)
  {
    hide Tabla, Largo, Sellado, Campo;
    var c := SumarTabla(d, h);
    return c == Campo(h, 88);
  }

  /** The checksum of the table, a sector at a time. */
  method SumarTabla(d: seq<byte>, h: seq<byte>) returns (c: bv32)
    requires EsDisco(d) && |h| == SECTOR && Tabla(h) * SECTOR + Largo(h) <= |d|
    ensures c == Sellado(d, Tabla(h) * SECTOR, Largo(h))
  {
    hide Tabla, Largo, Crc;
    var inicio, largo := Tabla(h) * SECTOR, Largo(h);
    NothingSummed(0xffff_ffff, d, inicio);
    c := 0xffff_ffff;
    var hecho: nat := 0;
    while hecho < largo
      invariant hecho <= largo && (hecho % SECTOR == 0 || hecho == largo)
      invariant c == Crc(0xffff_ffff, d, inicio, hecho)
    {
      var n: nat := Min(largo - hecho, SECTOR);
      var s := Sector(d, Tabla(h) + hecho / SECTOR);
      CrcOfSlice(c, d, inicio + hecho, SECTOR, n);
      CrcContinues(0xffff_ffff, d, inicio, hecho, n);
      c := SeguirCrc(c, s, n);
      hecho := hecho + n;
    }
    c := Invertir(c);
  }

  /** The checks on header and table, in the order of the source. */
  method Comprobar(d: seq<byte>, donde: nat) returns (codigo: int)
    requires EsDisco(d)
    ensures codigo == CodigoCabecera(d, donde)
  {
    hide Firmada, BienSituada, TamanoAdmitido, TablaSituada, SelloCabecera, SelloTabla, Largo, Tabla, U32, Sector;
    if donde >= Total(d) {
      return VOLUMEN_CORRUPTO;
    }
    var h := Sector(d, donde);
    if !Firmada(h, donde, Total(d)) || !BienSituada(h, donde, Total(d)) {
      return VOLUMEN_CORRUPTO;
    }
    HeaderLength(h, donde, Total(d));
    var ok := RevisarCabecera(h);
    if !ok {
      return VOLUMEN_CORRUPTO;
    }
    if !TamanoAdmitido(h) {
      return NO_SOPORTADO;
    }
    if !TablaSituada(h, donde, Total(d)) {
      return VOLUMEN_CORRUPTO;
    }
    TableIsOnDisk(d, h, donde);
    ok := RevisarTabla(d, h);
    return if ok then 0 else VOLUMEN_CORRUPTO;
  }

  class Particionado {
    var entradas: seq<Entrada>
    var recuperado: bool

    constructor ()
      ensures entradas == [] && !recuperado
    {
      entradas, recuperado := [], false;
    }

    method Agregar(total: nat, p: Entrada) returns (r: int)
      modifies this`entradas
      ensures Recorrido(r, entradas) == Agregada(total, old(entradas), p)
    {
      if p.sectores == 0 || p.inicio == 0 || p.inicio >= total || p.sectores > total - p.inicio {
        return VOLUMEN_CORRUPTO;
      }
      if |entradas| == PARTICIONES_MAX {
        return NO_SOPORTADO;
      }
      for i := 0 to |entradas|
        invariant entradas == old(entradas)
        invariant forall j :: 0 <= j < i ==> !Solapa(entradas[j], p.inicio, p.sectores)
      {
        if Solapa(entradas[i], p.inicio, p.sectores) {
          return VOLUMEN_CORRUPTO;
        }
      }
      entradas := entradas + [p];
      return 0;
    }

    /** The entries of an accepted header, each read from the one sector that holds its start. */
    method LeerEntradas(d: seq<byte>, h: seq<byte>) returns (r: int)
      requires EsDisco(d) && |h| == SECTOR && ConTabla(d, h) && entradas == []
      modifies this`entradas
      ensures Recorrido(r, entradas) == Recorrer(d, h, [], Cuantas(h))
    {
      hide ConTabla, Recorrer, Agregada, Usada, Dentro, Listada, Por, Tabla, Cuantas, Ancho;
      r := 0;
      NothingWalked(d, h);
      for i: nat := 0 to Cuantas(h)
        invariant Recorrido(0, entradas) == Recorrer(d, h, [], i)
      {
        WalkStep(d, h, i);
        EntryIsOnDisk(d, h, i);
        EntryInOneSector(d, h, i);
        var s := Sector(d, Tabla(h) + Por(i, Ancho(h)) / SECTOR);
        var o := Por(i, Ancho(h)) % SECTOR;
        if Usada(s, o) {
          if !Dentro(h, s, o) {
            r := VOLUMEN_CORRUPTO;
          } else {
            r := Agregar(Total(d), Listada(s, o, i));
          }
          if r != 0 {
            ErrorStays(d, h, i + 1, Cuantas(h));
            return;
          }
        }
      }
    }

    /** Reads the GPT whose header is in sector `donde`. */
    method Gpt(d: seq<byte>, donde: nat) returns (r: int)
      requires EsDisco(d) && entradas == []
      modifies this`entradas
      ensures Recorrido(r, entradas) == LeidaGpt(d, donde)
    {
      hide CodigoCabecera, Recorrer, Cuantas, ConTabla, Sector;
      r := Comprobar(d, donde);
      if r == 0 {
        HeaderGivesTable(d, donde);
        r := LeerEntradas(d, Sector(d, donde));
      }
    }

    method Mbr(total: nat, s: seq<byte>) returns (r: int)
      requires |s| == SECTOR && entradas == []
      modifies this`entradas
      ensures Recorrido(r, entradas) == RecorrerMbr(total, s, 4)
    {
      hide Agregada, U32;
      r := 0;
      for i: nat := 0 to 4
        invariant Recorrido(0, entradas) == RecorrerMbr(total, s, i)
      {
        var o := PRIMERA_MBR + i * 16;
        if s[o + 4] != 0 {
          if s[o] != 0 && s[o] != 0x80 {
            r := VOLUMEN_CORRUPTO;
          } else if s[o + 4] == 5 || s[o + 4] == 15 || s[o + 4] == 0x85 {
            r := NO_SOPORTADO;
          } else {
            r := Agregar(total, Entrada(U32(s, o + 8), U32(s, o + 12), i + 1, 1));
            if r != 0 {
              entradas := [];
            }
          }
          if r != 0 {
            MbrErrorStays(total, s, i + 1);
            return;
          }
        }
      }
    }

    /** Finds the partitions of a disk that is not one volume as a whole. */
    method Descubrir(d: seq<byte>) returns (r: int)
      requires EsDisco(d)
      modifies this
      ensures (Recorrido(r, entradas), recuperado) == Descubierta(d)
      ensures Sana(Total(d), entradas)
    {
      hide LeidaGpt, RecorrerMbr, Sana;
      FoundIsSane(d);
      entradas, recuperado := [], false;
      if Total(d) == 0 {
        return VOLUMEN_CORRUPTO;
      }
      var s := Sector(d, 0);
      if s[510] != 0x55 || s[511] != 0xaa {
        return VOLUMEN_CORRUPTO;
      }
      if Protector(s) {
        r := Gpt(d, 1);
        if r == VOLUMEN_CORRUPTO {
          entradas := [];
          r := Gpt(d, Total(d) - 1);
          if r == 0 {
            recuperado := true;
          }
        }
        if r != 0 {
          entradas := [];
          return;
        }
      } else {
        r := Mbr(Total(d), s);
        if r != 0 {
          return;
        }
      }
      if entradas == [] {
        return DESCONOCIDO;
      }
    }
  }

  lemma {:induction false} MultipleOf128(i: nat, w: nat)
    requires w % 128 == 0
    ensures Por(i, w) % 128 == 0
  {
    if i > 0 {
      MultipleOf128(i - 1, w);
    }
  }

  lemma LateStart(w: nat)
    requires w % 128 == 0
    ensures w % SECTOR + 128 <= SECTOR
  {
    assert w % SECTOR % 128 == 0;
  }

  lemma SectorBytes(d: seq<byte>, lba: nat, o: nat)
    requires lba < Total(d) && o + 48 <= SECTOR
    ensures lba * SECTOR + o + 48 <= |d|
    ensures Sector(d, lba)[o..o + 48] == d[lba * SECTOR + o..lba * SECTOR + o + 48]
  {
    var p := lba * SECTOR + o;
    var x, y := Sector(d, lba)[o..o + 48], d[p..p + 48];
    assert forall k :: 0 <= k < 48 ==> x[k] == y[k];
  }

  lemma FieldsOfPiece(d: seq<byte>, o: nat)
    requires o + 48 <= |d|
    ensures Usada(d, o) == Usada(d[o..o + 48], 0)
    ensures Desde(d, o) == U64(d[o..o + 48], 32) && Hasta(d, o) == U64(d[o..o + 48], 40)
  {
    var e := d[o..o + 48];
    if Usada(d, o) {
      var k :| o <= k < o + 16 && d[k] != 0;
      assert e[k - o] != 0;
    }
  }

  lemma FieldsOfSector(d: seq<byte>, lba: nat, o: nat)
    requires lba < Total(d) && o + 48 <= SECTOR
    ensures lba * SECTOR + o + 48 <= |d|
    ensures Usada(Sector(d, lba), o) == Usada(d, lba * SECTOR + o)
    ensures Desde(Sector(d, lba), o) == Desde(d, lba * SECTOR + o)
    ensures Hasta(Sector(d, lba), o) == Hasta(d, lba * SECTOR + o)
  {
    hide Usada, Desde, Hasta, Sector, U64;
    SectorBytes(d, lba, o);
    FieldsOfPiece(d, lba * SECTOR + o);
    FieldsOfPiece(Sector(d, lba), o);
  }

  /** The fields of an entry never run past the sector its first byte is in. */
  lemma EntryInOneSector(d: seq<byte>, h: seq<byte>, i: nat)
    requires EsDisco(d) && ConTabla(d, h) && i < Cuantas(h)
    ensures var lba, o := Tabla(h) + Por(i, Ancho(h)) / SECTOR, Por(i, Ancho(h)) % SECTOR;
            && lba < Total(d) && o + 48 <= SECTOR
            && Usada(Sector(d, lba), o) == EnUso(d, h, i)
            && Dentro(h, Sector(d, lba), o) == Cabe(d, h, i)
            && Listada(Sector(d, lba), o, i) == Lee(d, h, i)
  {
    hide Tabla, Cuantas, Primero, Ultimo, Por, Desde, Hasta, Sector, Usada;
    EntryIsOnDisk(d, h, i);
    MultipleOf128(i, Ancho(h));
    var w := Por(i, Ancho(h));
    LateStart(w);
    FieldsOfSector(d, Tabla(h) + w / SECTOR, w % SECTOR);
  }

  lemma NothingSummed(c: bv32, d: seq<byte>, a: nat)
    requires a <= |d|
    ensures Crc(c, d, a, 0) == c
  {
  }

  lemma HeaderLength(h: seq<byte>, donde: nat, total: nat)
    requires |h| == SECTOR && Firmada(h, donde, total)
    ensures U32(h, 12) <= SECTOR
  {
  }

  lemma {:induction false} ErrorStays(d: seq<byte>, h: seq<byte>, a: nat, b: nat)
    requires ConTabla(d, h) && a <= b <= Cuantas(h) && Recorrer(d, h, [], a).codigo != 0
    ensures Recorrer(d, h, [], b) == Recorrer(d, h, [], a)
    decreases b
  {
    hide ConTabla, Recorrer, EnUso, Cabe, Lee, Agregada;
    if a < b {
      ErrorStays(d, h, a, b - 1);
      WalkStep(d, h, b - 1);
    }
  }

  lemma {:induction false} MbrErrorStays(total: nat, s: seq<byte>, a: nat)
    requires |s| == SECTOR && a <= 4 && RecorrerMbr(total, s, a).codigo != 0
    ensures RecorrerMbr(total, s, 4) == RecorrerMbr(total, s, a)
    decreases 4 - a
  {
    hide Agregada, U32;
    if a < 4 {
      MbrErrorStays(total, s, a + 1);
    }
  }
}
