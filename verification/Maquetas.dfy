/** Sectors laid out field by field, as the standards tabulate them: what the readers make of a boot
    sector, a partition table or a header when each field holds what a formatter put there. */
module Maquetas {
  import opened Bytes
  import opened Bits
  import opened CorridasNtfs
  import opened MedioFat
  import opened Geometria
  import opened Particiones
  import R = RegionExfat
  import opened Discos
  import Crc32

  /** A field of a table: where it starts, how many bytes it has, and the number in it. */
  datatype Campo = Campo(lugar: nat, ancho: nat, valor: nat)

  /** The fields follow one another without a gap, and each number fits its field. */
  predicate Seguidos(cs: seq<Campo>) {
    EnFila(cs) && Caben(cs)
  }

  predicate EnFila(cs: seq<Campo>) {
    && (|cs| > 0 ==> cs[0].lugar == 0)
    && forall i: nat, j: nat :: i < |cs| && j == i + 1 && j < |cs| ==> cs[j].lugar == cs[i].lugar + cs[i].ancho
  }

  predicate Caben(cs: seq<Campo>) {
    forall i: nat :: i < |cs| ==> cs[i].valor < Pot256(cs[i].ancho)
  }

  /** The bytes of the fields, lowest byte first. */
  function Maqueta(cs: seq<Campo>): (s: seq<byte>) {
    if cs == [] then []
    else Maqueta(cs[..|cs| - 1]) + EnBytes(cs[|cs| - 1].valor, cs[|cs| - 1].ancho)
  }

  lemma {:induction false} LayoutLength(cs: seq<Campo>)
    requires Seguidos(cs) && |cs| > 0
    ensures |Maqueta(cs)| == cs[|cs| - 1].lugar + cs[|cs| - 1].ancho
  {
    hide EnBytes, Pot256;
    var u := |cs| - 1;
    if u > 0 {
      LayoutLength(cs[..u]);
    } else {
      assert cs[..u] == [];
    }
  }

  /** Every field is found where the table puts it. */
  lemma {:induction false} FieldIsThere(cs: seq<Campo>, i: nat)
    requires Seguidos(cs) && i < |cs|
    ensures cs[i].lugar + cs[i].ancho <= |Maqueta(cs)|
    ensures Maqueta(cs)[cs[i].lugar..cs[i].lugar + cs[i].ancho] == EnBytes(cs[i].valor, cs[i].ancho)
    decreases |cs|
  {
    hide EnBytes, Pot256;
    var u := |cs| - 1;
    LayoutLength(cs);
    if i < u {
      FieldIsThere(cs[..u], i);
    } else if u > 0 {
      LayoutLength(cs[..u]);
    }
  }

  lemma NumbersAreValues(s: seq<byte>, k: nat)
    ensures k + 1 <= |s| ==> Valor(s[k..k + 1]) == s[k]
    ensures k + 2 <= |s| ==> Valor(s[k..k + 2]) == U16(s, k)
    ensures k + 4 <= |s| ==> Valor(s[k..k + 4]) == U32(s, k)
    ensures k + 8 <= |s| ==> Valor(s[k..k + 8]) == U64(s, k)
  {
    hide Valor, U16, U32, U64;
    if k + 1 <= |s| {
      OneByte(s, k);
    }
    if k + 2 <= |s| {
      TwoBytes(s, k);
    }
    if k + 4 <= |s| {
      FourBytes(s, k);
    }
    if k + 8 <= |s| {
      EightBytes(s, k);
    }
  }

  lemma OneByte(s: seq<byte>, k: nat)
    requires k + 1 <= |s|
    ensures Valor(s[k..k + 1]) == s[k]
  {
    FirstByte(s, k, 1);
    assert s[k + 1..k + 1] == [];
  }

  lemma FirstByte(s: seq<byte>, k: nat, n: nat)
    requires n > 0 && k + n <= |s|
    ensures Valor(s[k..k + n]) == s[k] + 256 * Valor(s[k + 1..k + n])
  {
    assert s[k..k + n][1..] == s[k + 1..k + n];
  }

  lemma TwoBytes(s: seq<byte>, k: nat)
    requires k + 2 <= |s|
    ensures Valor(s[k..k + 2]) == U16(s, k)
  {
    hide Valor;
    FirstByte(s, k, 2);
    OneByte(s, k + 1);
  }

  lemma FourBytes(s: seq<byte>, k: nat)
    requires k + 4 <= |s|
    ensures Valor(s[k..k + 4]) == U32(s, k)
  {
    hide Valor;
    TwoBytes(s, k + 2);
    FirstByte(s, k, 4);
    FirstByte(s, k + 1, 3);
  }

  lemma EightBytes(s: seq<byte>, k: nat)
    requires k + 8 <= |s|
    ensures Valor(s[k..k + 8]) == U64(s, k)
  {
    hide Valor;
    FourBytes(s, k + 4);
    FirstByte(s, k, 8);
    FirstByte(s, k + 1, 7);
    FirstByte(s, k + 2, 6);
    FirstByte(s, k + 3, 5);
  }

  /** A field is read back as the number it was given, by the reader of its width. */
  lemma FieldIsRead(cs: seq<Campo>, i: nat)
    requires Seguidos(cs) && i < |cs|
    ensures var c, s := cs[i], Maqueta(cs);
            && c.lugar + c.ancho <= |s|
            && (c.ancho == 1 ==> s[c.lugar] == c.valor)
            && (c.ancho == 2 ==> U16(s, c.lugar) == c.valor)
            && (c.ancho == 4 ==> U32(s, c.lugar) == c.valor)
            && (c.ancho == 8 ==> U64(s, c.lugar) == c.valor)
            && (c.valor == 0 ==> CerosEntre(s, c.lugar, c.lugar + c.ancho))
  {
    hide Maqueta, EnBytes, Valor, U16, U32, U64, Pot256;
    var c, s := cs[i], Maqueta(cs);
    FieldIsThere(cs, i);
    BytesRoundTrip(c.valor, c.ancho);
    NumbersAreValues(s, c.lugar);
    if c.valor == 0 {
      ZeroBytes(c.ancho);
      var z := s[c.lugar..c.lugar + c.ancho];
      assert z == EnBytes(0, c.ancho);
      forall j | c.lugar <= j < c.lugar + c.ancho ensures s[j] == 0 {
        assert z[j - c.lugar] == 0;
      }
    }
  }

  lemma {:induction false} ZeroBytes(n: nat)
    ensures forall j :: 0 <= j < n ==> EnBytes(0, n)[j] == 0
  {
    if n > 0 {
      ZeroBytes(n - 1);
    }
  }

  lemma Widths()
    ensures Pot256(1) == 0x100 && Pot256(2) == DOS16 && Pot256(4) == DOS32 && Pot256(8) == DOS64
    ensures Pot256(3) == 0x100_0000
  {
    assert Pot256(4) == 256 * Pot256(3);
    assert Pot256(6) == 256 * Pot256(5);
  }

  // ----- The exFAT boot sector, section 3.1 of the exFAT specification -----

  datatype Exfat = Exfat(desplazamiento: nat, sectores: nat, fat: nat, sectoresFat: nat, datos: nat, clusters: nat,
                         raiz: nat, serie: nat, banderas: nat, exponente: nat, unidad: nat, uso: nat, codigo: nat)

  function CamposExfat(c: Exfat): seq<Campo> {
    [Campo(0, 3, 0x9076eb), Campo(3, 8, 0x2020_2054_4146_5845), Campo(11, 53, 0), Campo(64, 8, c.desplazamiento),
     Campo(72, 8, c.sectores), Campo(80, 4, c.fat), Campo(84, 4, c.sectoresFat), Campo(88, 4, c.datos),
     Campo(92, 4, c.clusters), Campo(96, 4, c.raiz), Campo(100, 4, c.serie), Campo(104, 2, 0x100),
     Campo(106, 2, c.banderas), Campo(108, 1, 9), Campo(109, 1, c.exponente), Campo(110, 1, 1), Campo(111, 1, c.unidad),
     Campo(112, 1, c.uso), Campo(113, 7, 0), Campo(120, 390, c.codigo), Campo(510, 2, 0xaa55)]
  }

  predicate CabeExfat(c: Exfat) {
    && c.desplazamiento < DOS64 && c.sectores < DOS64 && c.fat < DOS32 && c.sectoresFat < DOS32 && c.datos < DOS32
    && c.clusters < DOS32 && c.raiz < DOS32 && c.serie < DOS32 && c.banderas < DOS16 && c.exponente < 0x100
    && c.unidad < 0x100 && c.uso < 0x100 && c.codigo < Pot256(390)
  }

  lemma ExfatFieldsFollow(c: Exfat)
    requires CabeExfat(c)
    ensures Seguidos(CamposExfat(c)) && |Maqueta(CamposExfat(c))| == 512
  {
    hide Pot256;
    ExfatFieldsInRow(c);
    ExfatValuesFit(c);
    LayoutLength(CamposExfat(c));
  }

  lemma ExfatFieldsInRow(c: Exfat)
    ensures EnFila(CamposExfat(c))
  {
  }

  lemma ExfatValuesFit(c: Exfat)
    requires CabeExfat(c)
    ensures Caben(CamposExfat(c))
  {
    hide Pot256;
    Widths();
  }

  /** A geometry that fits the partition, with as many clusters as there is room for. */
  predicate MontableExfat(p: Medio, c: Exfat) {
    && c.exponente <= 16
    && 2048 <= c.sectores <= p.sectores && 24 <= c.fat && 0 < c.sectoresFat && c.fat + c.sectoresFat <= c.datos < c.sectores
    && 1 <= c.clusters <= 0xffff_fff5 && 2 <= c.raiz < c.clusters + 2
    && (c.clusters + 2) * 4 <= c.sectoresFat * 512
    && c.clusters * Doble(c.exponente) <= c.sectores - c.datos
    && (c.clusters == 0xffff_fff5 || c.sectores - c.datos < (c.clusters + 1) * Doble(c.exponente))
    && (c.desplazamiento == 0 || c.desplazamiento == p.inicio)
    && c.banderas % 2 == 0 && (c.uso <= 100 || c.uso == 255)
  }

  /** A boot sector with these fields is accepted exactly when the geometry fits, and is mounted as it
      says. */
  lemma ExfatBootIsRead(p: Medio, c: Exfat)
    requires CabeExfat(c)
    ensures |Maqueta(CamposExfat(c))| == 512
    ensures BootExfat(p, Maqueta(CamposExfat(c))).Listo? <==> MontableExfat(p, c)
    ensures MontableExfat(p, c) ==>
              BootExfat(p, Maqueta(CamposExfat(c))) ==
              Listo(Medio(p.disco, p.inicio, p.sectores, true, c.fat, c.sectoresFat, c.datos, c.clusters,
                          Doble(c.exponente), Doble(c.exponente) * 512, c.raiz))
  {
    hide Maqueta, CamposExfat, U16, U32, U64, CerosEntre, Doble;
    ExfatFieldsFollow(c);
    ExfatFieldsRead(c);
    if c.sectores >= c.datos && c.clusters <= 0xffff_fff5 {
      ClustersThatFit(c.clusters, Doble(c.exponente), c.sectores - c.datos);
    }
  }

  lemma ClustersThatFit(n: nat, k: nat, x: nat)
    requires k > 0 && n <= 0xffff_fff5
    ensures n * k <= x && (n == 0xffff_fff5 || x < (n + 1) * k) <==> n == Min(x / k, 0xffff_fff5)
  {
    var q := x / k;
    assert q * k + x % k == x && (q + 1) * k == q * k + k && (n + 1) * k == n * k + k;
    if q < n {
      MulMonotone(q + 1, n, k);
    } else if q > n {
      MulMonotone(n + 1, q, k);
    }
  }

  lemma ExfatFieldsRead(c: Exfat)
    requires CabeExfat(c)
    ensures var s := Maqueta(CamposExfat(c));
            && |s| == 512 && s[0] == 0xeb && s[1] == 0x76 && s[2] == 0x90 && CerosEntre(s, 11, 64)
            && U64(s, 64) == c.desplazamiento && U64(s, 72) == c.sectores && U32(s, 80) == c.fat
            && U32(s, 84) == c.sectoresFat && U32(s, 88) == c.datos && U32(s, 92) == c.clusters && U32(s, 96) == c.raiz
            && U16(s, 104) == 0x100 && U16(s, 106) == c.banderas && s[109] == c.exponente && s[110] == 1
            && s[112] == c.uso && U16(s, 510) == 0xaa55
  {
    hide Maqueta, U16, U32, U64, CerosEntre, Seguidos, CabeExfat;
    ExfatFieldsFollow(c);
    var cs := CamposExfat(c);
    FieldIsThere(cs, 0);
    JumpBytes(Maqueta(cs));
    FieldIsRead(cs, 2);
    FieldIsRead(cs, 3);
    FieldIsRead(cs, 4);
    FieldIsRead(cs, 5);
    FieldIsRead(cs, 6);
    FieldIsRead(cs, 7);
    FieldIsRead(cs, 8);
    FieldIsRead(cs, 9);
    FieldIsRead(cs, 11);
    FieldIsRead(cs, 12);
    FieldIsRead(cs, 14);
    FieldIsRead(cs, 15);
    FieldIsRead(cs, 17);
    FieldIsRead(cs, 20);
  }

  lemma JumpBytes(s: seq<byte>)
    requires |s| >= 3 && s[0..0 + 3] == EnBytes(0x9076eb, 3)
    ensures s[0] == 0xeb && s[1] == 0x76 && s[2] == 0x90
  {
    assert EnBytes(0x9076eb, 3)[1..] == EnBytes(0x9076, 2);
    assert EnBytes(0x9076, 2)[1..] == EnBytes(0x90, 1);
    var t := s[0..0 + 3];
    assert t[0] == s[0] && t[1] == s[1] && t[2] == s[2];
  }

  /** The rest of a boot region: sectors 1 to 8 end in a signature, and the last one is full of the
      checksum. */
  predicate RegionEscrita(x: seq<byte>, c: Exfat) {
    && |x| == 12 * 512 && CabeExfat(c) && x[..512] == Maqueta(CamposExfat(c))
    && (forall i :: 1 <= i <= 8 ==> x[i * 512 + 508..i * 512 + 512] == [0, 0, 0x55, 0xaa])
    && forall j :: 0 <= j < 128 ==> x[11 * 512 + 4 * j..11 * 512 + 4 * j + 4] == EnBytes(R.SumaRegion(x, 11 * 512), 4)
  }

  lemma SignatureNumber(x: seq<byte>, k: nat)
    requires k + 4 <= |x| && x[k..k + 4] == [0, 0, 0x55, 0xaa]
    ensures U32(x, k) == 0xaa55_0000
  {
    var t := x[k..k + 4];
    assert t[0] == x[k] && t[1] == x[k + 1] && t[2] == x[k + 2] && t[3] == x[k + 3];
  }

  lemma SealNumber(x: seq<byte>, k: nat, v: nat)
    requires k + 4 <= |x| && v < DOS32 && x[k..k + 4] == EnBytes(v, 4)
    ensures U32(x, k) == v
  {
    hide EnBytes, Valor, U32;
    Widths();
    BytesRoundTrip(v, 4);
    FourBytes(x, k);
  }

  lemma NameIsThere(c: Exfat)
    requires CabeExfat(c)
    ensures |Maqueta(CamposExfat(c))| == 512 && Maqueta(CamposExfat(c))[3..11] == R.NOMBRE
    ensures Maqueta(CamposExfat(c))[108] == 9
  {
    hide Maqueta, U16, U32, U64, CerosEntre, Seguidos, CabeExfat, EnBytes;
    ExfatFieldsFollow(c);
    FieldIsThere(CamposExfat(c), 1);
    FieldIsRead(CamposExfat(c), 13);
    NameBytes();
  }

  /** "EXFAT   ", as a number of eight bytes. */
  lemma NameBytes()
    ensures EnBytes(0x2020_2054_4146_5845, 8) == R.NOMBRE
  {
    hide EnBytes;
    LowestByte(0x2020_2054_4146_5845, 8);
    LowestByte(0x20_2020_5441_4658, 7);
    LowestByte(0x2020_2054_4146, 6);
    LowestByte(0x20_2020_5441, 5);
    LowestByte(0x2020_2054, 4);
    LowestByte(0x20_2020, 3);
    LowestByte(0x2020, 2);
    LowestByte(0x20, 1);
    NoBytes();
  }

  /** A boot region written like that is accepted, whatever its flags; what decides is its geometry. */
  lemma WrittenRegionIsBooted(p: Medio, inicio: nat, c: Exfat)
    requires p.ParticionEnDisco() && inicio + 12 <= p.sectores && RegionEscrita(Sectores(p, inicio, 12), c)
    ensures R.Arrancable(p, inicio) == BootExfat(p, Maqueta(CamposExfat(c)))
  {
    hide Maqueta, U32, EnBytes, R.SumaRegion, BootExfat, CamposExfat, CabeExfat;
    var x := Sectores(p, inicio, 12);
    NameIsThere(c);
    assert x[3..11] == x[..512][3..11] && x[108] == x[..512][108];
    forall i | 1 <= i < 12 && i <= 8 ensures U32(x, i * SECTOR + 508) == R.FIRMA {
      SignatureNumber(x, i * SECTOR + 508);
    }
    var s, v := x[R.SUMADOS..], R.SumaRegion(x, R.SUMADOS);
    forall j | 0 <= j < 128 ensures R.Palabra(s, j) == v {
      assert s[4 * j..4 * j + 4] == x[R.SUMADOS + 4 * j..R.SUMADOS + 4 * j + 4];
      SealNumber(s, 4 * j, v);
    }
  }

  // ----- The FAT32 boot sector -----

  datatype Fat32 = Fat32(salto: nat, oem: nat, sectoresCluster: nat, reservados: nat, tablas: nat, medio: nat, geometria: nat,
                         sectores: nat, sectoresFat: nat, banderas: nat, raiz: nat, resto: nat)

  function CamposFat32(c: Fat32): seq<Campo> {
    [Campo(0, 3, c.salto), Campo(3, 8, c.oem), Campo(11, 2, 512), Campo(13, 1, c.sectoresCluster),
     Campo(14, 2, c.reservados), Campo(16, 1, c.tablas), Campo(17, 2, 0), Campo(19, 2, 0), Campo(21, 1, c.medio),
     Campo(22, 2, 0), Campo(24, 8, c.geometria), Campo(32, 4, c.sectores), Campo(36, 4, c.sectoresFat),
     Campo(40, 2, c.banderas), Campo(42, 2, 0), Campo(44, 4, c.raiz), Campo(48, 462, c.resto), Campo(510, 2, 0xaa55)]
  }

  predicate CabeFat32(c: Fat32) {
    && c.salto < 0x100_0000 && c.oem < DOS64 && c.sectoresCluster < 0x100 && c.reservados < DOS16 && c.tablas < 0x100
    && c.medio < 0x100 && c.geometria < DOS64 && c.sectores < DOS32 && c.sectoresFat < DOS32 && c.banderas < DOS16
    && c.raiz < DOS32 && c.resto < Pot256(462)
  }

  lemma Fat32FieldsFollow(c: Fat32)
    requires CabeFat32(c)
    ensures Seguidos(CamposFat32(c)) && |Maqueta(CamposFat32(c))| == 512
  {
    hide Pot256;
    Fat32FieldsInRow(c);
    Fat32ValuesFit(c);
    LayoutLength(CamposFat32(c));
  }

  lemma Fat32FieldsInRow(c: Fat32)
    ensures EnFila(CamposFat32(c))
  {
  }

  lemma Fat32ValuesFit(c: Fat32)
    requires CabeFat32(c)
    ensures Caben(CamposFat32(c))
  {
    hide Pot256;
    Widths();
  }

  lemma Fat32FieldsRead(c: Fat32)
    requires CabeFat32(c)
    ensures |Maqueta(CamposFat32(c))| == 512 && DiceFat32(c, Maqueta(CamposFat32(c)))
  {
    hide Maqueta, U16, U32, U64, CerosEntre, Seguidos, CabeFat32;
    Fat32FieldsFollow(c);
    var cs := CamposFat32(c);
    FieldIsRead(cs, 2);
    FieldIsRead(cs, 3);
    FieldIsRead(cs, 4);
    FieldIsRead(cs, 5);
    FieldIsRead(cs, 6);
    FieldIsRead(cs, 7);
    FieldIsRead(cs, 9);
    FieldIsRead(cs, 11);
    FieldIsRead(cs, 12);
    FieldIsRead(cs, 13);
    FieldIsRead(cs, 14);
    FieldIsRead(cs, 15);
    FieldIsRead(cs, 17);
  }

  /** The FAT in use: the first one, or with mirroring off the one that the low four bits name. */
  predicate EnServicio(banderas: nat, tablas: nat, cual: nat) {
    cual < tablas && if banderas / 128 % 2 == 1 then banderas % 16 == cual else cual == 0
  }

  /** The sector after `k` of the FATs. */
  function Tras(c: Fat32, k: nat): nat {
    c.reservados + k * c.sectoresFat
  }

  /** A geometry of `n` clusters that fits the partition. */
  predicate MontableFat32(p: Medio, c: Fat32, n: nat, cual: nat) {
    && c.sectoresCluster in POTENCIAS && c.reservados > 0 && 1 <= c.tablas <= 2 && c.sectoresFat > 0
    && Tras(c, c.tablas) + n * c.sectoresCluster <= c.sectores < Tras(c, c.tablas) + (n + 1) * c.sectoresCluster
    && c.sectores <= p.sectores && 65525 <= n <= 0x0fff_fff5 && (n + 2) * 4 <= c.sectoresFat * 512
    && 2 <= c.raiz < n + 2 && EnServicio(c.banderas, c.tablas, cual)
  }

  /** A boot sector with these fields is accepted exactly when some number of clusters, the whole number
      that there is room for, fits; and it is mounted with it. */
  lemma Fat32BootIsRead(p: Medio, c: Fat32)
    requires CabeFat32(c)
    ensures |Maqueta(CamposFat32(c))| == 512
    ensures BootFat32(p, Maqueta(CamposFat32(c))).Listo? <==> exists n: nat, k: nat :: MontableFat32(p, c, n, k)
    ensures forall n: nat, k: nat :: MontableFat32(p, c, n, k) ==>
              BootFat32(p, Maqueta(CamposFat32(c))) ==
              Listo(Medio(p.disco, p.inicio, p.sectores, false, Tras(c, k), c.sectoresFat, Tras(c, c.tablas), n,
                          c.sectoresCluster, c.sectoresCluster * 512, c.raiz))
  {
    hide Maqueta, CamposFat32, U16, U32, CabeFat32, MontableFat32, BootFat32, Tras;
    Fat32FieldsRead(c);
    forall n: nat, k: nat | MontableFat32(p, c, n, k)
      ensures BootFat32(p, Maqueta(CamposFat32(c))) ==
              Listo(Medio(p.disco, p.inicio, p.sectores, false, Tras(c, k), c.sectoresFat, Tras(c, c.tablas), n,
                          c.sectoresCluster, c.sectoresCluster * 512, c.raiz))
    {
      MountableIsMounted(p, c, Maqueta(CamposFat32(c)), n, k);
    }
    if BootFat32(p, Maqueta(CamposFat32(c))).Listo? {
      var n, k := MountedIsMountable(p, c, Maqueta(CamposFat32(c)));
    }
  }

  predicate DiceFat32(c: Fat32, s: seq<byte>)
    requires |s| == 512
  {
    && U16(s, 11) == 512 && s[13] == c.sectoresCluster && U16(s, 14) == c.reservados
    && s[16] == c.tablas && U16(s, 17) == 0 && U16(s, 19) == 0 && U16(s, 22) == 0 && U32(s, 32) == c.sectores
    && U32(s, 36) == c.sectoresFat && U16(s, 40) == c.banderas && U16(s, 42) == 0 && U32(s, 44) == c.raiz
    && U16(s, 510) == 0xaa55
  }

  lemma MountableIsMounted(p: Medio, c: Fat32, s: seq<byte>, n: nat, cual: nat)
    requires |s| == 512 && DiceFat32(c, s) && MontableFat32(p, c, n, cual)
    ensures BootFat32(p, s) ==
            Listo(Medio(p.disco, p.inicio, p.sectores, false, Tras(c, cual), c.sectoresFat, Tras(c, c.tablas), n,
                        c.sectoresCluster, c.sectoresCluster * 512, c.raiz))
  {
    hide U16, U32;
    var k, x := c.sectoresCluster, c.sectores - Tras(c, c.tablas);
    assert (n + 1) * k == n * k + k;
    DivModUnique(x, k, n, x - n * k);
    MulMonotone(65525, n, k);
  }

  lemma MountedIsMountable(p: Medio, c: Fat32, s: seq<byte>) returns (n: nat, cual: nat)
    requires |s| == 512 && DiceFat32(c, s) && BootFat32(p, s).Listo?
    ensures MontableFat32(p, c, n, cual)
  {
    hide U16, U32;
    var k, x := c.sectoresCluster, c.sectores - Tras(c, c.tablas);
    n := x / k;
    assert n * k + x % k == x && (n + 1) * k == n * k + k;
    cual := if c.banderas / 128 % 2 == 1 then c.banderas % 16 else 0;
  }

  // ----- The MBR -----

  /** One of the four entries; a type of 0 means that it is not used. */
  datatype Particion = Particion(estado: nat, tipo: nat, cabezas: nat, cilindros: nat, inicio: nat, sectores: nat)

  function CamposMbr(codigo: nat, a: Particion, b: Particion, c: Particion, d: Particion): seq<Campo> {
    [Campo(0, 446, codigo),
     Campo(446, 1, a.estado), Campo(447, 3, a.cabezas), Campo(450, 1, a.tipo), Campo(451, 3, a.cilindros),
     Campo(454, 4, a.inicio), Campo(458, 4, a.sectores),
     Campo(462, 1, b.estado), Campo(463, 3, b.cabezas), Campo(466, 1, b.tipo), Campo(467, 3, b.cilindros),
     Campo(470, 4, b.inicio), Campo(474, 4, b.sectores),
     Campo(478, 1, c.estado), Campo(479, 3, c.cabezas), Campo(482, 1, c.tipo), Campo(483, 3, c.cilindros),
     Campo(486, 4, c.inicio), Campo(490, 4, c.sectores),
     Campo(494, 1, d.estado), Campo(495, 3, d.cabezas), Campo(498, 1, d.tipo), Campo(499, 3, d.cilindros),
     Campo(502, 4, d.inicio), Campo(506, 4, d.sectores),
     Campo(510, 2, 0xaa55)]
  }

  predicate CabeParticion(p: Particion) {
    && p.estado < 0x100 && p.tipo < 0x100 && p.cabezas < 0x100_0000 && p.cilindros < 0x100_0000 && p.inicio < DOS32
    && p.sectores < DOS32
  }

  /** Entry `i` of the MBR in sector `s` says so. */
  predicate Dice(s: seq<byte>, i: nat, p: Particion)
    requires |s| == SECTOR && i < 4
  {
    var o := PRIMERA_MBR + i * 16;
    s[o] == p.estado && s[o + 4] == p.tipo && U32(s, o + 8) == p.inicio && U32(s, o + 12) == p.sectores
  }

  lemma MbrFieldsInRow(codigo: nat, a: Particion, b: Particion, c: Particion, d: Particion)
    ensures EnFila(CamposMbr(codigo, a, b, c, d))
  {
  }

  lemma MbrValuesFit(codigo: nat, a: Particion, b: Particion, c: Particion, d: Particion)
    requires codigo < Pot256(446) && CabeParticion(a) && CabeParticion(b) && CabeParticion(c) && CabeParticion(d)
    ensures Caben(CamposMbr(codigo, a, b, c, d))
  {
    hide Pot256;
    Widths();
  }

  lemma MbrFieldsRead(codigo: nat, a: Particion, b: Particion, c: Particion, d: Particion)
    requires codigo < Pot256(446) && CabeParticion(a) && CabeParticion(b) && CabeParticion(c) && CabeParticion(d)
    ensures var s := Maqueta(CamposMbr(codigo, a, b, c, d));
            |s| == SECTOR && s[510] == 0x55 && s[511] == 0xaa && Dice(s, 0, a) && Dice(s, 1, b) && Dice(s, 2, c) && Dice(s, 3, d)
  {
    hide Maqueta, U32, CerosEntre, EnFila, Caben, CabeParticion, Pot256;
    var cs := CamposMbr(codigo, a, b, c, d);
    MbrFieldsInRow(codigo, a, b, c, d);
    MbrValuesFit(codigo, a, b, c, d);
    LayoutLength(cs);
    FieldIsRead(cs, 1);
    FieldIsRead(cs, 3);
    FieldIsRead(cs, 5);
    FieldIsRead(cs, 6);
    FieldIsRead(cs, 7);
    FieldIsRead(cs, 9);
    FieldIsRead(cs, 11);
    FieldIsRead(cs, 12);
    FieldIsRead(cs, 13);
    FieldIsRead(cs, 15);
    FieldIsRead(cs, 17);
    FieldIsRead(cs, 18);
    FieldIsRead(cs, 19);
    FieldIsRead(cs, 21);
    FieldIsRead(cs, 23);
    FieldIsRead(cs, 24);
    FieldIsRead(cs, 25);
  }

  /** An entry that is not used, or a plain partition that lies on the disk past its first sector. */
  predicate Corriente(total: nat, p: Particion) {
    p.tipo != 0 ==>
      && (p.estado == 0 || p.estado == 0x80) && p.tipo != 5 && p.tipo != 15 && p.tipo != 0x85
      && 1 <= p.inicio && 1 <= p.sectores && p.inicio + p.sectores <= total
  }

  predicate Ajenas(p: Particion, q: Particion) {
    p.tipo != 0 && q.tipo != 0 ==> p.inicio + p.sectores <= q.inicio || q.inicio + q.sectores <= p.inicio
  }

  /** The partitions that a formatter put in the first `n` entries, in order. */
  function EnLista(ps: seq<Particion>, n: nat): seq<Entrada>
    requires n <= |ps|
  {
    if n == 0 then []
    else if ps[n - 1].tipo == 0 then EnLista(ps, n - 1)
    else EnLista(ps, n - 1) + [Entrada(ps[n - 1].inicio, ps[n - 1].sectores, n, 1)]
  }

  lemma {:induction false} ListedOnce(ps: seq<Particion>, n: nat)
    requires n <= |ps|
    ensures |EnLista(ps, n)| <= n
    ensures forall k :: 0 <= k < |EnLista(ps, n)| ==>
              exists i :: 0 <= i < n && ps[i].tipo != 0 && EnLista(ps, n)[k].inicio == ps[i].inicio
                          && EnLista(ps, n)[k].sectores == ps[i].sectores
  {
    if n > 0 {
      ListedOnce(ps, n - 1);
    }
  }

  /** The first `n` entries are plain partitions that share no sector. */
  predicate Buena(total: nat, ps: seq<Particion>, n: nat)
    requires n <= |ps|
  {
    && (forall i :: 0 <= i < n ==> Corriente(total, ps[i]))
    && forall i, j :: 0 <= i < j < n ==> Ajenas(ps[i], ps[j])
  }

  lemma {:induction false} MbrIsListed(total: nat, s: seq<byte>, ps: seq<Particion>, n: nat)
    requires |s| == SECTOR && |ps| == 4 && n <= 4
    requires forall i :: 0 <= i < 4 ==> Dice(s, i, ps[i])
    ensures RecorrerMbr(total, s, n).codigo == 0 <==> Buena(total, ps, n)
    ensures Buena(total, ps, n) ==> RecorrerMbr(total, s, n).ps == EnLista(ps, n)
  {
    hide U32, Buena, AlgunaSolapa, EnLista, Ajenas;
    ListNext(ps, n);
    if n > 0 {
      MbrIsListed(total, s, ps, n - 1);
      ListedOnce(ps, n - 1);
      var p := ps[n - 1];
      assert Dice(s, n - 1, p);
      OneMore(total, ps, n);
      if Buena(total, ps, n - 1) && p.tipo != 0 && Corriente(total, p) {
        OverlapIff(ps, n - 1, p);
      }
    }
  }

  /** The first entry that is not in order decides the verdict: a container of further partitions is not
      supported, and anything else is a damaged table. */
  lemma {:induction false} FirstBadEntryTells(total: nat, s: seq<byte>, ps: seq<Particion>, n: nat, m: nat)
    requires |s| == SECTOR && |ps| == 4 && n < m <= 4 && (forall i :: 0 <= i < 4 ==> Dice(s, i, ps[i]))
    requires Buena(total, ps, n) && !Buena(total, ps, n + 1)
    ensures var contenedor := ps[n].tipo == 5 || ps[n].tipo == 15 || ps[n].tipo == 0x85;
            RecorrerMbr(total, s, m).codigo ==
            if (ps[n].estado == 0 || ps[n].estado == 0x80) && contenedor then NO_SOPORTADO else VOLUMEN_CORRUPTO
  {
    hide U32, Buena, AlgunaSolapa, EnLista, Ajenas;
    if m == n + 1 {
      MbrIsListed(total, s, ps, n);
      MbrIsListed(total, s, ps, n + 1);
      ListedOnce(ps, n);
    } else {
      FirstBadEntryTells(total, s, ps, n, m - 1);
    }
  }

  lemma ListNext(ps: seq<Particion>, n: nat)
    requires n <= |ps|
    ensures n == 0 ==> EnLista(ps, n) == [] && forall total: nat :: Buena(total, ps, n)
    ensures n > 0 ==>
              EnLista(ps, n) == EnLista(ps, n - 1) + if ps[n - 1].tipo == 0 then [] else [Entrada(ps[n - 1].inicio, ps[n - 1].sectores, n, 1)]
  {
  }

  lemma OneMore(total: nat, ps: seq<Particion>, n: nat)
    requires 0 < n <= |ps|
    ensures Buena(total, ps, n) <==>
            Buena(total, ps, n - 1) && Corriente(total, ps[n - 1]) && forall i :: 0 <= i < n - 1 ==> Ajenas(ps[i], ps[n - 1])
    ensures Buena(total, ps, n - 1) ==> forall i :: 0 <= i < n - 1 && ps[i].tipo != 0 ==> ps[i].sectores > 0
    ensures ps[n - 1].tipo == 0 ==> forall i :: 0 <= i < n - 1 ==> Ajenas(ps[i], ps[n - 1])
  {
  }

  lemma {:induction false} OverlapIff(ps: seq<Particion>, n: nat, p: Particion)
    requires n <= |ps| && p.tipo != 0 && p.sectores > 0 && forall i :: 0 <= i < n && ps[i].tipo != 0 ==> ps[i].sectores > 0
    ensures AlgunaSolapa(EnLista(ps, n), p.inicio, p.sectores) <==> exists i :: 0 <= i < n && !Ajenas(ps[i], p)
  {
    ListNext(ps, n);
    hide EnLista;
    if n > 0 {
      OverlapIff(ps, n - 1, p);
      var a, b, q := EnLista(ps, n - 1), EnLista(ps, n), ps[n - 1];
      if q.tipo == 0 {
        assert b == a && Ajenas(q, p);
      } else {
        var e := Entrada(q.inicio, q.sectores, n, 1);
        assert Solapa(e, p.inicio, p.sectores) <==> !Ajenas(q, p);
        assert b[|b| - 1] == e && forall k :: 0 <= k < |a| ==> b[k] == a[k];
        if AlgunaSolapa(a, p.inicio, p.sectores) {
          var k :| 0 <= k < |a| && Solapa(a[k], p.inicio, p.sectores);
          assert Solapa(b[k], p.inicio, p.sectores);
        }
        if Solapa(e, p.inicio, p.sectores) {
          assert Solapa(b[|b| - 1], p.inicio, p.sectores);
        }
      }
    }
  }

  /** A disk whose first sector is an MBR with these entries: they are found, and nothing else. */
  lemma WrittenMbrIsFound(d: seq<byte>, codigo: nat, ps: seq<Particion>)
    requires EsDisco(d) && Total(d) > 0 && |ps| == 4 && codigo < Pot256(446)
    requires (forall i :: 0 <= i < 4 ==> CabeParticion(ps[i]) && ps[i].tipo != 0xee) && Buena(Total(d), ps, 4)
    requires d[..SECTOR] == Maqueta(CamposMbr(codigo, ps[0], ps[1], ps[2], ps[3]))
    ensures Descubierta(d) ==
            (Recorrido(if EnLista(ps, 4) == [] then DESCONOCIDO else 0, EnLista(ps, 4)), false)
  {
    hide Maqueta, RecorrerMbr, EnLista, U32, Ajenas, CabeParticion, Pot256;
    MbrFieldsRead(codigo, ps[0], ps[1], ps[2], ps[3]);
    assert Sector(d, 0) == d[..SECTOR];
    MbrIsListed(Total(d), Sector(d, 0), ps, 4);
  }

  // ----- The GPT, section 5.3 of the UEFI specification -----

  datatype Gpt = Gpt(alterno: nat, primero: nat, ultimo: nat, disco: nat, tabla: nat, cuantas: nat, ancho: nat,
                     sello: nat, selloTabla: nat, resto: nat)

  function CamposGpt(donde: nat, g: Gpt): seq<Campo> {
    [Campo(0, 8, 0x5452_4150_2049_4645), Campo(8, 4, 0x1_0000), Campo(12, 4, 92), Campo(16, 4, g.sello), Campo(20, 4, 0),
     Campo(24, 8, donde), Campo(32, 8, g.alterno), Campo(40, 8, g.primero), Campo(48, 8, g.ultimo), Campo(56, 16, g.disco),
     Campo(72, 8, g.tabla), Campo(80, 4, g.cuantas), Campo(84, 4, g.ancho), Campo(88, 4, g.selloTabla),
     Campo(92, 420, g.resto)]
  }

  predicate CabeGpt(donde: nat, g: Gpt) {
    && donde < DOS64 && g.alterno < DOS64 && g.primero < DOS64 && g.ultimo < DOS64 && g.disco < Pot256(16)
    && g.tabla < DOS64 && g.cuantas < DOS32 && g.ancho < DOS32 && g.sello < DOS32 && g.selloTabla < DOS32
    && g.resto < Pot256(420)
  }

  lemma GptFieldsInRow(donde: nat, g: Gpt)
    ensures EnFila(CamposGpt(donde, g))
  {
  }

  lemma GptValuesFit(donde: nat, g: Gpt)
    requires CabeGpt(donde, g)
    ensures Caben(CamposGpt(donde, g))
  {
    hide Pot256;
    Widths();
  }

  lemma GptFieldsRead(donde: nat, g: Gpt)
    requires CabeGpt(donde, g)
    ensures var h := Maqueta(CamposGpt(donde, g));
            && |h| == SECTOR && h[..8] == FIRMA && U32(h, 8) == 0x1_0000 && U32(h, 12) == 92 && U32(h, 20) == 0
            && U64(h, 24) == donde && U64(h, 32) == g.alterno && Primero(h) == g.primero && Ultimo(h) == g.ultimo
            && Tabla(h) == g.tabla && Cuantas(h) == g.cuantas && Ancho(h) == g.ancho
  {
    hide Maqueta, U32, U64, CerosEntre, EnFila, Caben, CabeGpt, Pot256;
    var cs := CamposGpt(donde, g);
    GptFieldsInRow(donde, g);
    GptValuesFit(donde, g);
    LayoutLength(cs);
    FieldIsThere(cs, 0);
    SignatureBytes();
    FieldIsRead(cs, 1);
    FieldIsRead(cs, 2);
    FieldIsRead(cs, 4);
    FieldIsRead(cs, 5);
    FieldIsRead(cs, 6);
    FieldIsRead(cs, 7);
    FieldIsRead(cs, 8);
    FieldIsRead(cs, 10);
    FieldIsRead(cs, 11);
    FieldIsRead(cs, 12);
  }

  /** "EFI PART", as a number of eight bytes. */
  lemma SignatureBytes()
    ensures EnBytes(0x5452_4150_2049_4645, 8) == FIRMA
  {
    hide EnBytes;
    LowestByte(0x5452_4150_2049_4645, 8);
    LowestByte(0x54_5241_5020_4946, 7);
    LowestByte(0x5452_4150_2049, 6);
    LowestByte(0x54_5241_5020, 5);
    LowestByte(0x5452_4150, 4);
    LowestByte(0x54_5241, 3);
    LowestByte(0x5452, 2);
    LowestByte(0x54, 1);
    NoBytes();
  }

  lemma NoBytes()
    ensures EnBytes(0, 0) == []
  {
  }

  lemma LowestByte(x: nat, n: nat)
    requires n > 0
    ensures EnBytes(x, n) == [x % 256] + EnBytes(x / 256, n - 1)
  {
  }

  datatype EntradaGpt = EntradaGpt(tipo: nat, guid: nat, desde: nat, hasta: nat, atributos: nat, nombre: nat)

  function CamposEntrada(e: EntradaGpt): seq<Campo> {
    [Campo(0, 16, e.tipo), Campo(16, 16, e.guid), Campo(32, 8, e.desde), Campo(40, 8, e.hasta), Campo(48, 8, e.atributos),
     Campo(56, 72, e.nombre)]
  }

  predicate CabeEntrada(e: EntradaGpt) {
    && e.tipo < Pot256(16) && e.guid < Pot256(16) && e.desde < DOS64 && e.hasta < DOS64 && e.atributos < DOS64
    && e.nombre < Pot256(72)
  }

  /** Entry `e` is stored at byte `o`. */
  predicate Puesta(d: seq<byte>, o: nat, e: EntradaGpt) {
    CabeEntrada(e) && o + 128 <= |d| && d[o..o + 128] == Maqueta(CamposEntrada(e))
  }

  lemma EntryFieldsInRow(e: EntradaGpt)
    ensures EnFila(CamposEntrada(e))
  {
  }

  lemma EntryValuesFit(e: EntradaGpt)
    requires CabeEntrada(e)
    ensures Caben(CamposEntrada(e))
  {
    hide Pot256;
    Widths();
  }

  lemma EntryIsRead(d: seq<byte>, o: nat, e: EntradaGpt)
    requires Puesta(d, o, e)
    ensures Desde(d, o) == e.desde && Hasta(d, o) == e.hasta && (Usada(d, o) <==> e.tipo != 0)
  {
    hide Maqueta, U64, CerosEntre, EnFila, Caben, CabeEntrada, Pot256, Valor, EnBytes;
    var cs, s := CamposEntrada(e), d[o..o + 128];
    EntryFieldsInRow(e);
    EntryValuesFit(e);
    LayoutLength(cs);
    FieldIsRead(cs, 2);
    FieldIsRead(cs, 3);
    U64OfSlice(d, o, 32);
    U64OfSlice(d, o, 40);
    FieldIsThere(cs, 0);
    assert cs[0].valor < Pot256(16) by { TypeFits(e); }
    BytesRoundTrip(e.tipo, 16);
    var t := s[0..0 + 16];
    ZeroIff(t);
    assert forall k :: 0 <= k < 16 ==> t[k] == d[o + k];
    if Usada(d, o) {
      var k :| o <= k < o + 16 && d[k] != 0;
      assert t[k - o] != 0;
    } else {
      assert forall k :: 0 <= k < 16 ==> t[k] == 0;
    }
  }

  lemma TypeFits(e: EntradaGpt)
    requires CabeEntrada(e)
    ensures e.tipo < Pot256(16)
  {
    hide Pot256;
  }

  lemma U64OfSlice(d: seq<byte>, o: nat, k: nat)
    requires o + 128 <= |d| && k + 8 <= 128
    ensures U64(d[o..o + 128], k) == U64(d, o + k)
  {
  }

  lemma {:induction false} ZeroIff(s: seq<byte>)
    ensures Valor(s) == 0 <==> forall k :: 0 <= k < |s| ==> s[k] == 0
  {
    if s != [] {
      ZeroIff(s[1..]);
      if Valor(s) == 0 {
        assert forall k :: 1 <= k < |s| ==> s[k] == s[1..][k - 1];
      }
    }
  }

  /** What the header must say for its reader: where the other copy is, and the usable range. */
  predicate CopiasEnSitio(total: nat, donde: nat, g: Gpt) {
    && donde < total && g.alterno < total && g.alterno == (if donde == 1 then total - 1 else 1)
    && 2 <= g.primero <= g.ultimo < total - 1
    && !(g.primero <= donde <= g.ultimo) && !(g.primero <= g.alterno <= g.ultimo)
  }

  /** An entry takes 128 bytes, or that doubled any number of times up to 4096. */
  predicate DeMedida(g: Gpt) {
    1 <= g.cuantas <= 4096 && 128 <= g.ancho <= 4096 && 4096 % g.ancho == 0
  }

  predicate TablaEnSitio(total: nat, donde: nat, g: Gpt) {
    var fin := g.tabla + (LargoTabla(g) + 511) / 512;
    && 0 < g.tabla < total && fin <= total && (g.ultimo < g.tabla || fin <= g.primero)
    && !(g.tabla <= donde < fin) && !(g.tabla <= g.alterno < fin)
  }

  predicate Situada(total: nat, donde: nat, g: Gpt) {
    CopiasEnSitio(total, donde, g) && DeMedida(g) && TablaEnSitio(total, donde, g)
  }

  lemma WidthIff(w: nat)
    ensures AnchoAdmitido(w) <==> 128 <= w <= 4096 && 4096 % w == 0
  {
    if 128 <= w <= 4096 && 4096 % w == 0 {
      Divisors(4096 / w, w);
    }
  }

  lemma Divisors(q: nat, w: nat)
    requires w >= 128 && q * w == 4096
    ensures q == 1 || q == 2 || q == 4 || q == 8 || q == 16 || q == 32
  {
    assert q <= 32 by {
      MulMonotone(128, w, q);
    }
  }

  function LargoTabla(g: Gpt): nat {
    g.cuantas * g.ancho
  }

  /** Where entry `i` of the table starts. */
  function Sitio(g: Gpt, i: nat): nat {
    g.tabla * 512 + i * g.ancho
  }

  /** Header and table are on the disk, sealed. */
  predicate Escrita(d: seq<byte>, donde: nat, g: Gpt, es: seq<EntradaGpt>)
    requires EsDisco(d)
  {
    && CabeGpt(donde, g) && Situada(Total(d), donde, g) && |es| == g.cuantas
    && Sector(d, donde) == Maqueta(CamposGpt(donde, g))
    && (forall i: nat :: i < |es| ==> Puesta(d, Sitio(g, i), es[i]))
  }

  predicate Ajena(a: EntradaGpt, b: EntradaGpt) {
    a.tipo != 0 && b.tipo != 0 ==> a.hasta < b.desde || b.hasta < a.desde
  }

  /** The used entries lie in the usable range and share no sector. */
  predicate Limpias(g: Gpt, es: seq<EntradaGpt>) {
    && (forall i :: 0 <= i < |es| && es[i].tipo != 0 ==> g.primero <= es[i].desde <= es[i].hasta <= g.ultimo)
    && forall i, j :: 0 <= i < j < |es| ==> Ajena(es[i], es[j])
  }

  /** The partitions that a formatter put in the first `n` entries of the table, in order. */
  function EnTabla(es: seq<EntradaGpt>, n: nat): seq<Entrada>
    requires n <= |es|
  {
    if n == 0 then []
    else if es[n - 1].tipo == 0 then EnTabla(es, n - 1)
    else EnTabla(es, n - 1) + [Entrada(es[n - 1].desde, Max(0, es[n - 1].hasta + 1 - es[n - 1].desde), n, 2)]
  }

  lemma WrittenHeader(d: seq<byte>, donde: nat, g: Gpt, es: seq<EntradaGpt>)
    requires EsDisco(d) && Escrita(d, donde, g, es)
    ensures donde < Total(d) && ConTabla(d, Sector(d, donde)) && U32(Sector(d, donde), 12) == 92
    ensures var h := Sector(d, donde);
            && Firmada(h, donde, Total(d)) && BienSituada(h, donde, Total(d)) && TamanoAdmitido(h)
            && TablaSituada(h, donde, Total(d)) && Largo(h) == LargoTabla(g)
            && Cuantas(h) == g.cuantas && Primero(h) == g.primero && Ultimo(h) == g.ultimo
            && Tabla(h) == g.tabla && Ancho(h) == g.ancho
  {
    hide Maqueta, U32, U64, CabeGpt, Puesta, Primero, Ultimo, Cuantas, Ancho, Tabla, Por, Sitio, AnchoAdmitido, LargoTabla;
    hide Sector, Total, TablaSituada, Firmada, BienSituada, TamanoAdmitido, CopiasEnSitio, DeMedida, TablaEnSitio, Largo;
    InPlace(Total(d), donde, g);
    GptFieldsRead(donde, g);
    LengthOf(Sector(d, donde), g);
    SituatedIff(Sector(d, donde), Total(d), donde, g);
    TableIsOnDisk(d, Sector(d, donde), donde);
  }

  lemma InPlace(total: nat, donde: nat, g: Gpt)
    requires Situada(total, donde, g)
    ensures donde < total
  {
  }

  lemma TableLength(g: Gpt)
    ensures Por(g.cuantas, g.ancho) == LargoTabla(g)
  {
    PorIsProduct(g.cuantas, g.ancho);
  }

  lemma WrittenEntry(d: seq<byte>, donde: nat, g: Gpt, es: seq<EntradaGpt>, i: nat)
    requires EsDisco(d) && Escrita(d, donde, g, es) && i < |es|
    requires donde < Total(d) && ConTabla(d, Sector(d, donde)) && Cuantas(Sector(d, donde)) == g.cuantas
    ensures var h := Sector(d, donde);
            && (EnUso(d, h, i) <==> es[i].tipo != 0)
            && Lee(d, h, i) == Entrada(es[i].desde, Max(0, es[i].hasta + 1 - es[i].desde), i + 1, 2)
            && (Cabe(d, h, i) <==> g.primero <= es[i].desde <= es[i].hasta <= g.ultimo)
  {
    hide Maqueta, U32, U64, CabeGpt, Puesta, Primero, Ultimo, Cuantas, Ancho, Tabla, Por, Situada, Usada, ConTabla, Desde, Hasta;
    WrittenHeader(d, donde, g, es);
    var h := Sector(d, donde);
    EntryIsOnDisk(d, h, i);
    PorIsProduct(i, g.ancho);
    assert Lugar(h, i) == Sitio(g, i);
    EntryIsRead(d, Sitio(g, i), es[i]);
  }

  lemma {:induction false} WrittenAreUsed(d: seq<byte>, donde: nat, g: Gpt, es: seq<EntradaGpt>, n: nat)
    requires EsDisco(d) && Escrita(d, donde, g, es) && n <= |es|
    requires donde < Total(d) && ConTabla(d, Sector(d, donde)) && Cuantas(Sector(d, donde)) == g.cuantas
    ensures Usadas(d, Sector(d, donde), n) == EnTabla(es, n)
  {
    hide Escrita, ConTabla, EnUso, Lee, Cuantas, Sector;
    if n > 0 {
      WrittenAreUsed(d, donde, g, es, n - 1);
      WrittenLength(d, donde, g, es);
      WrittenEntry(d, donde, g, es, n - 1);
    }
  }

  lemma WrittenLength(d: seq<byte>, donde: nat, g: Gpt, es: seq<EntradaGpt>)
    requires EsDisco(d) && Escrita(d, donde, g, es)
    ensures |es| == g.cuantas
  {
    hide CabeGpt, Situada, Sector, Maqueta, Puesta;
  }

  /** The checksums of header and table are where the standard puts them, and right. */
  predicate Sellada(d: seq<byte>, donde: nat, g: Gpt)
    requires EsDisco(d) && donde < Total(d) && g.tabla * 512 + LargoTabla(g) <= |d|
  {
    CabeceraSellada(d, donde) && Crc32.Sellado(d, g.tabla * 512, LargoTabla(g)) == Crc32.Campo(Sector(d, donde), 88)
  }

  lemma SealedHeaderPasses(d: seq<byte>, donde: nat, g: Gpt, es: seq<EntradaGpt>)
    requires EsDisco(d) && Escrita(d, donde, g, es)
    requires donde < Total(d) && g.tabla * 512 + LargoTabla(g) <= |d| && Sellada(d, donde, g)
    ensures CodigoCabecera(d, donde) == 0
  {
    hide Maqueta, U32, U64, CabeGpt, Puesta, Primero, Ultimo, Cuantas, Ancho, Tabla, Por, Situada, Escrita, Largo, LargoTabla;
    hide Firmada, BienSituada, TamanoAdmitido, TablaSituada, Crc32.Sellado, Crc32.Campo, Sector;
    WrittenHeader(d, donde, g, es);
  }

  lemma ClashIsOverlap(d: seq<byte>, donde: nat, g: Gpt, es: seq<EntradaGpt>, i: nat, j: nat)
    requires EsDisco(d) && Escrita(d, donde, g, es) && i < j < |es|
    requires donde < Total(d) && ConTabla(d, Sector(d, donde)) && Cuantas(Sector(d, donde)) == g.cuantas
    requires es[i].tipo != 0 ==> es[i].desde <= es[i].hasta
    requires es[j].tipo != 0 ==> es[j].desde <= es[j].hasta
    ensures SinChoque(d, Sector(d, donde), i, j) <==> Ajena(es[i], es[j])
  {
    hide Escrita, ConTabla, EnUso, Lee, Cabe, Cuantas, Sector;
    WrittenLength(d, donde, g, es);
    WrittenEntry(d, donde, g, es, i);
    WrittenEntry(d, donde, g, es, j);
  }

  lemma WrittenInOrderIff(d: seq<byte>, donde: nat, g: Gpt, es: seq<EntradaGpt>)
    requires EsDisco(d) && Escrita(d, donde, g, es)
    requires donde < Total(d) && ConTabla(d, Sector(d, donde)) && Cuantas(Sector(d, donde)) == |es| == g.cuantas
    ensures Ordenada(d, Sector(d, donde), |es|) <==> Limpias(g, es) && |EnTabla(es, |es|)| <= PARTICIONES_MAX
  {
    hide Escrita, ConTabla, EnUso, Lee, Cabe, Cuantas, Sector, EnTabla, Usadas, SinChoque, Ajena;
    var h := Sector(d, donde);
    WrittenAreUsed(d, donde, g, es, |es|);
    forall i: nat | i < |es|
      ensures EnUso(d, h, i) <==> es[i].tipo != 0
      ensures Cabe(d, h, i) <==> g.primero <= es[i].desde <= es[i].hasta <= g.ultimo
    {
      WrittenEntry(d, donde, g, es, i);
    }
    if forall i: nat :: i < |es| && es[i].tipo != 0 ==> g.primero <= es[i].desde <= es[i].hasta <= g.ultimo {
      forall i: nat, j: nat | i < j < |es| ensures SinChoque(d, h, i, j) <==> Ajena(es[i], es[j]) {
        ClashIsOverlap(d, donde, g, es, i, j);
      }
    } else {
      var i: nat :| i < |es| && es[i].tipo != 0 && !(g.primero <= es[i].desde <= es[i].hasta <= g.ultimo);
      assert EnUso(d, h, i) && !Cabe(d, h, i);
    }
  }

  lemma SituatedIff(h: seq<byte>, total: nat, donde: nat, g: Gpt)
    requires |h| == SECTOR && donde < total && Largo(h) == LargoTabla(g) && Primero(h) == g.primero && Ultimo(h) == g.ultimo
    requires Tabla(h) == g.tabla && Cuantas(h) == g.cuantas && Ancho(h) == g.ancho
    requires h[..8] == FIRMA && U32(h, 8) == 0x1_0000 && U32(h, 12) == 92 && U32(h, 20) == 0 && U64(h, 24) == donde
    requires U64(h, 32) == g.alterno
    ensures CopiasEnSitio(total, donde, g) <==> Firmada(h, donde, total) && BienSituada(h, donde, total)
    ensures DeMedida(g) <==> TamanoAdmitido(h)
    ensures CopiasEnSitio(total, donde, g) && DeMedida(g) ==> (TablaEnSitio(total, donde, g) <==> TablaSituada(h, donde, total))
  {
    hide U32, U64, LargoTabla, Largo, AnchoAdmitido, Primero, Ultimo, Tabla, Cuantas, Ancho;
    WidthIff(g.ancho);
    if DeMedida(g) {
      TableIsNotEmpty(g);
    }
  }

  lemma TableIsNotEmpty(g: Gpt)
    requires DeMedida(g)
    ensures LargoTabla(g) > 0
  {
    MulMonotone(1, g.cuantas, g.ancho);
  }

  /** The header and the table are as the standard wants them. */
  predicate Correcta(d: seq<byte>, donde: nat, g: Gpt)
    requires EsDisco(d) && donde < Total(d)
  {
    Situada(Total(d), donde, g) && g.tabla * 512 + LargoTabla(g) <= |d| && Sellada(d, donde, g)
  }

  /** The checksum of the header is right. */
  predicate CabeceraSellada(d: seq<byte>, donde: nat)
    requires EsDisco(d) && donde < Total(d)
  {
    var h := Sector(d, donde);
    Crc32.Sellado(h[..16] + [0, 0, 0, 0] + h[20..], 0, 92) == Crc32.Campo(h, 16)
  }

  /** The verdict on a header laid out as the standard says: not supported if all that is wrong is how
      many entries there are or how wide they are, damaged if what it says of the copies, the usable
      range, the table or the checksums is wrong, and otherwise accepted. */
  lemma WrittenHeaderCode(d: seq<byte>, donde: nat, g: Gpt)
    requires EsDisco(d) && donde < Total(d) && CabeGpt(donde, g) && Sector(d, donde) == Maqueta(CamposGpt(donde, g))
    ensures CodigoCabecera(d, donde) ==
            if !CopiasEnSitio(Total(d), donde, g) || !CabeceraSellada(d, donde) then VOLUMEN_CORRUPTO
            else if !DeMedida(g) then NO_SOPORTADO
            else if !Correcta(d, donde, g) then VOLUMEN_CORRUPTO
            else 0
  {
    hide Maqueta, U32, U64, CabeGpt, Primero, Ultimo, Cuantas, Ancho, Tabla, Por, CopiasEnSitio, DeMedida, Largo, LargoTabla;
    hide Firmada, BienSituada, TamanoAdmitido, TablaSituada, Crc32.Sellado, Crc32.Campo, Sector;
    var h := Sector(d, donde);
    GptFieldsRead(donde, g);
    LengthOf(h, g);
    SituatedIff(h, Total(d), donde, g);
    if TablaSituada(h, donde, Total(d)) {
      TableIsOnDisk(d, h, donde);
    }
  }

  /** A header laid out as the standard says is accepted exactly when what it says is right. */
  lemma WrittenHeaderPassesIff(d: seq<byte>, donde: nat, g: Gpt)
    requires EsDisco(d) && donde < Total(d) && CabeGpt(donde, g) && Sector(d, donde) == Maqueta(CamposGpt(donde, g))
    ensures CodigoCabecera(d, donde) == 0 <==> Correcta(d, donde, g)
  {
    hide CodigoCabecera, CopiasEnSitio, DeMedida, TablaEnSitio, Crc32.Sellado, Crc32.Campo, Sector, Total;
    WrittenHeaderCode(d, donde, g);
  }

  lemma LengthOf(h: seq<byte>, g: Gpt)
    requires |h| == SECTOR && Cuantas(h) == g.cuantas && Ancho(h) == g.ancho
    ensures Largo(h) == LargoTabla(g)
  {
    hide Cuantas, Ancho, Por, LargoTabla;
    TableLength(g);
  }

  /** A GPT with sealed header and table is accepted exactly when its used entries lie in the usable
      range, share no sector and are not too many; what is listed is what was put there. */
  lemma WrittenGptIsRead(d: seq<byte>, donde: nat, g: Gpt, es: seq<EntradaGpt>)
    requires EsDisco(d) && Escrita(d, donde, g, es)
    requires donde < Total(d) && g.tabla * 512 + LargoTabla(g) <= |d| && Sellada(d, donde, g)
    ensures LeidaGpt(d, donde).codigo == 0 <==> Limpias(g, es) && |EnTabla(es, |es|)| <= PARTICIONES_MAX
    ensures LeidaGpt(d, donde).codigo == 0 ==> LeidaGpt(d, donde).ps == EnTabla(es, |es|)
  {
    hide Maqueta, CodigoCabecera, Recorrer, Escrita, Sellada, Limpias, ConTabla, EnTabla, Usadas, Ordenada, Cuantas, LargoTabla;
    WrittenHeader(d, donde, g, es);
    WrittenLength(d, donde, g, es);
    SealedHeaderPasses(d, donde, g, es);
    WrittenInOrderIff(d, donde, g, es);
    WrittenAreUsed(d, donde, g, es, |es|);
    GptIsReadIff(d, donde);
  }

  /** A disk with a protective entry in any place of its MBR and a GPT that is accepted after it: found are
      the partitions of that GPT. */
  lemma WrittenGptIsFound(d: seq<byte>, codigo: nat, ps: seq<Particion>, i: nat, g: Gpt, es: seq<EntradaGpt>)
    requires EsDisco(d) && 1 < Total(d) && |ps| == 4 && codigo < Pot256(446) && i < 4 && ps[i].tipo == 0xee
    requires forall k :: 0 <= k < 4 ==> CabeParticion(ps[k])
    requires d[..SECTOR] == Maqueta(CamposMbr(codigo, ps[0], ps[1], ps[2], ps[3]))
    requires Escrita(d, 1, g, es) && g.tabla * 512 + LargoTabla(g) <= |d| && Sellada(d, 1, g)
    requires Limpias(g, es) && |EnTabla(es, |es|)| <= PARTICIONES_MAX
    ensures Descubierta(d) ==
            (Recorrido(if EnTabla(es, |es|) == [] then DESCONOCIDO else 0, EnTabla(es, |es|)), false)
  {
    hide Maqueta, RecorrerMbr, U32, CabeParticion, Pot256, LeidaGpt, Escrita, Sellada, Limpias, EnTabla, LargoTabla, CamposMbr;
    ProtectedDisk(d, codigo, ps, i);
    WrittenGptIsRead(d, 1, g, es);
  }

  /** If the primary copy is damaged, in whatever way, the backup in the last sector is used, and it is said
      that it was. */
  lemma WrittenBackupIsFound(d: seq<byte>, codigo: nat, ps: seq<Particion>, i: nat, g: Gpt, es: seq<EntradaGpt>)
    requires EsDisco(d) && 2 < Total(d) && |ps| == 4 && codigo < Pot256(446) && i < 4 && ps[i].tipo == 0xee
    requires forall k :: 0 <= k < 4 ==> CabeParticion(ps[k])
    requires d[..SECTOR] == Maqueta(CamposMbr(codigo, ps[0], ps[1], ps[2], ps[3]))
    requires LeidaGpt(d, 1).codigo == VOLUMEN_CORRUPTO
    requires Escrita(d, Total(d) - 1, g, es) && g.tabla * 512 + LargoTabla(g) <= |d| && Sellada(d, Total(d) - 1, g)
    requires Limpias(g, es) && |EnTabla(es, |es|)| <= PARTICIONES_MAX
    ensures Descubierta(d) ==
            (Recorrido(if EnTabla(es, |es|) == [] then DESCONOCIDO else 0, EnTabla(es, |es|)), true)
  {
    hide Maqueta, RecorrerMbr, U32, CabeParticion, Pot256, LeidaGpt, Escrita, Sellada, Limpias, EnTabla, LargoTabla, CamposMbr;
    ProtectedDisk(d, codigo, ps, i);
    WrittenGptIsRead(d, Total(d) - 1, g, es);
  }

  /** A primary copy in good order whose entries are too many or of a width that is not supported: the
      backup is not consulted. */
  lemma UnsupportedIsNotRecovered(d: seq<byte>, codigo: nat, ps: seq<Particion>, i: nat, g: Gpt)
    requires EsDisco(d) && 1 < Total(d) && |ps| == 4 && codigo < Pot256(446) && i < 4 && ps[i].tipo == 0xee
    requires forall k :: 0 <= k < 4 ==> CabeParticion(ps[k])
    requires d[..SECTOR] == Maqueta(CamposMbr(codigo, ps[0], ps[1], ps[2], ps[3]))
    requires CabeGpt(1, g) && Sector(d, 1) == Maqueta(CamposGpt(1, g))
    requires CopiasEnSitio(Total(d), 1, g) && CabeceraSellada(d, 1) && !DeMedida(g)
    ensures Descubierta(d) == (Recorrido(NO_SOPORTADO, []), false)
  {
    hide Maqueta, RecorrerMbr, U32, CabeParticion, Pot256, CamposMbr, CamposGpt, CodigoCabecera, CabeGpt, CopiasEnSitio;
    hide CabeceraSellada, DeMedida, Correcta;
    ProtectedDisk(d, codigo, ps, i);
    WrittenHeaderCode(d, 1, g);
  }

  lemma ProtectedDisk(d: seq<byte>, codigo: nat, ps: seq<Particion>, i: nat)
    requires EsDisco(d) && 1 < Total(d) && |ps| == 4 && codigo < Pot256(446) && i < 4 && ps[i].tipo == 0xee
    requires forall k :: 0 <= k < 4 ==> CabeParticion(ps[k])
    requires d[..SECTOR] == Maqueta(CamposMbr(codigo, ps[0], ps[1], ps[2], ps[3]))
    ensures var s := Sector(d, 0); s[510] == 0x55 && s[511] == 0xaa && Protector(s)
  {
    hide Maqueta, U32, CabeParticion, Pot256, CamposMbr;
    MbrFieldsRead(codigo, ps[0], ps[1], ps[2], ps[3]);
    assert Sector(d, 0) == d[..SECTOR];
    ProtectiveEntry(Sector(d, 0), ps, i);
  }

  lemma ProtectiveEntry(s: seq<byte>, ps: seq<Particion>, i: nat)
    requires |s| == SECTOR && |ps| == 4 && i < 4 && ps[i].tipo == 0xee
    requires Dice(s, 0, ps[0]) && Dice(s, 1, ps[1]) && Dice(s, 2, ps[2]) && Dice(s, 3, ps[3])
    ensures Protector(s)
  {
    assert i == 0 || i == 1 || i == 2 || i == 3;
  }
}
