/** The boot-sector geometry checks. Whatever passes them is a volume on which no FAT entry and
    no cluster can lead outside the partition. */
module Geometria {
  import opened Bytes
  import opened Bits
  import opened MedioFat
  import opened Particiones

  const NO_SOPORTADO: int := -21
  const SECTOR_NO_SOPORTADO: int := -28
  const TEXFAT: int := -30

  datatype Montaje = Listo(m: Medio) | Rechazado(codigo: int)

  predicate CerosEntre(s: seq<byte>, a: nat, b: nat)
    requires a <= b <= |s|
  {
    forall j :: a <= j < b ==> s[j] == 0
  }

  /** Lines 108-121: the exFAT main boot sector `s`, after the region checksum was accepted.
      Only the partition fields of `p` are meaningful on entry. */
  function BootExfat(p: Medio, s: seq<byte>): (r: Montaje)
    requires |s| == SECTOR
  {
    var total, fat, nf := U64(s, 72), U32(s, 80), U32(s, 84);
    var datos, nc, desplazamiento := U32(s, 88), U32(s, 92), U64(s, 64);
    if s[0] != 0xeb || s[1] != 0x76 || s[2] != 0x90 || U16(s, 510) != 0xaa55 then Rechazado(VOLUMEN_CORRUPTO)
    else if !CerosEntre(s, 11, 64) then Rechazado(VOLUMEN_CORRUPTO)
    else if s[110] == 2 then Rechazado(TEXFAT)
    else if U16(s, 104) != 0x100 || s[110] != 1 then Rechazado(NO_SOPORTADO)
    else if s[109] > 16 || (s[112] > 100 && s[112] != 255) then Rechazado(VOLUMEN_CORRUPTO)
    else
      var spc := Doble(s[109]);
      if total > p.sectores || total < 2048 || fat < 24 || nf == 0 || nc < 1 || nc > 0xffff_fff5
         || nf * SECTOR < (nc + 2) * 4 || datos < fat + nf || datos >= total || nc * spc > total - datos
         || (desplazamiento != 0 && desplazamiento != p.inicio) || U16(s, 106) % 2 == 1
      then Rechazado(VOLUMEN_CORRUPTO)
      else if nc != Min((total - datos) / spc, 0xffff_fff5) then Rechazado(VOLUMEN_CORRUPTO)
      else if U32(s, 96) < 2 || U32(s, 96) >= nc + 2 then Rechazado(VOLUMEN_CORRUPTO)
      else
        Listo(Medio(p.disco, p.inicio, p.sectores, true, fat, nf, datos, nc, spc, spc * SECTOR, U32(s, 96)))
  }

  predicate EsPotenciaDeDos(n: nat) {
    n == 1 || n == 2 || n == 4 || n == 8 || n == 16 || n == 32 || n == 64 || n == 128
  }

  /** The FAT32 boot sector. `spc & (spc - 1)` is zero exactly for the powers of two. */
  function BootFat32(p: Medio, s: seq<byte>): (r: Montaje)
    requires |s| == SECTOR
  {
    if U16(s, 11) != 512 then Rechazado(SECTOR_NO_SOPORTADO)
    else
      var spc: nat, nf: nat, reservados := s[13], s[16], U16(s, 14);
      var total, fat := U32(s, 32), U32(s, 36);
      var meta := reservados + nf * fat;
      if U16(s, 510) != 0xaa55 || !EsPotenciaDeDos(spc) || reservados == 0 || nf == 0 || nf > 2 || fat == 0
         || U16(s, 17) != 0 || U16(s, 19) != 0 || U16(s, 22) != 0 || total <= meta || total > p.sectores
      then Rechazado(VOLUMEN_CORRUPTO)
      else if U16(s, 42) != 0 then Rechazado(NO_SOPORTADO)
      else
        var nc := (total - meta) / spc;
        if nc < 65525 || nc > 0x0fff_fff5 || fat * SECTOR < (nc + 2) * 4 || U32(s, 44) < 2 || U32(s, 44) >= nc + 2
        then Rechazado(VOLUMEN_CORRUPTO)
        else
          var activo := if U16(s, 40) / 0x80 % 2 == 1 then U16(s, 40) % 16 else 0;
          if activo >= nf then Rechazado(VOLUMEN_CORRUPTO)
          else
            Listo(Medio(p.disco, p.inicio, p.sectores, false, reservados + activo * fat, fat, meta, nc,
                        spc, spc * SECTOR, U32(s, 44)))
  }

  lemma PowersGrow(a: nat, b: nat)
    requires a <= b
    ensures Doble(a) <= Doble(b)
    decreases b
  {
    if a < b {
      PowersGrow(a, b - 1);
    }
  }

  lemma ClusterSizeIsBounded(k: nat)
    requires k <= 16
    ensures Doble(k) <= 0x1_0000
  {
    PowersGrow(k, 16);
    assert Doble(4) == 16;
    assert Doble(8) == 256;
    assert Doble(12) == 4096;
  }

  /** An accepted exFAT geometry keeps FAT and cluster heap inside the partition, and the heap has
      as many clusters as fit. */
  lemma ExfatGeometryIsSound(p: Medio, s: seq<byte>)
    requires p.ParticionEnDisco() && |s| == SECTOR && BootExfat(p, s).Listo?
    ensures var m := BootExfat(p, s).m;
            && m.GeometriaValida() && m.Valido(m.raiz) && m.exfat
            && m.disco == p.disco && m.inicio == p.inicio && m.sectores == p.sectores
            && (m.clusters == 0xffff_fff5 || Por(m.clusters + 1, m.sectoresCluster) > U64(s, 72) - m.datos)
  {
    hide U16, U32, U64, CerosEntre, Por;
    var m := BootExfat(p, s).m;
    ClusterSizeIsBounded(s[109]);
    hide Doble;
    HeapFits(m.clusters, m.sectoresCluster, U64(s, 72) - m.datos);
  }

  /** The same for FAT32, with the FAT that is active when mirroring is off. */
  lemma Fat32GeometryIsSound(p: Medio, s: seq<byte>)
    requires p.ParticionEnDisco() && |s| == SECTOR && BootFat32(p, s).Listo?
    ensures var m := BootFat32(p, s).m;
            && m.GeometriaValida() && m.Valido(m.raiz) && !m.exfat
            && m.disco == p.disco && m.inicio == p.inicio && m.sectores == p.sectores
            && Por(m.clusters + 1, m.sectoresCluster) > U32(s, 32) - m.datos
  {
    hide U16, U32, Por;
    var m := BootFat32(p, s).m;
    HeapFits(m.clusters, m.sectoresCluster, U32(s, 32) - m.datos);
    if U16(s, 40) / 0x80 % 2 == 1 {
      MulMonotone(U16(s, 40) % 16 + 1, s[16], m.sectoresFat);
    } else {
      MulMonotone(1, s[16], m.sectoresFat);
    }
  }

  lemma HeapFits(nc: nat, spc: nat, libres: nat)
    requires spc > 0
    ensures nc == libres / spc ==> Por(nc, spc) <= libres < Por(nc + 1, spc)
    ensures nc <= libres / spc ==> Por(nc, spc) <= libres
  {
    PorIsProduct(nc, spc);
    var q := libres / spc;
    if nc <= q {
      MulMonotone(nc, q, spc);
    }
  }
}
