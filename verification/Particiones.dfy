/** Sector reads relative to a partition, issued to the device in bounded commands. */
module Particiones {
  import opened Bytes
  import opened MedioFat

  const VOLUMEN_CORRUPTO: int := -22

  /** Reads `n` sectors from partition sector `sector`, at most `lectura` of them per command. */
  method ParticionLeer(m: Medio, sector: nat, n: nat, lectura: nat) returns (r: int, datos: seq<byte>)
    requires m.ParticionEnDisco() && 1 <= lectura
    ensures r == if sector + n <= m.sectores then 0 else VOLUMEN_CORRUPTO
    ensures r == 0 ==> datos == Sectores(m, sector, n)
  {
    datos := [];
    if sector > m.sectores || n > m.sectores - sector {
      return VOLUMEN_CORRUPTO, datos;
    }
    var total := |m.disco| / SECTOR;
    var s: nat, quedan: nat := sector, n;
    while quedan > 0
      invariant s + quedan == sector + n && sector <= s && n <= m.sectores - sector
      invariant datos == Sectores(m, sector, s - sector)
    {
      var k := if quedan > lectura then lectura else quedan;
      var lba := m.inicio + s;
      if lba > 0xffff_ffff || k > total || lba > total - k {
        return VOLUMEN_CORRUPTO, datos;
      }
      datos := datos + m.disco[lba * SECTOR .. (lba + k) * SECTOR];
      s, quedan := s + k, quedan - k;
    }
    return 0, datos;
  }
}
