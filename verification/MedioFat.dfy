/** A mounted FAT or exFAT volume as data: the device bytes, the partition, and the geometry. */
module MedioFat {
  import opened Bytes
  import opened CadenaFat

  /** The partition and geometry of a mounted volume. `disco` holds the bytes of the whole device. */
  datatype Medio = Medio(
    disco: seq<byte>,
    inicio: nat,            // first device sector of the partition
    sectores: nat,          // length of the partition
    exfat: bool,
    fat: nat,               // first FAT sector, relative to the partition
    sectoresFat: nat,
    datos: nat,             // first sector of the cluster heap
    clusters: nat,
    sectoresCluster: nat,
    bytesCluster: nat,
    raiz: nat)
  {
    /** File position to cluster index, and to the offset inside that cluster. */
    function Indice(b: nat): nat
      requires bytesCluster > 0
    {
      b / bytesCluster
    }

    function Dentro(b: nat): (d: nat)
      requires bytesCluster > 0
      ensures d < bytesCluster
    {
      b % bytesCluster
    }

    /** A partition that lies on its device. */
    predicate ParticionEnDisco() {
      && |disco| % SECTOR == 0
      && |disco| / SECTOR < DOS32
      && inicio + sectores <= |disco| / SECTOR
    }

    /** What the boot-sector checks establish; see Geometria. */
    predicate GeometriaValida() {
      && ParticionEnDisco()
      && 1 <= clusters <= 0xffff_fff5
      && 1 <= sectoresCluster <= 0x1_0000
      && bytesCluster == sectoresCluster * SECTOR
      && (clusters + 2) * 4 <= sectoresFat * SECTOR
      && fat + sectoresFat <= datos
      && datos + Por(clusters, sectoresCluster) <= sectores
    }

    predicate Valido(c: nat) { 2 <= c < clusters + 2 }
  }

  /** The bytes of `n` consecutive sectors of the partition. */
  function Sectores(m: Medio, lba: nat, n: nat): (s: seq<byte>)
    requires m.ParticionEnDisco() && lba + n <= m.sectores
    ensures |s| == n * SECTOR
  {
    m.disco[(m.inicio + lba) * SECTOR .. (m.inicio + lba + n) * SECTOR]
  }

  function Clasificar(m: Medio, entrada: nat): (e: Enlace)
    ensures e.Sigue? ==> m.Valido(e.cluster)
  {
    var n := if m.exfat then entrada else entrada % 0x1000_0000;
    if (m.exfat && n == 0xffff_ffff) || (!m.exfat && n >= 0x0fff_fff8) then Fin
    else if !m.Valido(n) then Roto
    else Sigue(n)
  }

  /** The raw 32-bit FAT entry of a cluster, read from the disk. */
  function EntradaFat(m: Medio, c: nat): nat
    requires m.GeometriaValida() && m.Valido(c)
  {
    U32(m.disco, (m.inicio + m.fat) * SECTOR + 4 * c)
  }

  function Siguiente(m: Medio, c: nat): (e: Enlace)
    requires m.GeometriaValida()
    ensures e.Sigue? ==> m.Valido(e.cluster)
  {
    if !m.Valido(c) then Roto else Clasificar(m, EntradaFat(m, c))
  }

  /** The FAT of the volume as a chain structure, and a node's first cluster as a chain start. */
  function Enlaces(m: Medio): Fat
    requires m.GeometriaValida()
  {
    (c: nat) => if m.GeometriaValida() then Siguiente(m, c) else Roto
  }

  function Inicio(m: Medio, c: nat): Enlace {
    if m.Valido(c) then Sigue(c) else Roto
  }

  /** What a fresh cursor on cluster `c` holds at index `i`. */
  function Rastro(m: Medio, c: nat, i: nat): Marcha
    requires m.GeometriaValida()
  {
    Caminar(Enlaces(m), Inicio(m, c), i)
  }

  lemma {:induction false} ClustersAreValid(m: Medio, c: nat, i: nat)
    requires m.GeometriaValida()
    ensures Seguir(Enlaces(m), Inicio(m, c), i).Sigue? ==> m.Valido(Seguir(Enlaces(m), Inicio(m, c), i).cluster)
  {
  }

  lemma FatIsBounded(m: Medio, c: nat)
    requires m.GeometriaValida()
    ensures Acotada(Enlaces(m), Inicio(m, c), m.clusters)
  {
  }
}
