# TAEK OS in Dafny

A model of the hard parts of the TAEK OS kernel, with proofs of what its comments, structure and
self-tests promise: partition discovery, the FAT and exFAT reader, the memory stack, the page tables,
HDA streaming, the undo log of the vendored Limine installer, exFAT file creation, the work-sharing
batch, the DMA arena, NTFS data runs and the ext4 extent tree.

Operations and entities keep the Spanish vocabulary of the source (`Localizar`, `Asignar`,
`Liberar`); the names of properties and the comments are in English. There is one module per file.
Code that updates fields in place is a class whose methods are proved against functions or relations
on values; the laws are lemmas about those functions.

`dafny verify dfyconfig.toml` checks everything.

## What is where

| files | subject |
|---|---|
| CadenaFat, MedioFat, ArchivoFat, FatLector, Particiones, Geometria, RegionExfat | the FAT/exFAT reader: Brent cursor, caches, grouped reads, boot sectors |
| FatEscrita, CreadoExfat | the reader against the bytes of the device: chains spelled in the FAT, and files that the writer created |
| Maquetas, Vectores | boot sectors and partition tables laid out field by field, and known answers of the standards |
| Mayusculas | the compressed up-case table of exFAT |
| Discos, Crc32 | finding partitions: GPT with its checksums and backup, MBR |
| Utf | UTF-16 and UTF-8 names |
| ConjuntoExfat, EscrituraExfat, Bits | exFAT entry sets, and file creation under the dirty flag |
| Deshacer, Instalador | write-back cache and undo log |
| AudioHda, SesionAudio | PCM ring and ping-pong DMA blocks, and what is heard of a session |
| Marcos, Arranque | frame allocator and boot |
| Bloques, Monton | heap, as a list and as chained headers |
| Tablas, Permisos, Paginacion, Ioremap | page tables, what they permit, and device windows |
| Dma | contiguous DMA arena |
| Trabajos | work sharing |
| RegistroNtfs, CorridasNtfs, StreamNtfs, ArbolExt4, NodosExt4, StreamExt4, Trozos | on-disk maps and their streams |
| Bytes | integers and little-endian fields |

## Promises that hold only on a condition

Where the code does not keep a promise on every input, the code is modelled as it is, a counterexample
is given, and the condition is proved.

- The end of a drain. Its test compares played bytes with copied PCM bytes, silence left out. It waits
  for the last PCM byte exactly when no silence came before it (`AudioHda.DrainWaitsForAudioIff`);
  `AudioHda.UnderrunThenDrain` is a session where it does not.
- Undo after a transfer error. A write that spans blocks and fails half way may have changed the disk
  before its entry was counted. It is undone under every pattern of errors exactly when the blocks
  before the last one already held the data (`Deshacer.WriteIsUndoableIff`).
- The sector address of an NTFS cluster is a 64-bit sum that may come round before it is checked. The
  driver looks in the right place exactly when it does not (`StreamNtfs.RightPlaceIff`), as for all
  clusters numbered within the volume (`StreamNtfs.SmallNumbersStayStraight`).
  `StreamNtfs.AddressComesRound` is an input, `StreamNtfs.LecturaDesviada` what is then read.
- The cache label of an NTFS stream has 32 bits, and the label of an empty cache is that of cluster
  2^32 - 1. Reads are right when no cluster with an extent has that label and no two share one
  (`StreamNtfs.Stream.Leer`), as in files of at most 2^32 - 1 clusters; otherwise a first read is stale
  (`StreamNtfs.LecturaRancia`) or a second one is that of another cluster (`StreamNtfs.LecturaCruzada`).
- The cache label of an ext4 stream is 2^32 - 1 when the cache is empty, and blocks go up to that number.
  With faithful remembering, reads are right if and only if the file ends before that block or the block
  is a hole (`StreamExt4.Stream.Leer`); otherwise its first read is stale (`StreamExt4.LecturaRancia`).
- The remembered ext4 extent is not checked as the descent checks it, and its sums have 32 bits. It
  agrees with the descent exactly when every extent remembered agrees with those the descent stops at
  (`StreamExt4.FaithfulIff`); `StreamExt4.OverlapMisleads` is a leaf where it does not.
- A batch hands out a region again once its 32-bit claim counter comes round
  (`Trabajos.WrappedCounterRepeats`): some run repeats a region if and only if it has more than 2^32
  claims (`Trabajos.RepeatsIff`).
- A region that has been mapped can be released if and only if a record was free for it and no batch
  of work is in course (`Ioremap.Mapeador.MapearYDesmapear`). Otherwise it keeps its pages and has no
  record, and nothing called later releases it (`Ioremap.Mapeador.Sesion`).
- A comment at nucleo/controladores/exfat.c:414-415 says the dirty mark stays if any phase fails. After
  a creation that has failed with bitmap or root changed, the mark outlives all later calls unless the
  failure was -3, which leaves writing enabled (`EscrituraExfat.Escritor.FallarYSeguir`). After -3 the
  next creation that publishes clears it, and with working operations it does so exactly when there is
  room (`EscrituraExfat.Escritor.PerderAviso`); `EscrituraExfat.AvisoPerdido` is the run that leaves an
  orphan on a clean volume.
- A stream started while one drains drops what is queued and plays silence, as does one started with
  nothing queued: a queue is played exactly when it was prepared with the hardware at rest
  (`AudioHda.Reproductor.IniciarStream`).

## Model

| member | source | states |
|---|---|---|
| CadenaFat.CursorStateIsFunctionOfIndex | nucleo/controladores/fat_lector.c:38-44 | Cluster, tortoise, power and step count of a cursor depend on the index alone: the tortoise stands at index 2^j - 1, and the saturation of the power is never visible |
| CadenaFat.CaminarAdvancesIff | nucleo/controladores/fat_lector.c:38-45 | Exactly when the cursor can stand on an index: the plain walk gets there and never steps on the tortoise |
| CadenaFat.DistinctWalkNeverRefused | nucleo/controladores/fat_lector.c:41 | Cycle detection is sound: a walk over distinct clusters is never refused |
| CadenaFat.LoopIsRefused | nucleo/controladores/fat_lector.c:41-43 | It is complete: a tail of m and a loop of k clusters is refused from index max(2m + k, 3k - 2) on, hence by 3(m + k) |
| CadenaFat.EndingChainIsDistinct | nucleo/controladores/fat_lector.c:209-214 | A chain that ends visits pairwise distinct clusters |
| CadenaFat.DistinctChainFits | nucleo/controladores/fat_lector.c:31 | A walk over distinct clusters has no more of them than the volume (pigeonhole) |
| CadenaFat.WalkInLoopNeverEnds | nucleo/controladores/fat_lector.c:209-214 | A chain that runs into a loop has a cluster at every index, so it can never pass validation |
| MedioFat.FatIsBounded | nucleo/controladores/fat_lector.c:11-28 | Every link followed leads to a cluster of the heap: free, reserved, bad and out-of-range entries never do |
| ArchivoFat.ExactChainIsReadable | nucleo/controladores/fat_lector.c:209-214 | A chain of exact length is readable at every index and never visits a cluster twice |
| ArchivoFat.ExactChainIff | nucleo/controladores/fat_lector.c:209-214 | The two questions validation asks (is the last index there, does the chain end after it) decide exactly that |
| ArchivoFat.ValidatedBitmapIsMounted | nucleo/controladores/fat_lector.c:48-57 | A validated bitmap chain gives all the bitmap cache needs: each of its pages can be read whole |
| ArchivoFat.RunIsContiguousOnDisk | nucleo/controladores/fat_lector.c:74-90 | In a run of adjacent clusters, file byte p + j is the device byte j places further on |
| ArchivoFat.RunFitsInHeap | nucleo/controladores/fat_lector.c:90-94 | Such a run stays inside the cluster heap |
| ArchivoFat.DireccionInsidePartition | nucleo/controladores/fat_lector.c:90 | Every byte of a valid cluster lies inside the partition |
| Particiones.ParticionLeer | nucleo/controladores/particiones.c:17-41 | Partition-relative reads split in bounded commands give exactly the sectors asked, and refuse exactly what runs past the partition |
| FatLector.Cursor.constructor | nucleo/controladores/fat_lector.c:29 | A fresh cursor is valid: no checkpoint, no cached sector |
| FatLector.Cursor.Retroceder | nucleo/controladores/fat_lector.c:33-36 | A backward seek restarts from the first cluster or from a checkpoint not past the target, in a state the walk itself would have |
| FatLector.Cursor.Pisar | nucleo/controladores/fat_lector.c:41-43 | One step of the cursor is one step of the walk, and is refused exactly when the walk meets the tortoise |
| FatLector.Cursor.GuardarPunto | nucleo/controladores/fat_lector.c:44 | Every slot of the 32-slot checkpoint ring, however often overwritten, holds a state of the walk |
| FatLector.Volumen.SectorFat | nucleo/controladores/fat_lector.c:17-22 | The four-slot FAT cache answers what the disk holds |
| FatLector.Volumen.Pedir | nucleo/controladores/fat_lector.c:20-20 | Every sector asked for lies inside the FAT or the data area; all of them are recorded |
| FatLector.Volumen.SiguienteCluster | nucleo/controladores/fat_lector.c:15-28 | The link read is the one of the FAT, with its end and corruption codes, through the sector cache; FatEscrita.LinkIsSpelled says which that is on the bytes of the device |
| FatLector.Volumen.Localizar | nucleo/controladores/fat_lector.c:30-47 | Cursor history does not matter: after any seeks, checkpoints, evictions and failures the answer is that of a fresh walk |
| FatLector.Volumen.Asignado | nucleo/controladores/fat_lector.c:48-58 | A cluster may be read exactly when the bitmap marks it, through a cache of one bitmap page filled by the reader itself |
| FatLector.Volumen.Leer | nucleo/controladores/fat_lector.c:59-98 | Reading refines the byte-by-byte reader for every offset and length: chain bytes below the valid length, zeros above, the error exactly when some byte is not readable, nothing else in the buffer touched |
| FatLector.Volumen.LeerTramo | nucleo/controladores/fat_lector.c:65-96 | One round of the loop delivers readable bytes or finds an unreadable one |
| FatLector.Volumen.Agrupar | nucleo/controladores/fat_lector.c:74-89 | Grouping only follows clusters that the chain and the bitmap confirm |
| FatLector.Volumen.SectorParcial | nucleo/controladores/fat_lector.c:91-93 | The partial-sector cache of a cursor holds the sector its label says |
| FatLector.Volumen.Copiar | nucleo/controladores/fat_lector.c:90-94 | Whole-sector and partial transfers both give the file bytes of the run |
| FatLector.Volumen.ValidarCadena | nucleo/controladores/fat_lector.c:209-214 | Accepts a linked node exactly when its chain has the length its size calls for; FatEscrita.ValidarYLeer says it of the bytes of the FAT |
| FatEscrita.LinkIsSpelled | nucleo/controladores/fat_lector.c:15-28 | What a FAT entry means, from its four bytes on the device: all 32 bits on exFAT, the low 28 on FAT32; 0xFFFFFFFF, or 0x0FFFFFF8 and above, ends a chain; a number from 2 on within the heap is the next cluster; anything else (free, reserved, bad, out of range) is corruption |
| FatEscrita.WrittenChainIsWalked | nucleo/controladores/fat_lector.c:30-47 | Clusters each of whose entries spells the next are what the walk visits, in order |
| FatEscrita.WrittenChainEnds | nucleo/controladores/fat_lector.c:24-27 | Such a chain ends after its last cluster if and only if the last entry spells an end mark |
| FatEscrita.WrittenChainIsExactIff | nucleo/controladores/fat_lector.c:209-214 | It is accepted exactly for an end mark and the lengths that end in its last cluster |
| FatEscrita.WrittenChainIsLocated | nucleo/controladores/fat_lector.c:30-47 | The cursor finds index i of it at the i-th of those clusters, and nothing past the last, however the chain stops |
| FatEscrita.FileIsItsClusters | nucleo/controladores/fat_lector.c:59-98 | A file's bytes are the bytes of its clusters on the device, laid end to end, cluster c being the sectors from datos + (c - 2) * sectores_cluster of the partition on |
| FatEscrita.ContiguousFileIsOneRun | nucleo/controladores/fat_lector.c:32 | A file marked contiguous is one run of device bytes from its first cluster on |
| FatEscrita.BitmapIsOnDisk | nucleo/controladores/fat_lector.c:48-58 | A cluster is marked when bit (c - 2) % 8 of byte (c - 2) / 8 of the bitmap's clusters is set |
| FatEscrita.LeerEncadenado | nucleo/controladores/fat_lector.c:59-98 | Reading a file of known clusters gives exactly their bytes below the valid length and zeros above, if the bitmap on the device has the bits of the clusters touched, and the error otherwise |
| FatEscrita.ValidarYLeer | nucleo/controladores/fat_lector.c:59-98 | Validation and reading together, told by the bytes of FAT, bitmap and heap alone |
| Geometria.ExfatGeometryIsSound | nucleo/controladores/fat_lector.c:108-121 | A boot sector that passes the geometry checks keeps FAT and heap inside the partition, with as many clusters as fit |
| Geometria.Fat32GeometryIsSound | nucleo/controladores/fat_lector.c:123-132 | The same for FAT32, with the FAT that is active when mirroring is off |
| Maquetas.ExfatBootIsRead | nucleo/controladores/fat_lector.c:108-121 | A boot sector laid out field by field (section 3.1 of the exFAT specification) is accepted exactly when its geometry fits the partition with as many clusters as there is room for, and is mounted with those fields |
| Maquetas.Fat32BootIsRead | nucleo/controladores/fat_lector.c:123-132 | A FAT32 boot sector laid out field by field is accepted exactly when the number of clusters there is room for fits, and is mounted with its fields, the FAT in use being the one its flags name |
| Maquetas.WrittenRegionIsBooted | nucleo/controladores/fat_lector.c:99-121 | A boot region with name, signatures and checksum written where the standard puts them is accepted, whatever its flags; its geometry decides |
| RegionExfat.RevisarRegion | nucleo/controladores/fat_lector.c:99-107 | The loop over the twelve boot sectors answers the specified verdict: name, sector size, signatures, and a checksum sector all of whose words are the sum of the others |
| RegionExfat.OneByteIsNoticedIff | nucleo/controladores/fat_lector.c:105-106 | A wrong byte in an accepted boot region is noticed if and only if it is not in the volume flags or the percent in use |
| RegionExfat.BootedIsSound | nucleo/controladores/fat_lector.c:99-121 | A region accepted as a whole lies in the partition and gives a sound volume |
| Vectores.TurnsOneBit32 | nucleo/controladores/fat_lector.c:12 | A step of the 32-bit checksum turns the number right by one bit: doubled it is the number again, the bit that fell off back at the top |
| Mayusculas.ExpansionIsReading | nucleo/controladores/fat_lector.c:233-237 | The expansion of the compressed up-case table yields a table exactly when the values are an encoding of it by literals and identity runs, however they are mixed (section 7.2 of the exFAT specification) |
| Mayusculas.ExpandsWhatIsWritten | nucleo/controladores/fat_lector.c:233-237 | Expanding inverts every such encoding |
| Mayusculas.TableFitsIff | nucleo/controladores/fat_lector.c:225-239 | A full table can be stored in the 131072 bytes allowed if and only if no character but the last folds to 0xFFFF |
| Mayusculas.Anotar | nucleo/controladores/fat_lector.c:233-237 | One value: a literal, the mark, or the length of a run written in place |
| Mayusculas.ExpandirPagina | nucleo/controladores/fat_lector.c:230-238 | A page of values; a run announced at the end of one goes on in the next, and a value that does not fit is never recovered from |
| Mayusculas.CargarMayusculas | nucleo/controladores/fat_lector.c:225-239 | The loader accepts exactly the files with the announced checksum that encode one entry for each of the 65536 characters, and leaves that table |
| Vectores.FirstLetterFolds | nucleo/controladores/fat_lector.c:233-237 | The table that begins with a run of 0x61 characters and 0x41 folds "a" to "A" (section 7.2.5.1 of the exFAT specification) |
| Discos.GptIsReadIff | nucleo/controladores/particiones.c:78-99 | A GPT is accepted if and only if header and table pass their checks and the entries in use lie in the usable range, share no sector and number at most 128; the list is then exactly those entries, in order |
| Maquetas.WrittenHeaderCode | nucleo/controladores/particiones.c:78-91 | Which verdict a header laid out field by field gets: not supported if only the number or the width of its entries is wrong, damaged if anything else is |
| Maquetas.WrittenHeaderPassesIff | nucleo/controladores/particiones.c:78-91 | A header laid out field by field (section 5.3.2 of the UEFI specification) is accepted exactly when the other copy, the usable range, the entry size and count and the table are where they must be, and both checksums are right |
| Maquetas.WrittenGptIsRead | nucleo/controladores/particiones.c:78-99 | A sealed header and table written entry by entry are accepted exactly when the used entries lie in the usable range, share no sector and number at most 128; the list holds their first sectors, lengths and numbers |
| Maquetas.MbrIsListed | nucleo/controladores/particiones.c:117-121 | The entries of an MBR are accepted exactly when all of those in use are plain partitions on the disk, past its first sector, that share no sector; the list is then those |
| Maquetas.WrittenGptIsFound | nucleo/controladores/particiones.c:110-126 | A disk with a protective entry in any place of its MBR and such a header and table is found to have the partitions of that table, from the primary copy |
| Maquetas.WrittenBackupIsFound | nucleo/controladores/particiones.c:112-115 | If the primary copy is damaged in any way, a backup laid out in the last sector is found, and the recovery reported |
| Maquetas.UnsupportedIsNotRecovered | nucleo/controladores/particiones.c:112-115 | A primary copy in good order whose entries are not supported is the final answer, whatever the backup says |
| Maquetas.FirstBadEntryTells | nucleo/controladores/particiones.c:117-122 | The first entry of an MBR that is not in order decides the verdict: a container of further partitions is not supported, anything else is damage |
| Maquetas.WrittenMbrIsFound | nucleo/controladores/particiones.c:110-126 | A disk that begins with an MBR laid out field by field is found to have those partitions and no others |
| Discos.FoundPartitionsAreSound | nucleo/controladores/particiones.c:71-126 | Whatever the disk holds, the partitions found lie on it, share no sector, and are what the volume readers ask for |
| Discos.DamagedTableIsRefused | nucleo/controladores/particiones.c:90-91 | One wrong byte anywhere in the table of an accepted GPT: refused |
| Discos.DamagedHeaderIsRefused | nucleo/controladores/particiones.c:85 | One wrong byte in its header, checksum included: refused, unless it is in the length that says how much is summed |
| Discos.SameReading | nucleo/controladores/particiones.c:78-99 | A reading depends on its header sector and its table only |
| Discos.BackupSurvivesDamage | nucleo/controladores/particiones.c:112-115 | With one wrong byte in the primary table the backup is read instead, and gives what it gave before the damage |
| Discos.EntryInOneSector | nucleo/controladores/particiones.c:93-95 | The fields of an entry never run past the sector its first byte is in |
| Discos.Comprobar | nucleo/controladores/particiones.c:79-91 | The checks on header and table, with their codes, in the order of the source |
| Discos.SumarTabla | nucleo/controladores/particiones.c:90-91 | Summing sector by sector gives the checksum of the whole table |
| Discos.Particionado.Agregar | nucleo/controladores/particiones.c:71-77 | A partition is added unless it leaves the disk, the list is full, or it shares a sector with another |
| Discos.Particionado.LeerEntradas | nucleo/controladores/particiones.c:92-97 | The walk over the entries answers the specified list, or stops with the code of the first that cannot be taken |
| Discos.Particionado.Gpt | nucleo/controladores/particiones.c:78-99 | The whole reading of one GPT |
| Discos.Particionado.Mbr | nucleo/controladores/particiones.c:117-121 | The four entries of the MBR |
| Discos.Particionado.Descubrir | nucleo/controladores/particiones.c:110-126 | Primary, then backup if the primary is corrupt, or the MBR; the list is sound whatever happens |
| Crc32.OneByteIsDetected | nucleo/controladores/particiones.c:16 | Any change confined to one byte changes the CRC |
| Crc32.CrcContinues | nucleo/controladores/particiones.c:90 | The register carried from one piece to the next sums their concatenation |
| Crc32.SeguirCrc | nucleo/controladores/particiones.c:16 | The shifting loop computes the specified CRC |
| Crc32.CheckValue | nucleo/controladores/particiones.c:16 | The checksum of the nine digits is 0xCBF43926, the check value of this CRC-32 |
| Crc32.StoredLowestFirst | nucleo/controladores/particiones.c:85-85 | The field a checksum is compared with is stored lowest byte first |
| RegistroNtfs.FixupRoundTrip | nucleo/controladores/ntfs.c:89-116 | Putting the sector ends of an MFT record back inverts the protection of the format, everywhere but in the array that holds them |
| RegistroNtfs.TornRecordIsRefused | nucleo/controladores/ntfs.c:105-112 | A record put together from two writes with different numbers is refused |
| RegistroNtfs.AplicarFixups | nucleo/controladores/ntfs.c:89-116 | The in-place loop answers the specified verdict and leaves the specified record, also when it stops half way |
| RegistroNtfs.WrittenRecordIsAccepted | nucleo/controladores/ntfs.c:89-104 | A record that the format lays out and its writer has protected is accepted |
| Vectores.SectorEndsComeBack | nucleo/controladores/ntfs.c:105-116 | Bytes 510 and 511 of sector s come from entry s + 1 of the array, and all others stay |
| Utf.DecodesExactlyUtf8 | nucleo/controladores/fat_lector.c:265-274 | The decoder accepts exactly the UTF-8 encodings (RFC 3629, section 3) of scalar values that fit 255 units, and answers their UTF-16 encoding |
| Utf.EncodesExactlyUtf16 | nucleo/controladores/fat_lector.c:145-155 | The encoder accepts exactly the UTF-16 encodings of permitted characters, and answers their UTF-8 encoding |
| Utf.StoredNamesRoundTrip | nucleo/controladores/fat_lector.c:145-155 | Every stored name that is accepted decodes back to the same units, and its text with the NUL fits 3n + 1 bytes |
| Utf.TypedNamesRoundTrip | nucleo/controladores/fat_lector.c:265-274 | Every text that decodes encodes back to the same bytes, if and only if its characters are permitted |
| Utf.ReadsWhatIsWritten | nucleo/controladores/fat_lector.c:266-269 | Reading one code point inverts its shortest form, whatever follows |
| Utf.ReadIsShortestForm | nucleo/controladores/fat_lector.c:266-269 | And nothing but a shortest form is read: overlong forms, surrogates and values past U+10FFFF are refused |
| Utf.LeerPunto | nucleo/controladores/fat_lector.c:266-269 | The loop over continuation bytes reads exactly that |
| Utf.DecodificarNombre | nucleo/controladores/fat_lector.c:265-274 | The decoding loop answers the specified decoding |
| Utf.ConvertirUtf8 | nucleo/controladores/fat_lector.c:145-155 | The encoding loop answers the specified encoding |
| Utf.ThreeBytesPerUnit | nucleo/controladores/fat_lector.c:145-155 | UTF-8 takes at most three bytes a UTF-16 unit |
| Utf.DeliveredIsComponent | nucleo/controladores/fat_lector.c:145-155 | A name the reader delivers holds no separator and no control character |
| Vectores.KnownCharacters | nucleo/controladores/fat_lector.c:145-155 | The examples of RFC 3629 and RFC 2781 |
| ConjuntoExfat.WriterAndReaderAgree | nucleo/controladores/exfat.c:441-495 | Every set the writer lays out for a valid name, an allocated run and a size is accepted by the reader and gives back name, length, contiguity and first cluster; both checksums match (sections 6.3.3 and 7.6.4 of the exFAT specification) |
| ConjuntoExfat.InsertedSetIsFound | nucleo/controladores/fat_lector.c:164-184 | And the reader finds it after any entries it skips |
| ConjuntoExfat.SetChecksum | nucleo/controladores/exfat.c:329-337 | The checksum written is the one the reader accumulates entry by entry |
| ConjuntoExfat.StreamFields | nucleo/controladores/exfat.c:473-482 | The stream entry written holds type, flags, name length, hash, valid length, first cluster and length at offsets 0, 1, 3, 4, 8, 20 and 24 (section 7.6 of the exFAT specification) |
| ConjuntoExfat.FileFields | nucleo/controladores/exfat.c:467-471 | The file entry written holds type, count of secondary entries, checksum and attributes at offsets 0, 1, 2 and 4 |
| Vectores.TurnsOneBit16 | nucleo/controladores/exfat.c:329-337 | A step of the 16-bit checksum turns the number right by one bit |
| ConjuntoExfat.HashesAgree | nucleo/controladores/exfat.c:316-326 | The name hash of the writer is that of the reader under a table that folds ASCII as the standard one does |
| ConjuntoExfat.AsciiText | nucleo/controladores/fat_lector.c:183-183 | The text the reader gives for a valid name is the name |
| ConjuntoExfat.HashNombre | nucleo/controladores/exfat.c:316-326 | The hash loop computes the name hash |
| ConjuntoExfat.ChecksumSet | nucleo/controladores/exfat.c:329-337 | The checksum loop skips exactly bytes 2 and 3 |
| ConjuntoExfat.BuscarRanura | nucleo/controladores/exfat.c:446-457 | Finds the first three entries in a row that are not in use, if there are three |
| ConjuntoExfat.EscribirConjunto | nucleo/controladores/exfat.c:461-491 | The field-by-field writes lay out exactly the set, and touch nothing else |
| ConjuntoExfat.InsertarConjunto | nucleo/controladores/exfat.c:441-491 | The set lands in the first free slot of the directory and nothing else changes |
| ConjuntoExfat.SumarEntrada | nucleo/controladores/fat_lector.c:173-173 | The checksum is continued over a whole secondary entry |
| ConjuntoExfat.AgregarNombre | nucleo/controladores/fat_lector.c:175-175 | A name entry adds its units up to the length the stream entry gave |
| ConjuntoExfat.LeerSecundarias | nucleo/controladores/fat_lector.c:172-177 | The loop over secondary entries computes the specified state or its error |
| ConjuntoExfat.HashDelLeido | nucleo/controladores/fat_lector.c:180-180 | The reader hashes the folded name |
| ConjuntoExfat.LeerElConjunto | nucleo/controladores/fat_lector.c:169-183 | A set is accepted exactly when every check of the reader passes |
| ConjuntoExfat.DeliveredFits | nucleo/controladores/fat_lector.c:178-184 | A set that is accepted fits the volume: its length, its first cluster, and for a contiguous file its whole run |
| ConjuntoExfat.SiguienteExfat | nucleo/controladores/fat_lector.c:164-184 | The directory iterator answers the next file and the position after its set, the end, or the error of the first entry it cannot take |
| ConjuntoExfat.DirectoryListsFiles | nucleo/controladores/fat_lector.c:164-184 | A directory of any number of sets the writer has laid out, with skipped entries among them, lists exactly those files, in order, and then whatever follows |
| ConjuntoExfat.RecorrerDirectorio | nucleo/controladores/fat_lector.c:314-316 | Asking for the next file until there is none gives all a directory lists |
| EscrituraExfat.Escritor.CrearArchivo | nucleo/controladores/exfat.c:497-554 | After every write that is attempted, torn ones included: a disk that differs is marked dirty unless the file is already published; main is dirty whenever backup is; every entry names marked clusters; no allocated cluster is overwritten. Success leaves the file created and both flags clear. When every operation succeeds the code is -3, -5 or 0 exactly by room in bitmap and root |
| EscrituraExfat.Escritor.Publicar | nucleo/controladores/exfat.c:511-542 | What a creation does between the two marks, and when it succeeds |
| EscrituraExfat.Escritor.Seguir | nucleo/controladores/exfat.c:497-554 | Any further calls, each tied to its code and its effect on disk and writing: no mark in the bitmap is lost, and a main mark stands at every moment if and only if it stands after every call |
| EscrituraExfat.Escritor.FallarYSeguir | nucleo/controladores/exfat.c:497-554 | A creation that fails with bitmap or root changed ends in -3, -4 or -5, marked dirty. After -4 and -5 mark and disk stay as they are and every later call is refused; after -3 the mark stands through any calls that do not publish, and not past one that answers 0 |
| EscrituraExfat.CodesTellMark | nucleo/controladores/exfat.c:497-554 | Along a trace of calls the mark stays while none publishes, and a call that answers 0 clears it |
| EscrituraExfat.RefusalTellsWhy | nucleo/controladores/exfat.c:497-510 | What each code of a refused creation says: a bad name, writing disabled, a name that exists, a root that cannot be searched |
| EscrituraExfat.DisabledChangesNothing | nucleo/controladores/exfat.c:502 | Along a trace that begins with writing disabled the disk stays, and every code is -1 or -6 |
| EscrituraExfat.Escritor.PerderAviso | nucleo/controladores/exfat.c:497-554 | After a -3, the next creation, of any data, clears the mark if and only if the root has room for the entry and the bitmap a run for the data; orphans stay orphans |
| EscrituraExfat.AvisoPerdido | nucleo/controladores/exfat.c:402 | On every consistent volume with room: a bitmap write reported as failed though it arrived, then an empty file, leave a clean volume with a cluster that was free, is marked as allocated, and that no entry names |
| EscrituraExfat.Escritor.MarcarSucio | nucleo/controladores/exfat.c:416-431 | Marks main before backup, keeping all of that |
| EscrituraExfat.Escritor.MarcarLimpio | nucleo/controladores/exfat.c:432-437 | Clears backup before main, so only the last write ends the warning |
| Vectores.EntriesPassedOver | nucleo/controladores/fat_lector.c:164-168 | What a directory reader passes over, by the bits of the entry type: entries not in use, benign ones, bitmap, up-case table and label; a file is read, 0 ends, anything else is not supported |
| Vectores.DirtyFlagIs | nucleo/controladores/exfat.c:414-438 | The mark is bit 1 of byte 106 of the boot sector |
| EscrituraExfat.Escritor.AsignarContiguos | nucleo/controladores/exfat.c:389-408 | Takes the first run of free clusters; the bitmap gains exactly those marks, or part of them if the write fails. When operations succeed the answer is 0 exactly when nothing is asked for or no run is free |
| EscrituraExfat.Escritor.EscribirDatos | nucleo/controladores/exfat.c:523-533 | Writes the data, cluster by cluster and padded with zeros, into clusters that were free, and into no other; EscrituraExfat.CreatedClustersHoldData says it of the bytes |
| EscrituraExfat.Escritor.EscribirNuevo | nucleo/controladores/exfat.c:529-532 | One such write keeps the disk safe |
| EscrituraExfat.Escritor.GuardarDatos | nucleo/controladores/exfat.c:511-534 | Allocation and data together: what is stored and what is unchanged; CreadoExfat.LeerCreado reads it back |
| EscrituraExfat.Escritor.InsertarEntrada | nucleo/controladores/exfat.c:441-495 | The directory write, whole or torn, names only marked clusters; -2 means that no three entries in a row are free, and when operations succeed that is the only failure |
| EscrituraExfat.MarcarTramo | nucleo/controladores/exfat.c:393-406 | The search for a run finds the first one, and sets exactly its bits |
| EscrituraExfat.MarksKeepSafe | nucleo/controladores/exfat.c:402 | However much of a bitmap write arrives, no mark is lost |
| EscrituraExfat.RootKeepsSafe | nucleo/controladores/exfat.c:494-494 | However much of a directory write arrives, its entries name marked clusters |
| EscrituraExfat.EntryIsWhole | nucleo/controladores/exfat.c:494-494 | A torn directory write leaves each entry old or new |
| EscrituraExfat.DataKeepsSafe | nucleo/controladores/exfat.c:529-532 | Writing a cluster that was free at the start is safe |
| EscrituraExfat.CreatedFileIsRead | nucleo/controladores/exfat.c:497-554 | What the reader finds at the slot of a created file is that file |
| EscrituraExfat.CreatedFileIsListed | nucleo/controladores/exfat.c:497-554 | The listing of the root gains the created file at its slot: the files before it stay, and so does what the rest lists |
| EscrituraExfat.CreatedClustersHoldData | nucleo/controladores/exfat.c:511-534 | The clusters of a created file are as many as its length needs, are marked, and laid end to end hold the data and then zeros |
| CreadoExfat.CreatedFileHoldsData | nucleo/controladores/exfat.c:497-554 | The bytes of the node that the reader finds at the slot are the data, on the bytes of the device |
| CreadoExfat.MarkedIsAllowed | nucleo/controladores/fat_lector.c:48-58 | What the writer marks in the bitmap is what the reader's bitmap check lets through |
| CreadoExfat.LeerCreado | nucleo/controladores/fat_lector.c:59-98 | Created, found in the directory, read with the volume reader: the bytes are those that were written |
| Bits.SetChangesOneBit | nucleo/controladores/exfat.c:401 | Setting a bit leaves every other bit as it was |
| Bits.ClearChangesOneBit | nucleo/base/dma.c:36-41 | Clearing a bit leaves every other bit as it was |
| Bits.BitsAreWorth | nucleo/controladores/exfat.c:401 | Bit k of a byte is worth 1, 2, 4, ... 128 |
| Deshacer.ReadSeesView | boot/limine/limine.c:426-446 | Through the one-block write-back cache a read returns the flat bytes and changes no later read |
| Deshacer.WriteChangesView | boot/limine/limine.c:448-497 | A write changes exactly its range of the flat view |
| Deshacer.FailedWriteMixes | boot/limine/limine.c:448-497 | A failed write may have reached the disk, but never in the last block it touches |
| Deshacer.FailedWriteStaysInRange | boot/limine/limine.c:448-497 | And never outside its range |
| Deshacer.SessionIsRecoverable | boot/limine/limine.c:448-497 | At any point between two writes, even with the dirty block discarded, disk and log together hold the original, unless a transfer failed in a write that could leak |
| Deshacer.ReplayRestoresEarliest | boot/limine/limine.c:499-549 | Replaying overlapping pre-images leaves the earliest saved byte everywhere |
| Deshacer.ReversedReplayUndoes | boot/limine/limine.c:327-333 | Reversing the list and replaying it forwards is replaying it from the newest |
| Deshacer.RecoverableIsRestored | boot/limine/limine.c:499-549 | Replay of a recoverable log gives the original contents |
| Deshacer.UninstallReplaysLog | boot/limine/limine.c:499-549 | An uninstall that reports success has written exactly the saved ranges |
| Deshacer.UninstallRestoresDisk | boot/limine/limine.c:499-549 | A successful uninstall restores the disk: under any transfer errors when no write in turn can leak, and for any writes without errors |
| Deshacer.OneBlockWritesDoNotLeak | boot/limine/limine.c:448-497 | Writes confined to one block each cannot leak |
| Deshacer.ErrorFreeUndoIsTotal | boot/limine/limine.c:499-549 | Without transfer errors the uninstall always succeeds and restores the disk |
| Deshacer.ReadSucceedsIff | boot/limine/limine.c:426-446 | Without transfer errors a read succeeds exactly when it stays inside the whole blocks of the device |
| Deshacer.WriteSucceedsIff | boot/limine/limine.c:448-497 | And a logged write when, besides, fewer than 256 ranges are saved |
| Deshacer.ErrorFreeSessionSucceeds | boot/limine/limine.c:426-497 | Without transfer errors a session that stays inside the whole blocks and writes at most 256 times runs to its end and leaves the bytes its writes say |
| Deshacer.WriteIsUndoableIff | boot/limine/limine.c:448-497 | For one write under every pattern of errors: undo restores the disk if and only if the blocks before the last already held the data |
| Deshacer.LeakingSchedule | boot/limine/limine.c:448-497 | Otherwise here is the pattern of errors that leaks past the log |
| Instalador.Dispositivo.VaciarCache | boot/limine/limine.c:265-284 | The flush writes the cached block back, or fails leaving it dirty |
| Instalador.Dispositivo.Cargar | boot/limine/limine.c:286-311 | Loading a block flushes the old one first |
| Instalador.Dispositivo.LeerDispositivo | boot/limine/limine.c:426-446 | The chunked reading loop is the specified read |
| Instalador.Dispositivo.EscribirDispositivo | boot/limine/limine.c:448-497 | The write saves the old contents, copies block by block, then counts the entry |
| Instalador.Dispositivo.CopiarACache | boot/limine/limine.c:473-491 | The copying loop is the specified one, failures included |
| Instalador.Dispositivo.InvertirLog | boot/limine/limine.c:327-333 | The undo list is turned round in place |
| Instalador.Dispositivo.DesinstalarTodo | boot/limine/limine.c:499-549 | The uninstall loop, with its one retry, is the specified one |
| Instalador.Dispositivo.SesionFallida | boot/limine/limine.c:499-549 | A whole broken-off installation: success of the clean-up means the file is byte for byte what it was |
| AudioHda.Reproductor.Encolar | nucleo/controladores/audio_hda.c:938-1010 | Accepts what fits in whole stereo samples; the accepted bytes are appended in order, and accepted and rejected bytes are counted |
| AudioHda.Reproductor.Llenar | nucleo/controladores/audio_hda.c:499-573 | A block fill: byte i of the block is the i-th oldest queued byte as far as the queue goes, and zero after that; counters and generation follow |
| AudioHda.Reproductor.IniciarStream | nucleo/controladores/audio_hda.c:1012-1054 | A queue prepared with the hardware at rest is played, both blocks filled with its first bytes (SesionAudio.Escuchar says what is heard); a playing stream is left alone; in any other state, a drain included, what is queued is dropped and silence plays |
| AudioHda.Reproductor.Actualizar | nucleo/controladores/audio_hda.c:759-846 | A position reading is accounted once; a crossed boundary refills the block just left with the next bytes; a drain ends exactly when its test says, and silence started without a queue ends at once |
| AudioHda.Reproductor.Avanzar | nucleo/controladores/audio_hda.c:759-832 | The accounting and refill of one reading |
| AudioHda.Reproductor.Cerrar | nucleo/controladores/audio_hda.c:834-846 | When a stream is stopped |
| AudioHda.Reproductor.Callar | nucleo/controladores/audio_hda.c:563-566 | A block without a stream is filled with silence |
| AudioHda.Reproductor.Recargar | nucleo/controladores/audio_hda.c:814-832 | After T bytes the two blocks hold fills T/65536 and T/65536 + 1, byte by byte with silence behind: none skipped, repeated or overwritten early |
| AudioHda.Reproductor.Contabilizar | nucleo/controladores/audio_hda.c:759-789 | Implausible jumps are not accounted; an accounted one is one block at most |
| AudioHda.Reproductor.Detener | nucleo/controladores/audio_hda.c:854-885 | Stopping empties queue and history |
| AudioHda.Reproductor.Drenar | nucleo/controladores/audio_hda.c:1056-1064 | Draining only changes the state of a playing stream |
| AudioHda.Reproductor.CopiarAlAnillo | nucleo/controladores/audio_hda.c:985-1009 | The wrapping copy into the PCM ring appends the bytes |
| AudioHda.Reproductor.CopiarDelAnillo | nucleo/controladores/audio_hda.c:520-545 | The wrapping copy out of the ring takes the oldest bytes |
| AudioHda.AcceptingKeepsOrder | nucleo/controladores/audio_hda.c:985-1009 | Accepting keeps: accepted = copied in order, then queued |
| AudioHda.FillingKeepsOrder | nucleo/controladores/audio_hda.c:499-573 | Filling keeps it, and keeps copied + silence = 65536 x fills |
| AudioHda.AdvanceIsOneBlockAtMost | nucleo/controladores/audio_hda.c:759-789 | A believable reading agrees with the accounted total and crosses one boundary at most |
| AudioHda.AudioEndsAtCopiedIff | nucleo/controladores/audio_hda.c:833-846 | Copied PCM bytes are the place of the last audible byte exactly when no silence precedes it |
| AudioHda.DrainWaitsForAudioIff | nucleo/controladores/audio_hda.c:833-846 | The drain test waits for the last PCM byte at every reading if and only if no silence came before it |
| AudioHda.DrainingAddsNoGap | nucleo/controladores/audio_hda.c:833-846 | A stream without gaps stays without gaps while it drains |
| AudioHda.UnderrunThenDrain | nucleo/controladores/audio_hda.c:833-846 | A concrete session where the drain stops before the last bytes have been played |
| AudioHda.DrenarSinHuecos | nucleo/controladores/audio_hda.c:833-846 | A stream without gaps, to which nothing more is queued, drains under any position readings: when it stops, the fills that were played are every accepted byte; SesionAudio.Escuchar says the same of the bytes heard |
| SesionAudio.TakenIsHeard | nucleo/controladores/audio_hda.c:499-573 | A step of the hardware of at most one block takes out of the DMA buffer the bytes of the fills it passes |
| SesionAudio.HeardIsCopied | nucleo/controladores/audio_hda.c:499-573 | What is heard, silence left out, is what was copied into the blocks, as far as it was heard |
| SesionAudio.Leer | nucleo/controladores/audio_hda.c:759-846 | One position reading: the bytes taken before it, and the refill after it |
| SesionAudio.Escuchar | nucleo/controladores/audio_hda.c:759-1054 | A whole session from a prepared queue, any bytes queued and any readings: the bytes that the hardware takes, inserted silence left out, are the accepted bytes in order; what is left out is zeros; and when a drain stops a stream into which no silence came before its last byte, they are all of them |
| Vectores.TrueAdvanceIsCounted | nucleo/controladores/audio_hda.c:759-789 | How far the hardware really moved is what is counted, if it was at most a block; a longer way is not believed |
| Marcos.PackedWriteLeavesNeighbours | nucleo/base/memoria.c:67-72 | Writing one two-bit state leaves the other three of its byte alone |
| Marcos.FrameWriteChangesOneFrame | nucleo/base/memoria.c:48-72 | A state write changes the state of one frame only |
| Marcos.PopKeepsChain | nucleo/base/memoria.c:168-176 | Popping keeps the intrusive chain acyclic, ending in 0, without the frame taken |
| Marcos.PushKeepsChain | nucleo/base/memoria.c:198-202 | Pushing keeps it, with the frame given back on top |
| Marcos.TakeKeepsStates | nucleo/base/memoria.c:155-166 | Taking keeps: state 1 is exactly the chain, state 2 exactly the frames handed out |
| Marcos.GiveKeepsStates | nucleo/base/memoria.c:189-196 | Giving back keeps it |
| Marcos.Pmm.constructor | nucleo/base/memoria.c:541-576 | The stack as boot threads it is a valid allocator without states and with nothing handed out |
| Marcos.Pmm.Activar | nucleo/base/memoria.c:624-625 | From then on every frame has a state; frames handed out before stay reserved for good |
| Marcos.Pmm.RangoCon | nucleo/base/memoria.c:48-59 | The range that holds a frame |
| Marcos.Pmm.EstadoLeer | nucleo/base/memoria.c:61-65 | The state read is that of the range that holds the frame |
| Marcos.Pmm.EstadoEscribir | nucleo/base/memoria.c:67-72 | And the write goes there |
| Marcos.Pmm.Asignar | nucleo/base/memoria.c:148-176 | Pops the top frame, before and after the states exist; fails exactly when there is none or the caller is not the coordinator; never panics; no frame has two owners |
| Marcos.Pmm.Liberar | nucleo/base/memoria.c:184-206 | Refused, changing nothing, exactly when the address is not that of a frame that can be given back |
| Arranque.ElegirHeap | nucleo/base/memoria.c:502-516 | The first usable entry that can hold the heap arena, or none exactly when there is none |
| Arranque.ElegirDma | nucleo/base/memoria.c:518-539 | The DMA arena is the lowest aligned place clear of the heap arena in the first usable entry that has one, and none exactly when no entry has |
| Arranque.FirstPlaceIsLowest | nucleo/base/memoria.c:524-534 | The one place tried in an entry is the lowest there is |
| Arranque.Apilar | nucleo/base/memoria.c:541-573 | The stack holds exactly the usable pages outside both arenas, each once |
| Arranque.StackedPagesAre | nucleo/base/memoria.c:541-573 | In bytes: the aligned pages wholly inside a usable entry, from 1 MiB up, that share no byte with an arena |
| Arranque.HeapFitsIff | nucleo/base/memoria.c:502-516 | An entry can hold the heap arena exactly when it has any aligned place for 8 MiB |
| Arranque.Terminar | nucleo/base/memoria.c:611-625 | Marking the stack once there is room for the states leaves a valid allocator in use |
| Arranque.Marcar | nucleo/base/memoria.c:611-623 | Walking the chain marks exactly its frames free; neither panic of the walk can happen |
| Arranque.Iniciar | nucleo/base/memoria.c:502-576 | Arenas and stack: the heap arena, the DMA arena and the stacked frames are pairwise disjoint, and every usable page outside the arenas is stacked |
| Bloques.TakeKeepsHealth | nucleo/base/memoria.c:256-284 | Allocation keeps blocks disjoint and aligned, the same memory covered, and free neighbours only at arena seams |
| Bloques.ReleaseKeepsHealth | nucleo/base/memoria.c:368-397 | Freeing with coalescing keeps all of that |
| Bloques.ArenaKeepsHealth | nucleo/base/memoria.c:211-236 | So does a new arena |
| Bloques.BlocksTileArenas | nucleo/base/memoria.c:211-236 | An address belongs to a block exactly when it belongs to an arena, and to one block only |
| Bloques.TakeAccounts | nucleo/base/memoria.c:256-284 | Allocation keeps total capacity and adds the block to bytes in use and active blocks |
| Bloques.ReleaseAccounts | nucleo/base/memoria.c:368-397 | Freeing takes the same away |
| Bloques.TakeLeavesNoCrumbs | nucleo/base/memoria.c:259-274 | What a split leaves over is a free block of at least 32 bytes, never a fragment nobody can use |
| Bloques.TakeAddsOneLive | nucleo/base/memoria.c:256-284 | Allocation adds one live block, at a pointer that was not live |
| Bloques.ReleaseRemovesOneLive | nucleo/base/memoria.c:368-397 | Freeing removes exactly one |
| Bloques.TakeKeepsMerged | nucleo/base/memoria.c:256-284 | Splitting leaves no two free blocks touching inside an arena |
| Bloques.MergePreviousLeavesNone | nucleo/base/memoria.c:386-397 | After both joins no free neighbours are left |
| Bloques.MeltingCovers | nucleo/base/memoria.c:373-397 | Melting touching neighbours together covers the same addresses |
| Monton.Monton.constructor | nucleo/base/memoria.c:86-90 | An empty heap is valid over any valid frame allocator |
| Monton.Monton.AgregarArena | nucleo/base/memoria.c:211-236 | The region becomes one free block at the end of the list; too small a region is ignored |
| Monton.Monton.BuscarHueco | nucleo/base/memoria.c:246-283 | The walk of the header chain finds the first fit, and no canary on it is broken |
| Monton.Monton.Dividir | nucleo/base/memoria.c:259-276 | The in-place split links the rest of the block after it |
| Monton.Monton.Ocupar | nucleo/base/memoria.c:256-284 | Taking a block, split or whole, is the list operation; no byte of a live block changes |
| Monton.Monton.ObtenerTramo | nucleo/base/memoria.c:299-321 | Pages arriving upwards or downwards form exactly one unbroken run; the run stops short only when the frames run out or the next one does not extend it, and that one goes back |
| Monton.Monton.Incorporar | nucleo/base/memoria.c:323-323 | The run becomes an arena: every frame taken lies in one, and no block touches a frame of others |
| Monton.Monton.Expandir | nucleo/base/memoria.c:286-335 | Expansion stops with room, after 128 attempts, or with no frame left; it has room at once when the frames on top of the stack follow one another, upwards or downwards; popped frames are all in arenas |
| Monton.Monton.Asignar | nucleo/base/memoria.c:238-336 | First fit over the list, grown if need be; the repeated request succeeds without expanding again, so allocation terminates; it cannot fail while enough frames on top of the stack follow one another |
| Monton.GrantedIsLive | nucleo/base/memoria.c:238-336 | A granted pointer is 16-aligned, new, the only change among live blocks, and has the size asked or less than 80 bytes more |
| Monton.FewestPages | nucleo/base/memoria.c:286-293 | An expansion asks for the fewest pages that hold the request, its header and a page more, and 2 MiB at least |
| Monton.Monton.Absorber | nucleo/base/memoria.c:373-397 | Joining a block with the next one, header by header, is the list operation |
| Monton.Monton.Desligar | nucleo/base/memoria.c:361-397 | Freeing in place is the list operation |
| Monton.Monton.Liberar | nucleo/base/memoria.c:346-398 | A pointer that is not live is a panic that changes nothing; a live one is freed, with all invariants kept |
| Monton.Monton.Reasignar | nucleo/base/memoria.c:400-424 | The block stays or moves with its contents; no other live block or byte changes; a refusal leaves everything live |
| Monton.Monton.CopiarDatos | nucleo/base/memoria.c:421-421 | A copy that fills a live block damages no header |
| Monton.Auditar | nucleo/base/memoria.c:426-449 | Whatever the headers hold: the audit passes exactly when every header the walk comes to has both canaries and is pointed back at by the next, and is a panic otherwise |
| Monton.Monton.VerificarIntegridad | nucleo/base/memoria.c:426-449 | The audit of a valid heap always returns 1 |
| Monton.Monton.PrimeraPagina | nucleo/base/memoria.c:582-588 | Without an 8 MiB arena the heap starts on one page, if there is one |
| Monton.Monton.CrearRangos | nucleo/base/memoria.c:590-610 | A range for every usable entry, apart from each other, its zeroed state bytes a live heap block large enough; a panic only past 128 entries or when the heap cannot grow |
| Monton.Monton.UnArreglo | nucleo/base/memoria.c:602-609 | One such array: a new live block, and no other change among live blocks |
| Monton.Arrancar | nucleo/base/memoria.c:502-625 | The whole boot: the heap, on its arena or on one page, is valid over the allocator in use; its live blocks are exactly the state arrays; frames taken before there were states all lie in the heap and stay reserved; arenas and free frames are disjoint |
| Tablas.WordSplits | nucleo/base/paginacion.c:123-123 | Or-ing an address under the mask with flags outside it keeps both |
| Tablas.PageFromIndices | nucleo/base/paginacion.c:87-90 | The four indices are the digits of the page number in base 512, the table at the root holding the highest |
| Tablas.IndicesDeterminePage | nucleo/base/paginacion.c:87-90 | The four nine-bit indices determine the page |
| Tablas.SameTableSameWay | nucleo/base/paginacion.c:92-120 | Two walks that meet in a table took the same way to it |
| Tablas.LeafWriteChangesOnePage | nucleo/base/paginacion.c:123-123 | Writing the leaf of a page changes the translation of that page only |
| Tablas.LeafWriteKeepsTree | nucleo/base/paginacion.c:123-123 | And keeps the tables a tree |
| Tablas.HangKeepsTree | nucleo/base/paginacion.c:93-98 | Hanging a new table keeps the tables a tree of distinct frames |
| Tablas.HangChangesNothing | nucleo/base/paginacion.c:93-98 | And changes no translation |
| Paginacion.Paginador.Descender | nucleo/base/paginacion.c:93-100 | One level down: the table is there or is hung; no translation and no permission changes either way |
| Paginacion.Paginador.ColgarTabla | nucleo/base/paginacion.c:93-97 | A zeroed table for a missing entry: no translation and no permission changes, and the frame taken is the table |
| Paginacion.Paginador.Mapear | nucleo/base/paginacion.c:77-129 | Success changes the translation of exactly one page; failure, even after hanging tables, of none; frames taken are exactly the new tables. -1 and -3 say exactly that a batch is in course or paging off, and that the walk meets a large page; -2 that no frame can be had. The page may be written or used by the user exactly as its flags and the way to it grant; permissions of other pages stay |
| Paginacion.Paginador.Desmapear | nucleo/base/paginacion.c:131-158 | Removes exactly one translation; permissions of other pages stay |
| Paginacion.Paginador.ObtenerFisica | nucleo/base/paginacion.c:160-190 | Answers the translation of the walk, for 4 KiB, 2 MiB and 1 GiB pages; Paginacion.MapearYDesmapear and Paginacion.LargePageTranslates say what that is |
| Paginacion.MapearYDesmapear | nucleo/base/paginacion.c:77-190 | Any address asked for before a mapping, under it and after it has been undone: in the mapped page every byte is found where the physical page has it, and then nowhere; other pages never notice |
| Paginacion.LargePageTranslates | nucleo/base/paginacion.c:176-185 | An entry that maps 2 MiB or 1 GiB answers every address of that page: its aligned frame and the low 21 or 30 bits of the address |
| Permisos.LeafWriteDecides | nucleo/base/paginacion.c:123-123 | Writing a leaf decides what its page may be used for, what leaf and way both grant, and no other page |
| Permisos.HangPermitsNothing | nucleo/base/paginacion.c:93-98 | Hanging a table changes no permission |
| Permisos.HangExtendsWay | nucleo/base/paginacion.c:96-96 | The way to a page grants what it granted and what the new entry grants |
| Permisos.WayGrantsIff | nucleo/base/paginacion.c:92-120 | The way to a page grants exactly what every entry followed on it grants |
| Vectores.EntryBits | nucleo/base/paginacion.h:8-15 | Present is bit 0 of an entry and large page bit 7 |
| Vectores.PermissionBits | nucleo/base/paginacion.h:9-10 | Writable is bit 1 and user bit 2 |
| Permisos.KernelTableForbids | nucleo/base/paginacion.c:93-120 | A user leaf below an existing table of the kernel, at whatever level, is not for the user |
| Ioremap.Mapeador.MapearTramo | nucleo/compatibilidad/linux.c:142-150 | All pages of the range are mapped in order, or every translation is as before |
| Ioremap.RollbackRestores | nucleo/compatibilidad/linux.c:144-149 | Mapping empty pages and unmapping them again changes nothing |
| Ioremap.RegionAdded | nucleo/compatibilidad/linux.c:139-150 | Regions stay apart by a guard page, mapped to their ranges, with nothing else in the window |
| Ioremap.RegionRemoved | nucleo/compatibilidad/linux.c:182-188 | Releasing one keeps that |
| Ioremap.Mapeador.Mapear | nucleo/compatibilidad/linux.c:132-164 | A region at the cursor, recorded if a record was free, or a failure that restores cursor, table and translations and has a reason: a batch in course, paging off, no frame, or a root entry with the large-page bit |
| Ioremap.Mapeador.MapearYConsultar | nucleo/compatibilidad/linux.c:132-164 | Every byte of a mapped range is found at its own physical address, page borders included |
| Ioremap.Mapeador.Registrar | nucleo/compatibilidad/linux.c:152-160 | The record goes to the first free slot and no other record changes; a full table stays as it is and leaves the region live without a record |
| Ioremap.RecordedIff | nucleo/compatibilidad/linux.c:152-160 | A new region has a record if and only if one was free; no other record changes |
| Ioremap.Mapeador.Desmapear | nucleo/compatibilidad/linux.c:178-192 | Releases the registered region at the address; during a batch of work its pages stay mapped though its record goes |
| Ioremap.Mapeador.MapearYDesmapear | nucleo/compatibilidad/linux.c:132-192 | A region mapped and released is gone, with every translation as before, if and only if a record was free and no batch of work was in course at the release; otherwise it stays mapped without a record |
| Ioremap.Mapeador.Cumplir | nucleo/compatibilidad/linux.c:132-192 | The effect of one mapping or release |
| Ioremap.Mapeador.Sesion | nucleo/compatibilidad/linux.c:132-192 | Any mappings and releases, each tied to its result and its effect: a region without a record stays live and mapped page by page through all of them |
| Dma.Arena.Asignar | nucleo/base/dma.c:83-130 | Gives the lowest place whose bytes lie inside the arena, aligned, on pages no live buffer touches, and marks exactly the pages the buffer touches; fails exactly when the size is out of range or there is no such place |
| Dma.Arena.Liberar | nucleo/base/dma.c:132-177 | Succeeds exactly for a live address and size, and clears exactly the pages the buffer touches; otherwise changes nothing; the later rejections cannot happen |
| Dma.Arena.LiveBuffersAreApart | nucleo/base/dma.c:83-130 | Live buffers lie inside the arena, byte by byte, and share no byte |
| Dma.Arena.MarkedAreTouched | nucleo/base/dma.c:83-177 | A page is marked exactly when a live buffer has a byte in it |
| Dma.Arena.TomarYDevolver | nucleo/base/dma.c:83-177 | Allocate then free restores bitmap, sizes and counts |
| Dma.NewIsReflected | nucleo/base/dma.c:105-112 | Set bits are exactly the disjoint union of live allocations, after an allocation |
| Dma.FreedIsReflected | nucleo/base/dma.c:157-163 | And after a free |
| Dma.Arena.BuscarSitio | nucleo/base/dma.c:92-103 | The search finds the first aligned place, if there is one |
| Dma.Arena.MarcarTramo | nucleo/base/dma.c:106-108 | Marks exactly the run |
| Dma.Arena.LimpiarTramo | nucleo/base/dma.c:159-163 | Clears exactly the run |
| Trabajos.RunKeepsInvariant | nucleo/base/trabajos.c:7-27 | Every state of every interleaving keeps the invariant, through 2^32 claims |
| Trabajos.NoRegionTwice | nucleo/base/trabajos.c:13-23 | No region runs twice, or is counted twice |
| Trabajos.FinishedMeansEveryRegion | nucleo/base/trabajos.c:25-27 | completados <= total, and finished means every region claimed and counted once, run exactly when its check preceded the cancellation |
| Trabajos.ExecutedPlusSkipped | nucleo/base/trabajos.c:18-21 | With no step in flight, executed plus skipped is counted |
| Trabajos.WrappedCounterRepeats | nucleo/base/trabajos.c:15-15 | From a fresh batch, one executor that keeps asking runs region 0 a second time on claim 2^32 + 1 |
| Trabajos.RepeatsIff | nucleo/base/trabajos.c:13-23 | Some run with m claims runs a region twice if and only if m > 2^32 |
| Trabajos.CheckTellsWhetherCancelled | nucleo/base/trabajos.c:17-24 | The check of a region lets it run exactly when nobody has cancelled before the check |
| Trabajos.NothingStartsAfterCancel | nucleo/base/trabajos.c:17-24 | After a cancellation no further region is let through, whatever the executors do |
| Trabajos.EntersWhileOpen | nucleo/base/trabajos.c:14 | An executor enters exactly while the batch has not been closed |
| Trabajos.NobodyEntersAfterClose | nucleo/base/trabajos.c:14 | Once it is closed, an executor that is outside stays outside |
| CorridasNtfs.DecodingInverts | nucleo/controladores/ntfs.c:785-825 | Decoding inverts the signed variable-length encoding of every list of at most 64 runs that 64 bits hold, and refuses the others |
| CorridasNtfs.ExtentsTile | nucleo/controladores/ntfs.c:819-823 | Extents tile the VCN range from 0, with LCNs the running sums of the offsets |
| CorridasNtfs.AcceptedExtentsTile | nucleo/controladores/ntfs.c:785-825 | Any accepted list, however packed, tiles its range |
| CorridasNtfs.SignedRoundTrip | nucleo/controladores/ntfs.c:804-813 | Two's complement of any size up to eight bytes comes back |
| CorridasNtfs.LeerNumero | nucleo/controladores/ntfs.c:796-799 | The accumulating loop reads the little-endian number |
| CorridasNtfs.DecodificarCorridas | nucleo/controladores/ntfs.c:785-825 | The decoding loop answers the specified list, or -6 |
| Vectores.OneRun | nucleo/controladores/ntfs.c:785-825 | 21 18 34 56 00 is one run of 0x18 clusters at 0x5634 |
| Vectores.RunsBothWays | nucleo/controladores/ntfs.c:785-825 | Three packed runs, the last of them behind the one before it on the disk |
| StreamNtfs.Stream.Leer | nucleo/controladores/ntfs.c:845-901 | A read gives the matching slice of the concatenated clusters and stops only at the end or at a cluster without a place, when labels tell the clusters apart and no sector address comes round 64 bits |
| StreamNtfs.RunBytesOnDisk | nucleo/controladores/ntfs.c:876-894 | Each run of a file is a run of device bytes from sector inicio + lcn * sectores of its first cluster on |
| StreamNtfs.Stream.Cargar | nucleo/controladores/ntfs.c:867-889 | The labelled one-cluster cache, with cluster and sector addresses in 64 bits |
| StreamNtfs.Stream.LeerDelCluster | nucleo/controladores/ntfs.c:862-897 | One turn of the loop |
| StreamNtfs.RightPlaceIff | nucleo/controladores/ntfs.c:877-883 | The driver goes to the right sector, or to none when there is none, if and only if the address does not come round |
| StreamNtfs.Stream.DirectIff | nucleo/controladores/ntfs.c:877-883 | So for all clusters of a file |
| StreamNtfs.SmallNumbersStayStraight | nucleo/controladores/ntfs.c:880-883 | No address comes round when all clusters are numbered below some n at which addresses fit, such as the number of clusters of the volume |
| StreamNtfs.AddressComesRound | nucleo/controladores/ntfs.c:880-883 | A run the decoder accepts whose one cluster has no place and is read at the boot sector |
| StreamNtfs.LecturaDesviada | nucleo/controladores/ntfs.c:880-889 | For any file with a cluster whose address comes round, a first read there gives what lies at the address it comes to |
| StreamNtfs.AcceptedIsOpenable | nucleo/controladores/ntfs.c:785-825 | Whatever the decoder accepts has extents within 64 bits |
| StreamNtfs.LecturaRancia | nucleo/controladores/ntfs.c:880-889 | A cluster whose label is that of an empty cache, 2^32 - 1, is at its first read what the buffer held before |
| StreamNtfs.LecturaCruzada | nucleo/controladores/ntfs.c:880-889 | Of two clusters with one label the second is read as the first |
| StreamNtfs.Stream.FewClustersAreToldApart | nucleo/controladores/ntfs.c:880-889 | Labels tell clusters apart in files of at most 2^32 - 1 of them |
| Trozos.ChunkIsSlice | nucleo/controladores/ntfs.c:891-894 | A chunk of a cached block is a slice of the file |
| Trozos.SlicesJoin | nucleo/controladores/ntfs.c:864-897 | Consecutive slices join |
| Trozos.RunOfBytes | nucleo/controladores/ntfs.c:876-894 | Blocks that lie one after the other on the medium are one run of device bytes |
| ArbolExt4.DescentIsLookup | nucleo/controladores/ext4.c:198-243 | On every well-formed tree of depth at most 5 the descent answers what a lookup in the flattened extent list answers, and fails exactly on holes |
| ArbolExt4.MapearBloque | nucleo/controladores/ext4.c:198-243 | The descent loop ends on any tree, since depth strictly falls, and answers the specified descent |
| ArbolExt4.RecorrerHoja | nucleo/controladores/ext4.c:213-227 | The leaf scan |
| ArbolExt4.RecorrerIndices | nucleo/controladores/ext4.c:228-239 | The index scan |
| ArbolExt4.NothingOutside | nucleo/controladores/ext4.c:228-239 | Nothing in a tree lies outside the range its parent gives it |
| NodosExt4.WrittenLeafIsRead | nucleo/controladores/ext4.c:208-213 | A leaf node packed entry by entry is read back as those extents |
| NodosExt4.WrittenIndexIsRead | nucleo/controladores/ext4.c:228-239 | So is an index node |
| NodosExt4.WrittenLeafIsFollowed | nucleo/controladores/ext4.c:198-227 | In a file whose extents fit one node each block is where its extent puts it, and blocks of no extent are nowhere |
| NodosExt4.WrittenFileOnDisk | nucleo/controladores/ext4.c:1092-1115 | Each extent of such a file is a run of device bytes from the first sector of its first block on |
| StreamExt4.FaithfulIff | nucleo/controladores/ext4.c:1026-1039 | On any leaf, overlaps and rejected extents included, the remembered extent always agrees with the descent if and only if every extent that is ever remembered has nonzero 32-bit block numbers and each extent the descent stops at for one of its blocks is accepted and gives that block the same number |
| StreamExt4.RootLeafFields | nucleo/controladores/ext4.c:1026-1031 | The leaf in any inode is such a leaf |
| StreamExt4.FaithfulIffHarmless | nucleo/controladores/ext4.c:1026-1039 | On a leaf without overlaps that comes down to each extent alone: block numbers nonzero and below 2^32, or never remembered |
| StreamExt4.FormedIsFaithful | nucleo/controladores/ext4.c:1092-1100 | In particular on every well-formed leaf |
| StreamExt4.OverlapMisleads | nucleo/controladores/ext4.c:1026-1039 | With overlapping extents it can disagree: a concrete leaf |
| StreamExt4.Stream.Resolver | nucleo/controladores/ext4.c:1092-1100 | The physical block of a logical one is what the descent says, remembered or not |
| StreamExt4.Stream.Recordar | nucleo/controladores/ext4.c:1026-1039 | Remembers the first extent of the inode that holds the block, when there is one; otherwise what was remembered stays |
| StreamExt4.Stream.Leer | nucleo/controladores/ext4.c:1075-1124 | A read gives the file bytes as the extent tree places them, and stops only at the end or at a hole, when remembering is faithful and block 2^32 - 1 is past the end or a hole |
| StreamExt4.LecturaRancia | nucleo/controladores/ext4.c:1102-1111 | Otherwise the first read of block 2^32 - 1 gives what the buffer held before |

## Left out

- FatLector.Volumen.Leer: sector reads succeed and are not cancelled; a cache label that outlives a failed refill is not modelled, nor are device removal and generations.
- Mounting: the scan of the root for bitmap, up-case table and label, and the choice between main and backup boot region. The name codec and the directory iterator are given the up-case table as a function.
- ConjuntoExfat.WriterAndReaderAgree: asks that the volume's up-case table folds printable ASCII as the standard one does; timestamps are zero, as the writer leaves them.
- Discos.Particionado.Descubrir: starts where the disk is known not to be one volume as a whole; telling the formats of the partitions apart is left out.
- RegistroNtfs.AplicarFixups: the number is read after the check on the size of the array, not before; the verdict is the same.
- FAT32 long names, path resolution, FAT32 writing and the whole-file readers.
- EscrituraExfat.Escritor.CrearArchivo: the scan for an existing name is an input; sectors tear whole, and cluster addresses do not collide with the boot sectors. Creating a directory follows the same steps and is not modelled apart from its entry set.
- AudioHda.Reproductor.IniciarStream: playing from a fixed buffer (its loop flag is clear), registers, codec verbs, stream reset handshakes, the stall timeout, a switch of position source, the BCIS fallback and clock resets; counters and generations are unbounded.
- Deshacer.UninstallRestoresDisk: the command line, GPT patching, the uninstall file and memory exhaustion.
- Marcos.Pmm.Asignar: clearing the page is modelled by its first word only.
- Monton.Arrancar: the heap blocks of the state arrays are live and large enough, but the states themselves are kept beside the bytes of the heap.
- Marcos.Pmm.Liberar: before the states exist, asks for a frame that was handed out; the only caller then is the heap.
- Monton.Monton.Asignar: sizes do not wrap in 64 bits; serial messages.
- Monton.Monton.Liberar: asks that some header lies before the pointer; canaries overwritten by an owner that runs past its block are outside the model, as is a header word whose owner forged it.
- Paginacion.Paginador.Mapear: TLB invalidation; flags carry no address bits and physical addresses have 52 bits. The PML4 built at boot is an input.
- Paginacion.Paginador.Desmapear: asks that the walk meets no large page, as its callers ensure.
- Ioremap.Mapeador.Mapear: asks that the window is not exhausted.
- Dma.Arena.Asignar: cache-line flushes and clearing of the buffer; an arena of 4 GiB or more, whose sizes would not fit the size table.
- Trabajos.RunKeepsInvariant: memory operations are sequentially consistent; waking executors, epochs and cycle counts.
- CorridasNtfs.DecodingInverts: runs with an explicit offset; a run without one decodes as offset 0, as the code does, which is not what a sparse run means.
- StreamNtfs.Stream.Leer: resident files, cancellation and failed sector reads.
- StreamExt4.Stream.Leer: cancellation, failed sector reads and direct blocks of inodes without extents.
- The arrays of the DMA bitmap hold unbounded numbers; only bits below 64 of each word are ever set.
- Console, framebuffer, USB, PCI, APIC, VFS and the multimedia player.
