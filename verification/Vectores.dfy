/** Known answers: examples and layouts that the standards publish, checked against the definitions
    that readers and writers share. */
module Vectores {
  import opened Bytes
  import opened Bits
  import U = Utf
  import N = CorridasNtfs
  import R = RegistroNtfs
  import M = Mayusculas
  import C = ConjuntoExfat
  import E = EscrituraExfat
  import A = AudioHda
  import T = Tablas
  import P = Permisos

  // ----- UTF-8 and UTF-16 -----

  /** The cent sign, the euro sign and the Gothic letter hwair, as in RFC 3629 and RFC 2781. */
  lemma KnownCharacters()
    ensures U.Bytes8(0x24) == [0x24] && U.Bytes8(0xA2) == [0xC2, 0xA2] && U.Bytes8(0x20AC) == [0xE2, 0x82, 0xAC]
    ensures U.Bytes8(0x1_0348) == [0xF0, 0x90, 0x8D, 0x88]
    ensures U.Unidades(0x20AC) == [0x20AC] && U.Unidades(0x1_0348) == [0xD800, 0xDF48]
    ensures U.Unidades(0x10_FFFF) == [0xDBFF, 0xDFFF]
  {
  }

  // ----- NTFS runs -----

  lemma Numbers(a: byte, b: byte)
    ensures N.Valor([a]) == a && N.Valor([a, b]) == a + 256 * b
    ensures N.ConSigno([a]) == (if a >= 128 then a - 256 else a)
    ensures N.ConSigno([a, b]) == a + 256 * (if b >= 128 then b - 256 else b)
  {
    assert [a][1..] == [] && [a, b][1..] == [b] && [b][1..] == [];
    assert N.Valor([]) == 0;
    assert N.Valor([b]) == b;
    assert N.Pot256(2) == 65536;
  }

  lemma HeaderNibbles(m: nat)
    ensures (16 * m + 1) % 16 == 1 && (16 * m + 1) / 16 == m
  {
  }

  /** A run packed in a length of one byte and an offset of `m`. */
  lemma RunIs(m: nat, largo: byte, campo: seq<byte>, resto: seq<byte>, k: nat, vcn: nat, lcn: int)
    requires 1 <= m <= 2 && |campo| == m && largo > 0 && k < N.MAX_EXTENTS && vcn < DOS32
    requires -0x8000 <= N.ConSigno(campo) < 0x8000 && 0 <= lcn < DOS32
    ensures var delta := N.ConSigno(campo);
            N.Decodificar([16 * m + 1, largo] + campo + resto, k, vcn, lcn) ==
            N.Antes(N.Extent(vcn, largo, lcn + delta), N.Decodificar(resto, k + 1, vcn + largo, lcn + delta))
  {
    hide N.Valor, N.ConSigno, N.Antes;
    var s := [16 * m + 1, largo] + campo + resto;
    HeaderNibbles(m);
    assert s[0] == 16 * m + 1 && s[1..2] == [largo] && s[2..2 + m] == campo && s[2 + m..] == resto;
    Numbers(largo, 0);
  }

  lemma NoMoreRuns(k: nat, vcn: nat, lcn: int)
    requires k <= N.MAX_EXTENTS
    ensures N.Decodificar([0], k, vcn, lcn) == N.Buena([])
  {
  }

  /** One run: 0x18 clusters at 0x5634. */
  lemma OneRun()
    ensures N.Decodificar([0x21, 0x18, 0x34, 0x56, 0], 0, 0, 0) == N.Buena([N.Extent(0, 0x18, 0x5634)])
  {
    hide N.Decodificar, N.ConSigno, N.Valor;
    Numbers(0x34, 0x56);
    RunIs(2, 0x18, [0x34, 0x56], [0], 0, 0, 0);
    NoMoreRuns(1, 0x18, 0x5634);
    assert [0x21, 0x18] + [0x34, 0x56] + [0] == [0x21, 0x18, 0x34, 0x56, 0];
  }

  /** Three runs, the last of them behind the one before it on the disk. */
  lemma RunsBothWays()
    ensures N.Decodificar([0x11, 0x30, 0x60, 0x21, 0x10, 0x00, 0x01, 0x11, 0x20, 0xE0, 0x00], 0, 0, 0) ==
            N.Buena([N.Extent(0, 0x30, 0x60), N.Extent(0x30, 0x10, 0x160), N.Extent(0x40, 0x20, 0x140)])
  {
    hide N.Decodificar, N.ConSigno, N.Valor;
    var c: seq<byte> := [0x11, 0x20, 0xE0, 0x00];
    var b: seq<byte> := [0x21, 0x10, 0x00, 0x01, 0x11, 0x20, 0xE0, 0x00];
    Numbers(0x60, 0);
    Numbers(0x00, 0x01);
    Numbers(0xE0, 0);
    RunIs(1, 0x30, [0x60], b, 0, 0, 0);
    RunIs(2, 0x10, [0x00, 0x01], c, 1, 0x30, 0x60);
    RunIs(1, 0x20, [0xE0], [0], 2, 0x40, 0x160);
    NoMoreRuns(3, 0x60, 0x140);
    assert [0x11, 0x20] + [0xE0] + [0] == c;
    assert [0x21, 0x10] + [0x00, 0x01] + c == b;
    assert [0x11, 0x30] + [0x60] + b == [0x11, 0x30, 0x60, 0x21, 0x10, 0x00, 0x01, 0x11, 0x20, 0xE0, 0x00];
  }

  /** The last two bytes of each sector of a record come out of the array, in order; no other changes. */
  lemma SectorEndsComeBack(b: seq<byte>, u: nat, n: nat, s: nat, k: nat)
    requires R.ConArreglo(b, u, n) && R.Aparte(u, n) && s < n && k < 512
    ensures 512 * s + k < |b|
    ensures R.Corregido(b, u, n)[512 * s + k] ==
            if k == 510 then b[u + 2 + 2 * s] else if k == 511 then b[u + 3 + 2 * s] else b[512 * s + k]
  {
    hide R.Corregido, R.Aparte;
    R.PutBackEverywhere(b, u, n, n);
    DivModUnique(512 * s + k, 512, s, k);
    assert R.Corregido(b, u, n)[512 * s + k] == R.Devuelto(b, u, n, 512 * s + k);
  }

  // ----- The up-case table -----

  /** A table that begins with a run of 0x61 characters and then folds "a": section 7.2.5.1 of the exFAT
      specification. */
  lemma FirstLetterFolds()
    ensures var e := M.Tras([0xffff, 0x61, 0x41]);
            e.Expansion? && !e.salto && |e.tabla| == 0x62 && e.tabla[0x61] == 0x41
            && forall c :: 0 <= c < 0x61 ==> e.tabla[c] == c
  {
    var v: seq<M.u16> := [];
    M.TrasAppend(v, 0xffff);
    M.TrasAppend([0xffff], 0x61);
    M.TrasAppend([0xffff, 0x61], 0x41);
    assert [0xffff] + [0x61] == [0xffff, 0x61] && [0xffff, 0x61] + [0x41] == [0xffff, 0x61, 0x41] && v + [0xffff] == [0xffff];
  }

  // ----- Rotating checksums -----

  /** One step of the 16-bit checksum turns the number right by one bit: doubled, it is the number again,
      the bit that fell off having come back at the top. */
  lemma TurnsOneBit16(h: nat, b: byte)
    requires h < 0x1_0000
    ensures var t := C.Checksum16(h, 0);
            2 * t == (if h % 2 == 0 then h else h + 0xffff) && C.Checksum16(h, b) == (t + b) % 0x1_0000
  {
  }

  lemma TurnsOneBit32(h: nat, b: byte)
    requires h < 0x1_0000_0000
    ensures var t := M.Rotar(h, 0);
            2 * t == (if h % 2 == 0 then h else h + 0xffff_ffff) && M.Rotar(h, b) == (t + b) % 0x1_0000_0000
  {
  }

  // ----- exFAT entries and flags -----

  /** Which entries the reader of a directory passes over, section 6.2.1 of the exFAT specification: those
      not in use (bit 7 clear), the bitmap, the up-case table and the label of a root, and benign ones
      (bit 5). A file is 0x85, 0 ends the directory, and anything else is not supported. */
  lemma EntriesPassedOver(v: C.Volumen, e: C.Entrada, es: seq<C.Entrada>)
    requires v.bytesCluster > 0
    ensures var uso, critica := e[0] / 128 % 2 == 1, e[0] / 32 % 2 == 0;
            C.SiguienteDe(v, [e] + es) ==
            if e[0] == 0 then C.Fin
            else if e[0] == 0x85 then C.Hallado(C.LeerConjunto(v, [e] + es))
            else if uso && critica && !(0x81 <= e[0] <= 0x83) then C.Hallado(C.Fallo(-21))
            else C.SiguienteDe(v, es)
  {
    hide C.LeerConjunto;
    assert ([e] + es)[1..] == es;
  }

  /** The flag is bit 1 of byte 106 of the boot sector. */
  lemma DirtyFlagIs(s: seq<byte>)
    requires |s| == 512
    ensures E.Sucio(s) <==> s[106] / 2 % 2 == 1
  {
    BitsAreWorth(s[106], 1);
  }

  /** How far the hardware really moved between two readings is what is counted, if it was at most a
      block; a longer way is not believed. */
  lemma TrueAdvanceIsCounted(total: nat, d: nat)
    requires 0 < d < 0x2_0000
    ensures A.Creible(total % 0x2_0000, (total + d) % 0x2_0000) <==> d <= 0x1_0000
    ensures A.Avance(total % 0x2_0000, (total + d) % 0x2_0000) == d
  {
  }

  // ----- Page table entries -----

  /** The bits of an entry, by their place in the word. */
  lemma EntryBits(w: T.Palabra)
    ensures T.EsPresente(w) <==> w.banderas & 0x1 != 0
    ensures T.EsGigante(w) <==> w.banderas & 0x80 != 0
  {
  }

  lemma PermissionBits(b: bv64)
    ensures P.Concede(b, P.DeEscritura) <==> b & 0x2 != 0
    ensures P.Concede(b, P.DeUsuario) <==> b & 0x4 != 0
  {
  }
}
