/** The three directory entries of an exFAT file: as the writer lays them out, and as the reader
    takes them apart (sections 6.3 to 6.4 and 7.4 to 7.7 of the exFAT specification). */
module ConjuntoExfat {
  import opened Bytes
  import opened Particiones
  import opened Utf

  const ENTRADA: nat := 32
  const VOLUMEN_NO_SOPORTADO: int := -21

  // ----- Checksums -----

  function Checksum16(h: nat, b: byte): (r: nat)
    requires h < DOS16
    ensures r < DOS16
  {
    (h / 2 + h % 2 * 0x8000 + b) % DOS16
  }

  /** The checksum of the first `n` bytes of a set; the field that holds it is not counted. */
  function SumaDe(s: seq<byte>, n: nat): (h: nat)
    requires n <= |s|
    ensures h < DOS16
  {
    if n == 0 then 0
    else if n - 1 == 2 || n - 1 == 3 then SumaDe(s, n - 1)
    else Checksum16(SumaDe(s, n - 1), s[n - 1])
  }

  /** The checksum of whole entries, continued from `h`. */
  function SumaMas(h: nat, e: seq<byte>, n: nat): (r: nat)
    requires h < DOS16 && n <= |e|
    ensures r < DOS16
  {
    if n == 0 then h else Checksum16(SumaMas(h, e, n - 1), e[n - 1])
  }

  lemma {:induction false} SumContinues(s: seq<byte>, m: nat, e: seq<byte>, n: nat)
    requires 4 <= m && n <= |e| && m + n <= |s| && forall k :: 0 <= k < n ==> s[m + k] == e[k]
    ensures SumaDe(s, m + n) == SumaMas(SumaDe(s, m), e, n)
  {
    hide Checksum16;
    if n > 0 {
      SumContinues(s, m, e, n - 1);
      assert s[m + (n - 1)] == e[n - 1];
    }
  }

  lemma {:induction false} SumOfSame(s: seq<byte>, t: seq<byte>, n: nat)
    requires n <= |s| && n <= |t| && forall k :: 0 <= k < n && k != 2 && k != 3 ==> s[k] == t[k]
    ensures SumaDe(s, n) == SumaDe(t, n)
  {
    hide Checksum16;
    if n > 0 {
      SumOfSame(s, t, n - 1);
    }
  }

  // ----- The writer's layout -----

  predicate NombreAscii(nombre: seq<byte>) {
    1 <= |nombre| <= 15 && forall k :: 0 <= k < |nombre| ==>
      32 <= nombre[k] <= 126 && nombre[k] as int != '/' as int && nombre[k] as int != '\\' as int
  }

  function Mayuscula(c: byte): byte {
    if 97 <= c <= 122 then c - 32 else c
  }

  /** The name hash: the checksum of the upper-case UTF-16 name. */
  function HashDe(nombre: seq<byte>, n: nat): (h: nat)
    requires n <= |nombre|
    ensures h < DOS16
  {
    if n == 0 then 0 else Checksum16(Checksum16(HashDe(nombre, n - 1), Mayuscula(nombre[n - 1])), 0)
  }

  function EntradaArchivo(suma: nat, dir: bool): (e: seq<byte>)
    requires suma < DOS16
    ensures |e| == ENTRADA
  {
    [0x85, 2, suma % 256, suma / 256, if dir then 0x10 else 0x20, 0] + Ceros(26)
  }

  function Ceros(n: nat): (z: seq<byte>)
    ensures |z| == n && forall k :: 0 <= k < n ==> z[k] == 0
  {
    seq(n, k => 0)
  }

  lemma Digits256(x: nat)
    ensures x == x % 256 + 256 * (x / 256 % 256) + 65536 * (x / 65536 % 256 + 256 * (x / 16777216))
  {
    assert x / 65536 == x / 256 / 256 && x / 16777216 == x / 256 / 256 / 256;
  }

  function Le32(x: nat): (r: seq<byte>)
    requires x < DOS32
    ensures |r| == 4 && U32(r, 0) == x
  {
    Digits256(x);
    [x % 256, x / 256 % 256, x / 65536 % 256, x / 16777216]
  }

  /** Byte `k` of the stream entry. */
  function FlujoEn(nombre: seq<byte>, cluster: nat, tamano: nat, k: nat): (b: byte)
    requires |nombre| <= 15 && cluster < DOS32 && tamano < DOS32
  {
    if k == 0 then 0xC0
    else if k == 1 then (if tamano > 0 then 3 else 1)
    else if k == 3 then |nombre|
    else if k == 4 then HashDe(nombre, |nombre|) % 256
    else if k == 5 then HashDe(nombre, |nombre|) / 256
    else if 8 <= k < 12 then Le32(tamano)[k - 8]
    else if 20 <= k < 24 then Le32(cluster)[k - 20]
    else if 24 <= k < 28 then Le32(tamano)[k - 24]
    else 0
  }

  function EntradaFlujo(nombre: seq<byte>, cluster: nat, tamano: nat): (e: seq<byte>)
    requires |nombre| <= 15 && cluster < DOS32 && tamano < DOS32
    ensures |e| == ENTRADA && forall k :: 0 <= k < ENTRADA ==> e[k] == FlujoEn(nombre, cluster, tamano, k)
  {
    seq(ENTRADA, k requires 0 <= k < ENTRADA => FlujoEn(nombre, cluster, tamano, k))
  }

  function EntradaNombre(nombre: seq<byte>): (e: seq<byte>)
    requires |nombre| <= 15
    ensures |e| == ENTRADA
  {
    seq(ENTRADA, k requires 0 <= k < ENTRADA =>
      if k == 0 then 0xC1 else if k >= 2 && k % 2 == 0 && (k - 2) / 2 < |nombre| then nombre[(k - 2) / 2] else 0)
  }

  /** The set the writer puts in the directory. */
  function Conjunto(nombre: seq<byte>, dir: bool, cluster: nat, tamano: nat): (s: seq<byte>)
    requires |nombre| <= 15 && cluster < DOS32 && tamano < DOS32
    ensures |s| == 96
  {
    var resto := EntradaFlujo(nombre, cluster, tamano) + EntradaNombre(nombre);
    EntradaArchivo(SumaDe(EntradaArchivo(0, dir) + resto, 96), dir) + resto
  }

  // ----- The reader -----

  datatype Nodo = Nodo(directorio: bool, unidades: nat, contiguo: bool, cluster: nat, valida: nat, longitud: nat,
                       nombre16: seq<unidad>)

  /** What is known after some of the entries of a set. */
  datatype Estado = Estado(suma: nat, nodo: Nodo, hash: nat, nombres: nat)

  datatype Paso = Falla(codigo: int) | Continua(estado: Estado)

  datatype Entrega = Fallo(codigo: int) | Entregado(nodo: Nodo, texto: seq<byte>)

  type Entrada = e: seq<byte> | |e| == ENTRADA witness Ceros(ENTRADA)

  function Trozo(e: Entrada, n: nat): (u: seq<unidad>)
    requires n <= 15
    ensures |u| == n
  {
    seq(n, k requires 0 <= k < n => U16(e, 2 + 2 * k))
  }

  function PrimeraSecundaria(st: Estado, e: Entrada): Paso
    requires st.suma < DOS16
  {
    if e[0] != 0xC0 || e[1] % 2 == 0 || e[1] >= 4 || e[3] == 0 then Falla(VOLUMEN_CORRUPTO)
    else
      Continua(Estado(SumaMas(st.suma, e, ENTRADA),
                   Nodo(st.nodo.directorio, e[3], e[1] / 2 % 2 == 1, U32(e, 20), U64(e, 8), U64(e, 24), st.nodo.nombre16),
                   U16(e, 4), st.nombres))
  }

  function OtraSecundaria(st: Estado, e: Entrada): Paso
    requires st.suma < DOS16
  {
    var suma := SumaMas(st.suma, e, ENTRADA);
    if e[0] == 0xC1 then
      if e[1] != 0 then Falla(VOLUMEN_CORRUPTO)
      else
        var n := Max(0, Min(15, st.nodo.unidades - st.nombres));
        Continua(Estado(suma, st.nodo.(nombre16 := st.nodo.nombre16 + Trozo(e, n)), st.hash, st.nombres + 15))
    else if e[0] < 0xE0 then Falla(VOLUMEN_NO_SOPORTADO)
    else Continua(Estado(suma, st.nodo, st.hash, st.nombres))
  }

  /** The secondary entries of a set, from the `i`th of `cuantas` on. */
  function Secundarias(es: seq<Entrada>, st: Estado, i: nat, cuantas: nat): Paso
    requires st.suma < DOS16 && i <= cuantas
    decreases cuantas - i
  {
    if i == cuantas then Continua(st)
    else if es == [] then Falla(VOLUMEN_CORRUPTO)
    else
      match (if i == 0 then PrimeraSecundaria(st, es[0]) else OtraSecundaria(st, es[0]))
      case Falla(c) => Falla(c)
      case Continua(mas) => Secundarias(es[1..], mas, i + 1, cuantas)
  }

  /** What the volume says about names and sizes. */
  datatype Volumen = Volumen(clusters: nat, bytesCluster: nat, upcase: nat -> nat)

  ghost predicate VolumenValido(v: Volumen) {
    v.bytesCluster > 0 && forall u: nat :: u < DOS16 ==> v.upcase(u) < DOS16
  }

  function HashLeido(v: Volumen, u: seq<unidad>, n: nat): (h: nat)
    requires n <= |u|
    ensures h < DOS16
  {
    if n == 0 then 0
    else
      var c := v.upcase(u[n - 1]) % DOS16;
      Checksum16(Checksum16(HashLeido(v, u, n - 1), c % 256), c / 256)
  }

  predicate NodoValido(v: Volumen, n: Nodo)
    requires v.bytesCluster > 0
  {
    if n.valida > n.longitud || n.longitud > v.clusters * v.bytesCluster then false
    else if n.longitud == 0 && !n.directorio then n.cluster == 0 && !n.contiguo
    else
      && 2 <= n.cluster < v.clusters + 2
      && (n.contiguo ==> (n.longitud + v.bytesCluster - 1) / v.bytesCluster <= v.clusters + 2 - n.cluster)
  }

  /** The file set at the head of a list of directory entries. */
  ghost function LeerConjunto(v: Volumen, es: seq<Entrada>): Entrega
    requires es != [] && v.bytesCluster > 0
  {
    var e := es[0];
    var inicial := Estado(SumaDe(e, ENTRADA), Nodo(U16(e, 4) / 16 % 2 == 1, 0, false, 0, 0, 0, []), 0, 0);
    if e[1] < 2 then Fallo(VOLUMEN_CORRUPTO)
    else
      match Secundarias(es[1..], inicial, 0, e[1])
      case Falla(c) => Fallo(c)
      case Continua(st) =>
        var n := st.nodo;
        if st.suma != U16(e, 2) || st.nombres < n.unidades || st.nombres >= n.unidades + 15 then Fallo(VOLUMEN_CORRUPTO)
        else if HashLeido(v, n.nombre16, |n.nombre16|) != st.hash then Fallo(VOLUMEN_CORRUPTO)
        else if n.directorio && (n.longitud == 0 || n.longitud % v.bytesCluster != 0 || n.valida != n.longitud) then
          Fallo(VOLUMEN_CORRUPTO)
        else if !NodoValido(v, n) then Fallo(VOLUMEN_CORRUPTO)
        else
          match Codificado(n.nombre16)
          case Corrupto => Fallo(VOLUMEN_CORRUPTO)
          case Leido(texto) => Entregado(n, texto)
  }

  // ----- Writer and reader agree -----

  /** The table folds the printable ASCII range as the standard up-case table does. */
  ghost predicate PliegaAscii(v: Volumen) {
    forall c: nat :: 32 <= c <= 126 ==> v.upcase(c) == Mayuscula(c) as nat
  }

  function Letras(nombre: seq<byte>): (u: seq<unidad>)
    ensures |u| == |nombre|
  {
    seq(|nombre|, k requires 0 <= k < |nombre| => nombre[k])
  }

  lemma {:induction false} AsciiIsItself(nombre: seq<byte>)
    requires forall k :: 0 <= k < |nombre| ==> 0 < nombre[k] <= 127
    ensures var c: seq<nat> := seq(|nombre|, k requires 0 <= k < |nombre| => nombre[k] as nat);
            Todos(c) && En8(c) == nombre && En16(c) == Letras(nombre)
  {
    hide En8, En16;
    EmptyText();
    var c: seq<nat> := seq(|nombre|, k requires 0 <= k < |nombre| => nombre[k] as nat);
    if nombre != [] {
      var n := |nombre| - 1;
      AsciiIsItself(nombre[..n]);
      var d: seq<nat> := seq(|nombre[..n]|, k requires 0 <= k < |nombre[..n]| => nombre[..n][k] as nat);
      assert c == d + [nombre[n] as nat];
      En8Snoc(d, nombre[n]);
      En16Snoc(d, nombre[n]);
      assert nombre == nombre[..n] + [nombre[n]];
      assert Letras(nombre) == Letras(nombre[..n]) + [nombre[n]];
    }
  }

  lemma EmptyText()
    ensures En8([]) == [] && En16([]) == []
  {
  }

  /** The text the reader gives for an ASCII name is the name. */
  lemma AsciiText(nombre: seq<byte>)
    requires NombreAscii(nombre)
    ensures Codificado(Letras(nombre)) == Leido(nombre)
  {
    hide En8, En16;
    AsciiIsItself(nombre);
    var c: seq<nat> := seq(|nombre|, k requires 0 <= k < |nombre| => nombre[k] as nat);
    assert TodosPermitidos(c);
    EncodesExactlyUtf16(Letras(nombre), nombre);
  }

  lemma {:induction false} HashesAgree(v: Volumen, nombre: seq<byte>, n: nat)
    requires NombreAscii(nombre) && PliegaAscii(v) && n <= |nombre|
    ensures HashLeido(v, Letras(nombre), n) == HashDe(nombre, n)
  {
    hide Checksum16;
    if n > 0 {
      HashesAgree(v, nombre, n - 1);
      assert v.upcase(nombre[n - 1]) == Mayuscula(nombre[n - 1]) as nat;
    }
  }

  lemma NameUnits(nombre: seq<byte>)
    requires |nombre| <= 15
    ensures Trozo(EntradaNombre(nombre), |nombre|) == Letras(nombre)
    ensures EntradaNombre(nombre)[0] == 0xC1 && EntradaNombre(nombre)[1] == 0
  {
    var e := EntradaNombre(nombre);
    forall k | 0 <= k < |nombre| ensures U16(e, 2 + 2 * k) == nombre[k] as int {
      assert e[2 + 2 * k] == nombre[k] && e[3 + 2 * k] == 0;
    }
  }

  lemma StreamFields(nombre: seq<byte>, cluster: nat, tamano: nat)
    requires |nombre| <= 15 && cluster < DOS32 && tamano < DOS32
    ensures var e := EntradaFlujo(nombre, cluster, tamano);
            && e[0] == 0xC0 && e[1] == (if tamano > 0 then 3 else 1) && e[3] as int == |nombre|
            && U16(e, 4) == HashDe(nombre, |nombre|) && U64(e, 8) == tamano && U32(e, 20) == cluster && U64(e, 24) == tamano
  {
    hide HashDe, Le32, U16, U32, EntradaFlujo;
    var h, t, c := HashDe(nombre, |nombre|), Le32(tamano), Le32(cluster);
    var e := EntradaFlujo(nombre, cluster, tamano);
    StreamBytes(nombre, cluster, tamano);
    HalfInside(e, 4, h);
    WordInside(e, 8, t, tamano);
    ZeroInside(e, 12);
    WordInside(e, 20, c, cluster);
    WordInside(e, 24, t, tamano);
    ZeroInside(e, 28);
  }

  lemma StreamBytes(nombre: seq<byte>, cluster: nat, tamano: nat)
    requires |nombre| <= 15 && cluster < DOS32 && tamano < DOS32
    ensures var e, h, t, c := EntradaFlujo(nombre, cluster, tamano), HashDe(nombre, |nombre|), Le32(tamano), Le32(cluster);
            && e[0] == 0xC0 && e[1] == (if tamano > 0 then 3 else 1) && e[3] as int == |nombre|
            && e[4] == h % 256 && e[5] == h / 256
            && e[8] == t[0] && e[9] == t[1] && e[10] == t[2] && e[11] == t[3]
            && e[12] == 0 && e[13] == 0 && e[14] == 0 && e[15] == 0
            && e[20] == c[0] && e[21] == c[1] && e[22] == c[2] && e[23] == c[3]
            && e[24] == t[0] && e[25] == t[1] && e[26] == t[2] && e[27] == t[3]
            && e[28] == 0 && e[29] == 0 && e[30] == 0 && e[31] == 0
  {
    hide HashDe, Le32, EntradaFlujo;
  }

  lemma HalfInside(e: seq<byte>, k: nat, h: nat)
    requires k + 2 <= |e| && h < DOS16 && e[k] == h % 256 && e[k + 1] == h / 256
    ensures U16(e, k) == h
  {
  }

  lemma ZeroInside(e: seq<byte>, k: nat)
    requires k + 4 <= |e| && e[k] == 0 && e[k + 1] == 0 && e[k + 2] == 0 && e[k + 3] == 0
    ensures U32(e, k) == 0
  {
  }

  lemma WordInside(e: seq<byte>, k: nat, w: seq<byte>, x: nat)
    requires k + 4 <= |e| && |w| == 4 && U32(w, 0) == x
    requires e[k] == w[0] && e[k + 1] == w[1] && e[k + 2] == w[2] && e[k + 3] == w[3]
    ensures U32(e, k) == x
  {
  }

  lemma FileFields(suma: nat, dir: bool)
    requires suma < DOS16
    ensures var e := EntradaArchivo(suma, dir);
            e[0] == 0x85 && e[1] == 2 && U16(e, 2) == suma && U16(e, 4) == if dir then 16 else 32
  {
  }

  /** The set written, entry by entry: its checksum field is the checksum the reader will compute. */
  lemma SetChecksum(nombre: seq<byte>, dir: bool, cluster: nat, tamano: nat)
    requires |nombre| <= 15 && cluster < DOS32 && tamano < DOS32
    ensures var s := Conjunto(nombre, dir, cluster, tamano);
            && s[32..64] == EntradaFlujo(nombre, cluster, tamano) && s[64..96] == EntradaNombre(nombre)
            && s[..32] == EntradaArchivo(U16(s, 2), dir)
            && U16(s, 2) == SumaMas(SumaMas(SumaDe(s[..32], 32), s[32..64], 32), s[64..96], 32)
  {
    hide EntradaFlujo, EntradaNombre, Checksum16, SumaDe, SumaMas;
    var f, n := EntradaFlujo(nombre, cluster, tamano), EntradaNombre(nombre);
    var base := EntradaArchivo(0, dir) + (f + n);
    var suma := SumaDe(base, 96);
    var s := Conjunto(nombre, dir, cluster, tamano);
    assert s == EntradaArchivo(suma, dir) + (f + n);
    FileFields(suma, dir);
    assert s[32..64] == f && s[64..96] == n && s[..32] == EntradaArchivo(suma, dir);
    SumOfSame(base, s, 96);
    SumOfSame(s, s[..32], 32);
    SumContinues(s, 32, f, 32);
    SumContinues(s, 64, n, 32);
  }

  /** A size and a run of clusters that the allocator can have handed out. */
  predicate Escribible(v: Volumen, dir: bool, cluster: nat, tamano: nat)
    requires v.bytesCluster > 0
  {
    && tamano < DOS32 && cluster < DOS32 && tamano <= v.clusters * v.bytesCluster
    && (if tamano == 0 then cluster == 0 && !dir
        else 2 <= cluster && cluster + (tamano + v.bytesCluster - 1) / v.bytesCluster <= v.clusters + 2)
    && (dir ==> tamano % v.bytesCluster == 0)
  }

  lemma WritableIsReadable(v: Volumen, dir: bool, cluster: nat, tamano: nat, n: nat, u: seq<unidad>)
    requires v.bytesCluster > 0 && Escribible(v, dir, cluster, tamano)
    ensures NodoValido(v, Nodo(dir, n, tamano > 0, cluster, tamano, tamano, u))
    ensures dir ==> tamano > 0 && tamano % v.bytesCluster == 0
  {
    RunIsPositive(v, tamano);
  }

  /** A set the writer produces for a valid name, an allocated run of clusters and a size is accepted
      by the reader, which finds the same name, size, contiguity and first cluster. */
  lemma WriterAndReaderAgree(v: Volumen, nombre: seq<byte>, dir: bool, cluster: nat, tamano: nat, resto: seq<Entrada>)
    requires VolumenValido(v) && PliegaAscii(v) && NombreAscii(nombre)
    requires Escribible(v, dir, cluster, tamano)
    ensures var s := Conjunto(nombre, dir, cluster, tamano);
            LeerConjunto(v, [s[..32], s[32..64], s[64..96]] + resto) ==
            Entregado(Nodo(dir, |nombre|, tamano > 0, cluster, tamano, tamano, Letras(nombre)), nombre)
  {
    hide SumaDe, SumaMas, HashDe, HashLeido, Conjunto, EntradaFlujo, EntradaNombre, EntradaArchivo, Codificado, U16, U32, U64,
         Secundarias, Trozo, Letras, FlujoEn, NodoValido, NombreAscii, PliegaAscii;
    NameIsShort(nombre);
    WritableIsReadable(v, dir, cluster, tamano, |nombre|, Letras(nombre));
    var s := Conjunto(nombre, dir, cluster, tamano);
    SetChecksum(nombre, dir, cluster, tamano);
    StreamFields(nombre, cluster, tamano);
    NameUnits(nombre);
    FileFields(U16(s, 2), dir);
    HashesAgree(v, nombre, |nombre|);
    AsciiText(nombre);
    var es: seq<Entrada> := [s[..32], s[32..64], s[64..96]] + resto;
    var st0 := Estado(SumaDe(s[..32], 32), Nodo(dir, 0, false, 0, 0, 0, []), 0, 0);
    var st1 := Estado(SumaMas(st0.suma, es[1], 32), Nodo(dir, |nombre|, tamano > 0, cluster, tamano, tamano, []),
                      HashDe(nombre, |nombre|), 0);
    assert PrimeraSecundaria(st0, es[1]) == Continua(st1);
    assert [] + Letras(nombre) == Letras(nombre);
    var st2 := Estado(SumaMas(st1.suma, es[2], 32), st1.nodo.(nombre16 := Letras(nombre)), st1.hash, 15);
    assert OtraSecundaria(st1, es[2]) == Continua(st2);
    TwoSecondaries(es, st0, st1, st2);
  }

  lemma TwoSecondaries(es: seq<Entrada>, st0: Estado, st1: Estado, st2: Estado)
    requires |es| >= 3 && st0.suma < DOS16 && st1.suma < DOS16 && st2.suma < DOS16
    requires PrimeraSecundaria(st0, es[1]) == Continua(st1) && OtraSecundaria(st1, es[2]) == Continua(st2)
    ensures Secundarias(es[1..], st0, 0, 2) == Continua(st2)
  {
    hide PrimeraSecundaria, OtraSecundaria;
    assert es[1..][0] == es[1] && es[1..][1..] == es[2..] && es[2..][0] == es[2] && es[2..][1..] == es[3..];
    assert Secundarias(es[3..], st2, 2, 2) == Continua(st2);
    assert Secundarias(es[2..], st1, 1, 2) == Continua(st2);
  }

  lemma NameIsShort(nombre: seq<byte>)
    requires NombreAscii(nombre)
    ensures 1 <= |nombre| <= 15
  {
  }

  lemma RunIsPositive(v: Volumen, tamano: nat)
    requires v.bytesCluster > 0
    ensures tamano > 0 ==> (tamano + v.bytesCluster - 1) / v.bytesCluster > 0
  {
    if tamano > 0 {
      DivModShift(v.bytesCluster, tamano - 1, v.bytesCluster);
    }
  }

  // ----- The writer's loops -----

  method HashNombre(nombre: seq<byte>) returns (h: nat)
    ensures h < DOS16 && h == HashDe(nombre, |nombre|)
  {
    hide Checksum16;
    h := 0;
    var i := 0;
    while i < |nombre|
      invariant i <= |nombre| && h < DOS16 && h == HashDe(nombre, i)
    {
      var c := nombre[i];
      if 97 <= c <= 122 {
        c := c - 32;
      }
      h := Checksum16(h, c);
      h := Checksum16(h, 0);
      i := i + 1;
    }
  }

  method ChecksumSet(datos: seq<byte>) returns (h: nat)
    ensures h < DOS16 && h == SumaDe(datos, |datos|)
  {
    hide Checksum16;
    h := 0;
    var i := 0;
    while i < |datos|
      invariant i <= |datos| && h < DOS16 && h == SumaDe(datos, i)
    {
      if i != 2 && i != 3 {
        h := Checksum16(h, datos[i]);
      }
      i := i + 1;
    }
  }

  /** Three entries in a row that are not in use. */
  predicate Ranura(buf: seq<byte>, i: nat) {
    32 * i + 96 <= |buf| && buf[32 * i] < 0x80 && buf[32 * i + 32] < 0x80 && buf[32 * i + 64] < 0x80
  }

  method BuscarRanura(buf: seq<byte>) returns (i: nat, hay: bool)
    requires |buf| % ENTRADA == 0
    ensures hay ==> Ranura(buf, i)
    ensures hay ==> forall j :: 0 <= j < i ==> !Ranura(buf, j)
    ensures !hay ==> forall j :: 0 <= j ==> !Ranura(buf, j)
  {
    i, hay := 0, false;
    while i + 2 < |buf| / ENTRADA
      invariant forall j :: 0 <= j < i ==> !Ranura(buf, j)
    {
      if buf[32 * i] < 0x80 && buf[32 * (i + 1)] < 0x80 && buf[32 * (i + 2)] < 0x80 {
        return i, true;
      }
      i := i + 1;
    }
  }

  /** Writes a byte string in place. */
  method Poner(buf: array<byte>, off: nat, s: seq<byte>)
    requires off + |s| <= buf.Length
    modifies buf
    ensures forall p :: off <= p < off + |s| ==> buf[p] == s[p - off]
    ensures forall p :: 0 <= p < buf.Length && !(off <= p < off + |s|) ==> buf[p] == old(buf[p])
  {
    var k := 0;
    while k < |s|
      invariant k <= |s|
      invariant forall p :: off <= p < off + k ==> buf[p] == s[p - off]
      invariant forall p :: 0 <= p < buf.Length && !(off <= p < off + k) ==> buf[p] == old(buf[p])
    {
      buf[off + k] := s[k];
      k := k + 1;
    }
  }

  method PonerArchivo(buf: array<byte>, off: nat, dir: bool)
    requires off + ENTRADA <= buf.Length && forall p :: off <= p < off + ENTRADA ==> buf[p] == 0
    modifies buf
    ensures forall p :: off <= p < off + ENTRADA ==> buf[p] == EntradaArchivo(0, dir)[p - off]
    ensures forall p :: 0 <= p < buf.Length && !(off <= p < off + ENTRADA) ==> buf[p] == old(buf[p])
  {
    Poner(buf, off, [0x85, 2]);
    Poner(buf, off + 4, [if dir then 0x10 else 0x20, 0]);
  }

  method PonerFlujo(buf: array<byte>, off: nat, nombre: seq<byte>, cluster: nat, tamano: nat)
    requires off + ENTRADA <= buf.Length && forall p :: off <= p < off + ENTRADA ==> buf[p] == 0
    requires |nombre| <= 15 && cluster < DOS32 && tamano < DOS32
    modifies buf
    ensures forall p :: off <= p < off + ENTRADA ==> buf[p] == EntradaFlujo(nombre, cluster, tamano)[p - off]
    ensures forall p :: 0 <= p < buf.Length && !(off <= p < off + ENTRADA) ==> buf[p] == old(buf[p])
  {
    hide HashDe, Le32, EntradaFlujo;
    var hash := HashNombre(nombre);
    Poner(buf, off, [0xC0, if tamano > 0 then 3 else 1]);
    Poner(buf, off + 3, [|nombre|]);
    Poner(buf, off + 4, [hash % 256, hash / 256]);
    Poner(buf, off + 20, Le32(cluster));
    Poner(buf, off + 8, Le32(tamano));
    Poner(buf, off + 24, Le32(tamano));
  }

  method PonerNombre(buf: array<byte>, off: nat, nombre: seq<byte>)
    requires off + ENTRADA <= buf.Length && forall p :: off <= p < off + ENTRADA ==> buf[p] == 0
    requires |nombre| <= 15
    modifies buf
    ensures forall p :: off <= p < off + ENTRADA ==> buf[p] == EntradaNombre(nombre)[p - off]
    ensures forall p :: 0 <= p < buf.Length && !(off <= p < off + ENTRADA) ==> buf[p] == old(buf[p])
  {
    buf[off] := 0xC1;
    var k := 0;
    while k < |nombre|
      invariant k <= |nombre| && buf[off] == 0xC1
      invariant forall p :: 0 <= p < buf.Length && !(off <= p < off + ENTRADA) ==> buf[p] == old(buf[p])
      invariant forall p :: off < p < off + ENTRADA ==>
                  buf[p] == if p < off + 2 + 2 * k && (p - off) % 2 == 0 && p >= off + 2 then nombre[(p - off - 2) / 2] else 0
    {
      buf[off + 2 + 2 * k] := nombre[k];
      k := k + 1;
    }
  }

  /** Lays out the set of a new file in the first free slot of a directory cluster. */
  method InsertarConjunto(buf: array<byte>, nombre: seq<byte>, dir: bool, cluster: nat, tamano: nat)
    returns (r: int, ghost i: nat)
    requires buf.Length % ENTRADA == 0 && |nombre| <= 15 && cluster < DOS32 && tamano < DOS32
    modifies buf
    ensures r == 0 || r == -2
    ensures r == 0 ==> Ranura(old(buf[..]), i) && (forall j :: 0 <= j < i ==> !Ranura(old(buf[..]), j))
    ensures r == 0 ==> buf[..] == old(buf[..32 * i]) + Conjunto(nombre, dir, cluster, tamano) + old(buf[32 * i + 96..])
    ensures r == -2 ==> buf[..] == old(buf[..]) && forall j :: 0 <= j ==> !Ranura(buf[..], j)
  {
    hide HashDe, SumaDe, FlujoEn, Le32, EntradaArchivo, EntradaFlujo, EntradaNombre, Conjunto;
    ghost var antes := buf[..];
    var ranura, hay := BuscarRanura(buf[..]);
    i := ranura;
    if !hay {
      return -2, i;
    }
    EscribirConjunto(buf, 32 * ranura, nombre, dir, cluster, tamano);
    Spliced(antes, buf[..], 32 * ranura, Conjunto(nombre, dir, cluster, tamano));
    r := 0;
  }

  lemma Spliced(antes: seq<byte>, ahora: seq<byte>, off: nat, s: seq<byte>)
    requires |antes| == |ahora| && off + |s| <= |antes|
    requires forall p :: off <= p < off + |s| ==> ahora[p] == s[p - off]
    requires forall p :: 0 <= p < |antes| && !(off <= p < off + |s|) ==> ahora[p] == antes[p]
    ensures ahora == antes[..off] + s + antes[off + |s|..]
  {
  }

  method EscribirConjunto(buf: array<byte>, off: nat, nombre: seq<byte>, dir: bool, cluster: nat, tamano: nat)
    requires off + 96 <= buf.Length && |nombre| <= 15 && cluster < DOS32 && tamano < DOS32
    modifies buf
    ensures forall p :: off <= p < off + 96 ==> buf[p] == Conjunto(nombre, dir, cluster, tamano)[p - off]
    ensures forall p :: 0 <= p < buf.Length && !(off <= p < off + 96) ==> buf[p] == old(buf[p])
  {
    hide HashDe, SumaDe, FlujoEn, Le32, EntradaArchivo, EntradaFlujo, EntradaNombre, Conjunto, SinSuma;
    Poner(buf, off, Ceros(96));
    PonerArchivo(buf, off, dir);
    PonerFlujo(buf, off + 32, nombre, cluster, tamano);
    PonerNombre(buf, off + 64, nombre);
    forall p | off <= p < off + 96 ensures buf[p] == SinSuma(nombre, dir, cluster, tamano)[p - off] {
    }
    assert buf[off..off + 96] == SinSuma(nombre, dir, cluster, tamano);
    var suma := ChecksumSet(buf[off..off + 96]);
    ChecksumLast(nombre, dir, cluster, tamano, suma);
    Poner(buf, off + 2, [suma % 256, suma / 256]);
  }

  /** The set before its checksum is filled in. */
  function SinSuma(nombre: seq<byte>, dir: bool, cluster: nat, tamano: nat): (s: seq<byte>)
    requires |nombre| <= 15 && cluster < DOS32 && tamano < DOS32
    ensures |s| == 96
    ensures forall k :: 0 <= k < 32 ==> s[k] == EntradaArchivo(0, dir)[k]
    ensures forall k :: 32 <= k < 64 ==> s[k] == EntradaFlujo(nombre, cluster, tamano)[k - 32]
    ensures forall k :: 64 <= k < 96 ==> s[k] == EntradaNombre(nombre)[k - 64]
  {
    EntradaArchivo(0, dir) + (EntradaFlujo(nombre, cluster, tamano) + EntradaNombre(nombre))
  }

  lemma ChecksumLast(nombre: seq<byte>, dir: bool, cluster: nat, tamano: nat, suma: nat)
    requires |nombre| <= 15 && cluster < DOS32 && tamano < DOS32 && suma == SumaDe(SinSuma(nombre, dir, cluster, tamano), 96)
    ensures var s := Conjunto(nombre, dir, cluster, tamano);
            && suma < DOS16 && s[2] == suma % 256 && s[3] == suma / 256
            && forall k :: 0 <= k < 96 && k != 2 && k != 3 ==> s[k] == SinSuma(nombre, dir, cluster, tamano)[k]
  {
    hide SumaDe, EntradaFlujo, EntradaNombre;
    assert SinSuma(nombre, dir, cluster, tamano) ==
           EntradaArchivo(0, dir) + (EntradaFlujo(nombre, cluster, tamano) + EntradaNombre(nombre));
  }

  // ----- The reader's loops -----

  predicate Saltable(e: Entrada) {
    e[0] != 0 && (e[0] < 0x80 || e[0] == 0x81 || e[0] == 0x82 || e[0] == 0x83 || (e[0] != 0x85 && e[0] / 32 % 2 == 1))
  }

  datatype Siguiente = Fin | Hallado(entrega: Entrega)

  /** The next file of a directory, given its entries. */
  ghost function SiguienteDe(v: Volumen, es: seq<Entrada>): Siguiente
    requires v.bytesCluster > 0
  {
    if es == [] || es[0][0] == 0 then Fin
    else if Saltable(es[0]) then SiguienteDe(v, es[1..])
    else if es[0][0] == 0x85 then Hallado(LeerConjunto(v, es))
    else Hallado(Fallo(VOLUMEN_NO_SOPORTADO))
  }

  /** A set that has been inserted is what the reader finds after the entries it skips. */
  lemma {:induction false} InsertedSetIsFound(v: Volumen, antes: seq<Entrada>, nombre: seq<byte>, dir: bool, cluster: nat,
                                              tamano: nat, resto: seq<Entrada>)
    requires VolumenValido(v) && PliegaAscii(v) && NombreAscii(nombre) && Escribible(v, dir, cluster, tamano)
    requires forall k :: 0 <= k < |antes| ==> Saltable(antes[k])
    ensures var s := Conjunto(nombre, dir, cluster, tamano);
            SiguienteDe(v, antes + ([s[..32], s[32..64], s[64..96]] + resto)) ==
            Hallado(Entregado(Nodo(dir, |nombre|, tamano > 0, cluster, tamano, tamano, Letras(nombre)), nombre))
  {
    hide LeerConjunto, Conjunto, NombreAscii, PliegaAscii, Escribible, EntradaArchivo, EntradaFlujo, EntradaNombre;
    NameIsShort(nombre);
    EscribibleBounds(v, dir, cluster, tamano);
    var s := Conjunto(nombre, dir, cluster, tamano);
    var es := [s[..32], s[32..64], s[64..96]] + resto;
    if antes == [] {
      WriterAndReaderAgree(v, nombre, dir, cluster, tamano, resto);
      SetChecksum(nombre, dir, cluster, tamano);
      FileFields(U16(s, 2), dir);
      assert antes + es == es;
    } else {
      assert (antes + es)[1..] == antes[1..] + es;
      InsertedSetIsFound(v, antes[1..], nombre, dir, cluster, tamano, resto);
    }
  }

  // ----- Whole directories -----

  /** How many entries the reader goes through to the end of the next set. */
  function Consumidas(es: seq<Entrada>): (n: nat)
    ensures n <= |es|
  {
    if es == [] || es[0][0] == 0 then 0
    else if Saltable(es[0]) then 1 + Consumidas(es[1..])
    else if es[0][0] == 0x85 then Min(|es|, 1 + es[0][1] as int)
    else 0
  }

  lemma {:induction false} SetEntriesAreThere(es: seq<Entrada>, st: Estado, i: nat, cuantas: nat)
    requires st.suma < DOS16 && i <= cuantas && Secundarias(es, st, i, cuantas).Continua?
    ensures cuantas - i <= |es|
    decreases cuantas - i
  {
    hide SumaMas, U16, U32, U64, Trozo;
    if i < cuantas {
      var p := if i == 0 then PrimeraSecundaria(st, es[0]) else OtraSecundaria(st, es[0]);
      SetEntriesAreThere(es[1..], p.estado, i + 1, cuantas);
    }
  }

  lemma WholeSetIsThere(v: Volumen, es: seq<Entrada>)
    requires es != [] && v.bytesCluster > 0 && LeerConjunto(v, es).Entregado?
    ensures 1 + es[0][1] <= |es|
  {
    hide SumaDe, Secundarias, HashLeido, NodoValido, Codificado, U16;
    var e := es[0];
    var inicial := Estado(SumaDe(e, ENTRADA), Nodo(U16(e, 4) / 16 % 2 == 1, 0, false, 0, 0, 0, []), 0, 0);
    SetEntriesAreThere(es[1..], inicial, 0, e[1]);
  }

  lemma {:induction false} FoundIsConsumed(v: Volumen, es: seq<Entrada>)
    requires v.bytesCluster > 0 && SiguienteDe(v, es).Hallado? && SiguienteDe(v, es).entrega.Entregado?
    ensures Consumidas(es) > 0
  {
    hide LeerConjunto;
  }

  /** Everything a directory lists, up to its end or the first entry that cannot be taken. */
  ghost function Listado(v: Volumen, es: seq<Entrada>): seq<Entrega>
    requires v.bytesCluster > 0
    decreases |es|
  {
    match SiguienteDe(v, es)
    case Fin => []
    case Hallado(Fallo(c)) => [Fallo(c)]
    case Hallado(f) =>
      FoundIsConsumed(v, es);
      [f] + Listado(v, es[Consumidas(es)..])
  }

  /** What the entries of a directory are: files as the writer lays them out, and entries to skip. */
  datatype Pieza = Otra(e: Entrada) | Fichero(nombre: seq<byte>, dir: bool, cluster: nat, tamano: nat)

  predicate PiezaBuena(v: Volumen, p: Pieza)
    requires v.bytesCluster > 0
  {
    match p
    case Otra(e) => Saltable(e)
    case Fichero(nombre, dir, cluster, tamano) => NombreAscii(nombre) && Escribible(v, dir, cluster, tamano)
  }

  predicate PiezasBuenas(v: Volumen, ps: seq<Pieza>)
    requires v.bytesCluster > 0
  {
    forall i :: 0 <= i < |ps| ==> PiezaBuena(v, ps[i])
  }

  function EntradasDe(v: Volumen, p: Pieza): seq<Entrada>
    requires v.bytesCluster > 0 && PiezaBuena(v, p)
  {
    match p
    case Otra(e) => [e]
    case Fichero(nombre, dir, cluster, tamano) =>
      var s := Conjunto(nombre, dir, cluster, tamano);
      [s[..32], s[32..64], s[64..96]]
  }

  function Aplanar(v: Volumen, ps: seq<Pieza>): seq<Entrada>
    requires v.bytesCluster > 0 && PiezasBuenas(v, ps)
  {
    if ps == [] then [] else EntradasDe(v, ps[0]) + Aplanar(v, ps[1..])
  }

  function EntregaDe(nombre: seq<byte>, dir: bool, cluster: nat, tamano: nat): Entrega {
    Entregado(Nodo(dir, |nombre|, tamano > 0, cluster, tamano, tamano, Letras(nombre)), nombre)
  }

  function Ficheros(ps: seq<Pieza>): seq<Entrega> {
    if ps == [] then []
    else (match ps[0] case Otra(_) => [] case Fichero(n, d, c, t) => [EntregaDe(n, d, c, t)]) + Ficheros(ps[1..])
  }

  lemma SkippedIsSkipped(v: Volumen, e: Entrada, resto: seq<Entrada>)
    requires v.bytesCluster > 0 && Saltable(e)
    ensures Listado(v, [e] + resto) == Listado(v, resto)
  {
    hide LeerConjunto, Saltable;
    assert ([e] + resto)[1..] == resto;
    SkipStep(v, [e] + resto);
    if SiguienteDe(v, resto).Hallado? && SiguienteDe(v, resto).entrega.Entregado? {
      assert ([e] + resto)[Consumidas([e] + resto)..] == resto[Consumidas(resto)..];
    }
  }

  lemma SkipStep(v: Volumen, es: seq<Entrada>)
    requires v.bytesCluster > 0 && es != [] && Saltable(es[0])
    ensures SiguienteDe(v, es) == SiguienteDe(v, es[1..]) && Consumidas(es) == 1 + Consumidas(es[1..])
  {
    hide LeerConjunto;
  }

  lemma FileIsListed(v: Volumen, p: Pieza, resto: seq<Entrada>)
    requires VolumenValido(v) && PliegaAscii(v) && PiezaBuena(v, p) && p.Fichero?
    ensures Listado(v, EntradasDe(v, p) + resto) == [EntregaDe(p.nombre, p.dir, p.cluster, p.tamano)] + Listado(v, resto)
  {
    hide LeerConjunto, Conjunto, NombreAscii, PliegaAscii, Escribible, EntradaArchivo, EntradaFlujo, EntradaNombre, SiguienteDe;
    NameIsShort(p.nombre);
    EscribibleBounds(v, p.dir, p.cluster, p.tamano);
    var s := Conjunto(p.nombre, p.dir, p.cluster, p.tamano);
    var es := [s[..32], s[32..64], s[64..96]] + resto;
    InsertedSetIsFound(v, [], p.nombre, p.dir, p.cluster, p.tamano, resto);
    assert [] + es == es;
    SetChecksum(p.nombre, p.dir, p.cluster, p.tamano);
    FileFields(U16(s, 2), p.dir);
    assert es[Consumidas(es)..] == resto;
  }

  /** A directory of any number of sets the writer has laid out, with skipped entries among them, lists
      exactly those files, in order, and then whatever follows. */
  lemma {:induction false} DirectoryListsFiles(v: Volumen, ps: seq<Pieza>, resto: seq<Entrada>)
    requires v.bytesCluster > 0 && VolumenValido(v) && PliegaAscii(v) && PiezasBuenas(v, ps)
    ensures Listado(v, Aplanar(v, ps) + resto) == Ficheros(ps) + Listado(v, resto)
  {
    hide Listado, PiezaBuena, PliegaAscii, EntregaDe, EntradasDe, Aplanar, Ficheros, VolumenValido;
    if ps == [] {
      NoPieces(v);
      assert [] + resto == resto;
    } else {
      var cola := Aplanar(v, ps[1..]) + resto;
      DirectoryListsFiles(v, ps[1..], resto);
      FirstPiece(v, ps);
      assert Aplanar(v, ps) + resto == EntradasDe(v, ps[0]) + cola;
      if ps[0].Otra? {
        OtherPiece(v, ps[0], cola);
      } else {
        FileIsListed(v, ps[0], cola);
      }
    }
  }

  lemma NoPieces(v: Volumen)
    requires v.bytesCluster > 0
    ensures Aplanar(v, []) == [] && Ficheros([]) == []
  {
  }

  lemma FirstPiece(v: Volumen, ps: seq<Pieza>)
    requires v.bytesCluster > 0 && ps != [] && PiezasBuenas(v, ps)
    ensures PiezasBuenas(v, ps[1..]) && PiezaBuena(v, ps[0])
    ensures Aplanar(v, ps) == EntradasDe(v, ps[0]) + Aplanar(v, ps[1..])
    ensures Ficheros(ps) ==
            (if ps[0].Otra? then [] else [EntregaDe(ps[0].nombre, ps[0].dir, ps[0].cluster, ps[0].tamano)]) + Ficheros(ps[1..])
  {
    hide PiezaBuena, EntradasDe, EntregaDe;
  }

  lemma OtherPiece(v: Volumen, p: Pieza, resto: seq<Entrada>)
    requires v.bytesCluster > 0 && PiezaBuena(v, p) && p.Otra?
    ensures Listado(v, EntradasDe(v, p) + resto) == Listado(v, resto)
  {
    hide Listado, Saltable;
    SkippedIsSkipped(v, p.e, resto);
  }

  lemma EscribibleBounds(v: Volumen, dir: bool, cluster: nat, tamano: nat)
    requires v.bytesCluster > 0 && Escribible(v, dir, cluster, tamano)
    ensures cluster < DOS32 && tamano < DOS32
  {
  }

  method SumarEntrada(h: nat, e: Entrada) returns (r: nat)
    requires h < DOS16
    ensures r < DOS16 && r == SumaMas(h, e, ENTRADA)
  {
    hide Checksum16;
    r := h;
    var j := 0;
    while j < ENTRADA
      invariant j <= ENTRADA && r < DOS16 && r == SumaMas(h, e, j)
    {
      r := Checksum16(r, e[j]);
      j := j + 1;
    }
  }

  method AgregarNombre(e: Entrada, st: Estado, suma: nat) returns (mas: Estado)
    requires st.suma < DOS16 && suma == SumaMas(st.suma, e, ENTRADA) && e[0] == 0xC1 && e[1] == 0
    ensures OtraSecundaria(st, e) == Continua(mas)
  {
    hide SumaMas, U16;
    var n16, nombres := st.nodo.nombre16, st.nombres;
    var k := 0;
    while k < 15
      invariant k <= 15 && nombres == st.nombres + k
      invariant n16 == st.nodo.nombre16 + Trozo(e, Max(0, Min(k, st.nodo.unidades - st.nombres)))
    {
      if nombres < st.nodo.unidades {
        n16 := n16 + [U16(e, 2 + k * 2)];
      }
      nombres := nombres + 1;
      k := k + 1;
    }
    mas := Estado(suma, st.nodo.(nombre16 := n16), st.hash, nombres);
  }

  method LeerSecundarias(es: seq<Entrada>, inicial: Estado, cuantas: nat) returns (p: Paso)
    requires inicial.suma < DOS16
    ensures p == Secundarias(es, inicial, 0, cuantas)
    ensures p.Continua? ==> p.estado.suma < DOS16
  {
    hide SumaMas, U16, U32, U64, OtraSecundaria, PrimeraSecundaria;
    var st, i := inicial, 0;
    assert es[0..] == es;
    while i < cuantas
      invariant i <= cuantas && i <= |es| && st.suma < DOS16
      invariant Secundarias(es, inicial, 0, cuantas) == Secundarias(es[i..], st, i, cuantas)
    {
      if i == |es| {
        return Falla(VOLUMEN_CORRUPTO);
      }
      var e := es[i];
      assert es[i..][0] == e && es[i..][1..] == es[i + 1..];
      var suma := SumarEntrada(st.suma, e);
      StepSums(st, e, i == 0);
      if i == 0 {
        if e[0] != 0xC0 {
          FirstStep(st, e, suma);
          return Falla(VOLUMEN_CORRUPTO);
        }
        FirstStep(st, e, suma);
        var n := Nodo(st.nodo.directorio, e[3], e[1] / 2 % 2 == 1, U32(e, 20), U64(e, 8), U64(e, 24), st.nodo.nombre16);
        if e[1] % 2 == 0 || e[1] >= 4 || n.unidades == 0 {
          return Falla(VOLUMEN_CORRUPTO);
        }
        st := Estado(suma, n, U16(e, 4), st.nombres);
      } else if e[0] == 0xC1 {
        if e[1] != 0 {
          OtherStep(st, e, suma);
          return Falla(VOLUMEN_CORRUPTO);
        }
        st := AgregarNombre(e, st, suma);
      } else if e[0] < 0xE0 {
        OtherStep(st, e, suma);
        return Falla(VOLUMEN_NO_SOPORTADO);
      } else {
        OtherStep(st, e, suma);
        st := Estado(suma, st.nodo, st.hash, st.nombres);
      }
      i := i + 1;
    }
    p := Continua(st);
  }

  lemma StepSums(st: Estado, e: Entrada, primera: bool)
    requires st.suma < DOS16
    ensures primera && PrimeraSecundaria(st, e).Continua? ==> PrimeraSecundaria(st, e).estado.suma < DOS16
    ensures !primera && OtraSecundaria(st, e).Continua? ==> OtraSecundaria(st, e).estado.suma < DOS16
  {
  }

  lemma FirstStep(st: Estado, e: Entrada, suma: nat)
    requires st.suma < DOS16 && suma == SumaMas(st.suma, e, ENTRADA)
    ensures PrimeraSecundaria(st, e) ==
            if e[0] != 0xC0 || e[1] % 2 == 0 || e[1] >= 4 || e[3] == 0 then Falla(VOLUMEN_CORRUPTO)
            else Continua(Estado(suma, Nodo(st.nodo.directorio, e[3], e[1] / 2 % 2 == 1, U32(e, 20), U64(e, 8), U64(e, 24),
                                         st.nodo.nombre16), U16(e, 4), st.nombres))
  {
  }

  lemma OtherStep(st: Estado, e: Entrada, suma: nat)
    requires st.suma < DOS16 && suma == SumaMas(st.suma, e, ENTRADA)
    ensures e[0] == 0xC1 && e[1] != 0 ==> OtraSecundaria(st, e) == Falla(VOLUMEN_CORRUPTO)
    ensures e[0] != 0xC1 && e[0] < 0xE0 ==> OtraSecundaria(st, e) == Falla(VOLUMEN_NO_SOPORTADO)
    ensures e[0] >= 0xE0 ==> OtraSecundaria(st, e) == Continua(Estado(suma, st.nodo, st.hash, st.nombres))
  {
  }

  method HashDelLeido(v: Volumen, u: seq<unidad>) returns (h: nat)
    ensures h < DOS16 && h == HashLeido(v, u, |u|)
  {
    hide Checksum16;
    h := 0;
    var k := 0;
    while k < |u|
      invariant k <= |u| && h < DOS16 && h == HashLeido(v, u, k)
    {
      var c := v.upcase(u[k]) % DOS16;
      h := Checksum16(h, c % 256);
      h := Checksum16(h, c / 256);
      k := k + 1;
    }
  }

  /** The next file of a directory: 1 and its node, 0 at the end, or an error. */
  method SiguienteExfat(v: Volumen, es: seq<Entrada>, pos: nat)
    returns (r: int, n: Nodo, texto: seq<byte>, sigue: nat)
    requires v.bytesCluster > 0 && pos <= |es|
    ensures pos <= sigue <= |es|
    ensures SiguienteDe(v, es[pos..]) ==
            if r == 0 then Fin else if r == 1 then Hallado(Entregado(n, texto)) else Hallado(Fallo(r))
    ensures r == 1 ==> sigue == pos + Consumidas(es[pos..])
  {
    hide LeerConjunto;
    r, n, texto, sigue := 0, Nodo(false, 0, false, 0, 0, 0, []), [], pos;
    while sigue < |es|
      invariant pos <= sigue <= |es| && SiguienteDe(v, es[pos..]) == SiguienteDe(v, es[sigue..])
      invariant pos + Consumidas(es[pos..]) == sigue + Consumidas(es[sigue..])
    {
      var e := es[sigue];
      assert es[sigue..][0] == e && es[sigue..][1..] == es[sigue + 1..];
      if e[0] == 0 {
        return;
      }
      if e[0] == 0x85 {
        r, n, texto := LeerElConjunto(v, es[sigue..]);
        if r == 1 {
          WholeSetIsThere(v, es[sigue..]);
          sigue := sigue + 1 + e[1];
        }
        return;
      }
      if e[0] >= 0x80 && e[0] != 0x81 && e[0] != 0x82 && e[0] != 0x83 && e[0] / 32 % 2 == 0 {
        r := VOLUMEN_NO_SOPORTADO;
        return;
      }
      sigue := sigue + 1;
    }
  }

  /** Going through a directory from its start gives all it lists. */
  method RecorrerDirectorio(v: Volumen, es: seq<Entrada>) returns (l: seq<Entrega>)
    requires v.bytesCluster > 0
    ensures l == Listado(v, es)
  {
    hide SiguienteDe;
    l := [];
    var pos := 0;
    assert es[0..] == es;
    while true
      invariant pos <= |es| && Listado(v, es) == l + Listado(v, es[pos..])
      decreases |es| - pos
    {
      var r, n, texto, sigue := SiguienteExfat(v, es, pos);
      if r == 0 {
        return;
      }
      if r != 1 {
        l := l + [Fallo(r)];
        return;
      }
      FoundIsConsumed(v, es[pos..]);
      assert es[pos..][Consumidas(es[pos..])..] == es[sigue..];
      l := l + [Entregado(n, texto)];
      pos := sigue;
    }
  }

  method LeerElConjunto(v: Volumen, es: seq<Entrada>) returns (r: int, n: Nodo, texto: seq<byte>)
    requires es != [] && v.bytesCluster > 0
    ensures r == 1 || r < 0
    ensures LeerConjunto(v, es) == if r == 1 then Entregado(n, texto) else Fallo(r)
  {
    hide SumaDe, SumaMas, U16, NodoValido, Codificado, HashLeido, Secundarias;
    var e := es[0];
    n, texto := Nodo(U16(e, 4) / 16 % 2 == 1, 0, false, 0, 0, 0, []), [];
    if e[1] < 2 {
      return VOLUMEN_CORRUPTO, n, texto;
    }
    var suma := ChecksumSet(e);
    var p := LeerSecundarias(es[1..], Estado(suma, n, 0, 0), e[1]);
    ErrorsAreNegative(es[1..], Estado(suma, n, 0, 0), 0, e[1]);
    if p.Falla? {
      return p.codigo, n, texto;
    }
    var st := p.estado;
    n := st.nodo;
    if st.suma != U16(e, 2) || st.nombres < n.unidades || st.nombres >= n.unidades + 15 {
      return VOLUMEN_CORRUPTO, n, texto;
    }
    var h := HashDelLeido(v, n.nombre16);
    if h != st.hash {
      return VOLUMEN_CORRUPTO, n, texto;
    }
    if n.directorio {
      if n.longitud == 0 || n.longitud % v.bytesCluster != 0 || n.valida != n.longitud {
        return VOLUMEN_CORRUPTO, n, texto;
      }
    }
    if !NodoValido(v, n) {
      return VOLUMEN_CORRUPTO, n, texto;
    }
    var c;
    c, texto := ConvertirUtf8(n.nombre16);
    r := if c == 0 then 1 else VOLUMEN_CORRUPTO;
  }

  lemma {:induction false} ErrorsAreNegative(es: seq<Entrada>, st: Estado, i: nat, cuantas: nat)
    requires st.suma < DOS16 && i <= cuantas
    ensures Secundarias(es, st, i, cuantas).Falla? ==> Secundarias(es, st, i, cuantas).codigo < 0
    decreases cuantas - i
  {
    hide SumaMas, U16, U32, U64, Trozo;
    if i < cuantas && es != [] {
      var p := if i == 0 then PrimeraSecundaria(st, es[0]) else OtraSecundaria(st, es[0]);
      if p.Continua? {
        ErrorsAreNegative(es[1..], p.estado, i + 1, cuantas);
      }
    }
  }

  /** What is delivered fits the volume: the clusters that its length needs exist, and for a contiguous
      file all of its bytes lie in the cluster heap. */
  lemma DeliveredFits(v: Volumen, es: seq<Entrada>)
    requires es != [] && VolumenValido(v) && LeerConjunto(v, es).Entregado?
    ensures var n := LeerConjunto(v, es).nodo;
            && n.valida <= n.longitud <= v.clusters * v.bytesCluster
            && (n.longitud > 0 ==> 2 <= n.cluster < v.clusters + 2)
            && (n.longitud > 0 && n.contiguo ==> n.longitud <= (v.clusters + 2 - n.cluster) * v.bytesCluster)
            && (n.longitud == 0 && !n.directorio ==> n.cluster == 0)
            && (n.directorio ==> n.longitud > 0 && n.longitud % v.bytesCluster == 0 && n.valida == n.longitud)
  {
    hide Secundarias, SumaDe, HashLeido, Codificado, U16;
    var n := LeerConjunto(v, es).nodo;
    if n.longitud > 0 && n.contiguo {
      var q, k := (n.longitud + v.bytesCluster - 1) / v.bytesCluster, v.bytesCluster;
      assert q * k + (n.longitud + k - 1) % k == n.longitud + k - 1;
      MulMonotone(q, v.clusters + 2 - n.cluster, k);
    }
  }
}
