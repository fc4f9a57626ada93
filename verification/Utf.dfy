/** File names: UTF-16 as stored on disk, UTF-8 as the kernel uses it. Both converters are checked
    against the encoding forms of RFC 3629, section 3, taken as functions of code points. */
module Utf {
  import opened Bytes
  import opened Particiones

  type unidad = u: int | 0 <= u < 0x1_0000

  const MAX_UNIDADES: nat := 255

  // ----- The encoding forms -----

  /** A code point that can appear in a name: any scalar value but NUL. */
  predicate Escalar(cp: nat) {
    0 < cp <= 0x10FFFF && !(0xD800 <= cp <= 0xDFFF)
  }

  /** One that the volume reader lets through. */
  predicate Permitido(cp: nat) {
    Escalar(cp) && cp >= 32 && cp != 127 && cp != '/' as int && cp != '\\' as int && cp != 0xFFFF
  }

  function Bytes8(cp: nat): (b: seq<byte>)
    requires cp <= 0x10FFFF
    ensures 1 <= |b| <= 4
  {
    if cp < 0x80 then [cp]
    else if cp < 0x800 then [0xC0 + cp / 64, 0x80 + cp % 64]
    else if cp < 0x1_0000 then [0xE0 + cp / 4096, 0x80 + cp / 64 % 64, 0x80 + cp % 64]
    else [0xF0 + cp / 0x4_0000, 0x80 + cp / 4096 % 64, 0x80 + cp / 64 % 64, 0x80 + cp % 64]
  }

  function Unidades(cp: nat): (u: seq<unidad>)
    requires cp <= 0x10FFFF
    ensures 1 <= |u| <= 2
  {
    if cp < 0x1_0000 then [cp]
    else [0xD800 + (cp - 0x1_0000) / 1024, 0xDC00 + (cp - 0x1_0000) % 1024]
  }

  predicate Todos(cps: seq<nat>) {
    forall i :: 0 <= i < |cps| ==> Escalar(cps[i])
  }

  function En8(cps: seq<nat>): (s: seq<byte>)
    requires Todos(cps)
  {
    if cps == [] then [] else En8(cps[..|cps| - 1]) + Bytes8(cps[|cps| - 1])
  }

  function En16(cps: seq<nat>): (u: seq<unidad>)
    requires Todos(cps)
  {
    if cps == [] then [] else En16(cps[..|cps| - 1]) + Unidades(cps[|cps| - 1])
  }

  // ----- Reading one code point -----

  datatype Punto = No | Si(cp: nat, largo: nat)

  predicate Sigue(b: byte) { 0x80 <= b < 0xC0 }

  function Cola(cp: nat, b: byte): nat { cp * 64 + (b as int) % 64 }

  /** The code point a byte string starts with, if it is one in its shortest form. */
  function Leer8(s: seq<byte>): (p: Punto)
    requires s != []
    ensures p.Si? ==> p.largo <= |s|
  {
    var a := s[0];
    if a < 0x80 then
      if a == 0 then No else Si(a, 1)
    else if 0xC2 <= a <= 0xDF then
      if |s| < 2 || !Sigue(s[1]) then No else Si(Cola(a % 32, s[1]), 2)
    else if 0xE0 <= a <= 0xEF then
      if |s| < 3 || !Sigue(s[1]) || !Sigue(s[2]) then No
      else
        var cp := Cola(Cola(a % 16, s[1]), s[2]);
        if cp < 0x800 || 0xD800 <= cp <= 0xDFFF then No else Si(cp, 3)
    else if 0xF0 <= a <= 0xF4 then
      if |s| < 4 || !Sigue(s[1]) || !Sigue(s[2]) || !Sigue(s[3]) then No
      else
        var cp := Cola(Cola(Cola(a % 8, s[1]), s[2]), s[3]);
        if cp < 0x1_0000 || cp > 0x10FFFF then No else Si(cp, 4)
    else No
  }

  lemma ReadsWhatIsWritten(cp: nat, resto: seq<byte>)
    requires Escalar(cp)
    ensures Leer8(Bytes8(cp) + resto) == Si(cp, |Bytes8(cp)|)
  {
    Shifts64(cp);
    if cp >= 0x1_0000 {
      ReadsFour(cp, resto);
    } else if cp >= 0x800 {
      ReadsThree(cp, resto);
    } else if cp >= 0x80 {
      ReadsTwo(cp, resto);
    }
  }

  lemma ReadsTwo(cp: nat, resto: seq<byte>)
    requires 0x80 <= cp < 0x800
    ensures Leer8([0xC0 + cp / 64, 0x80 + cp % 64] + resto) == Si(cp, 2)
  {
    Continuation(cp % 64);
    Lead(0xC0, cp / 64, 32);
  }

  lemma ReadsThree(cp: nat, resto: seq<byte>)
    requires 0x800 <= cp < 0x1_0000 && !(0xD800 <= cp <= 0xDFFF)
    ensures Leer8([0xE0 + cp / 64 / 64, 0x80 + cp / 64 % 64, 0x80 + cp % 64] + resto) == Si(cp, 3)
  {
    Continuation(cp % 64);
    Continuation(cp / 64 % 64);
    Lead(0xE0, cp / 64 / 64, 16);
  }

  lemma ReadsFour(cp: nat, resto: seq<byte>)
    requires 0x1_0000 <= cp <= 0x10FFFF
    ensures Leer8([0xF0 + cp / 64 / 64 / 64, 0x80 + cp / 64 / 64 % 64, 0x80 + cp / 64 % 64, 0x80 + cp % 64] + resto) == Si(cp, 4)
  {
    Continuation(cp % 64);
    Continuation(cp / 64 % 64);
    Continuation(cp / 64 / 64 % 64);
    Lead(0xF0, cp / 64 / 64 / 64, 8);
  }

  lemma Digit(x: nat, y: nat)
    requires y < 64
    ensures (x * 64 + y) / 64 == x && (x * 64 + y) % 64 == y
  {
  }

  lemma Shifts64(cp: nat)
    ensures cp / 4096 == cp / 64 / 64 && cp / 0x4_0000 == cp / 64 / 64 / 64
  {
  }

  lemma Continuation(d: nat)
    requires d < 64
    ensures (0x80 + d) % 64 == d && Sigue(0x80 + d)
  {
  }

  lemma Lead(marca: nat, q: nat, m: nat)
    requires (marca == 0xC0 && m == 32) || (marca == 0xE0 && m == 16) || (marca == 0xF0 && m == 8)
    requires q < m
    ensures (marca + q) % m == q
  {
  }

  lemma Tail(b: byte)
    requires Sigue(b)
    ensures b == 0x80 + (b as int) % 64
  {
  }

  lemma ReadIsShortestForm(s: seq<byte>)
    requires s != [] && Leer8(s).Si?
    ensures Escalar(Leer8(s).cp) && s[..Leer8(s).largo] == Bytes8(Leer8(s).cp)
  {
    var a := s[0];
    if 0xC2 <= a <= 0xDF {
      ShortestTwo(a, s[1]);
    } else if 0xE0 <= a <= 0xEF {
      ShortestThree(a, s[1], s[2]);
    } else if a >= 0xF0 {
      ShortestFour(a, s[1], s[2], s[3]);
    }
  }

  lemma ShortestTwo(a: byte, b: byte)
    requires 0xC2 <= a <= 0xDF && Sigue(b)
    ensures var cp := Cola(a as int % 32, b); 0x80 <= cp < 0x800 && [a, b] == Bytes8(cp)
  {
    Lead(0xC0, a - 0xC0, 32);
    Tail(b);
    Digit(a - 0xC0, b as int % 64);
  }

  lemma DigitsThree(x: nat, y: nat, z: nat)
    requires y < 64 && z < 64
    ensures var cp := (x * 64 + y) * 64 + z; cp / 4096 == x && cp / 64 % 64 == y && cp % 64 == z
  {
    Digit(x, y);
    Digit(x * 64 + y, z);
    Shifts64((x * 64 + y) * 64 + z);
  }

  lemma ShortestThree(a: byte, b: byte, c: byte)
    requires 0xE0 <= a <= 0xEF && Sigue(b) && Sigue(c)
    ensures var cp := Cola(Cola(a as int % 16, b), c);
            cp < 0x1_0000 && (cp >= 0x800 ==> [a, b, c] == Bytes8(cp))
  {
    Lead(0xE0, a - 0xE0, 16);
    Tail(b);
    Tail(c);
    DigitsThree(a - 0xE0, b - 0x80, c - 0x80);
    assert b as int % 64 == b - 0x80 && c as int % 64 == c - 0x80;
  }

  lemma DigitsFour(w: nat, x: nat, y: nat, z: nat)
    requires x < 64 && y < 64 && z < 64
    ensures var cp := ((w * 64 + x) * 64 + y) * 64 + z;
            cp / 0x4_0000 == w && cp / 4096 % 64 == x && cp / 64 % 64 == y && cp % 64 == z
  {
    Digit(w, x);
    Digit(w * 64 + x, y);
    Digit((w * 64 + x) * 64 + y, z);
    Shifts64(((w * 64 + x) * 64 + y) * 64 + z);
  }

  lemma ShortestFour(a: byte, b: byte, c: byte, d: byte)
    requires 0xF0 <= a <= 0xF4 && Sigue(b) && Sigue(c) && Sigue(d)
    ensures var cp := Cola(Cola(Cola(a as int % 8, b), c), d);
            0x1_0000 <= cp <= 0x10FFFF ==> [a, b, c, d] == Bytes8(cp)
  {
    Lead(0xF0, a - 0xF0, 8);
    Tail(b);
    Tail(c);
    Tail(d);
    DigitsFour(a - 0xF0, b - 0x80, c - 0x80, d - 0x80);
    assert b as int % 64 == b - 0x80 && c as int % 64 == c - 0x80 && d as int % 64 == d - 0x80;
  }

  function Leer16(u: seq<unidad>): (p: Punto)
    requires u != []
    ensures p.Si? ==> p.largo <= |u|
  {
    var a := u[0];
    if 0xD800 <= a <= 0xDBFF then
      if |u| < 2 || !(0xDC00 <= u[1] <= 0xDFFF) then No
      else Si(0x1_0000 + (a as int - 0xD800) * 1024 + (u[1] as int - 0xDC00), 2)
    else if 0xDC00 <= a <= 0xDFFF || a == 0 then No
    else Si(a, 1)
  }

  lemma ReadsUnitsWritten(cp: nat, resto: seq<unidad>)
    requires Escalar(cp)
    ensures Leer16(Unidades(cp) + resto) == Si(cp, |Unidades(cp)|)
  {
  }

  lemma ReadUnitsAreThose(u: seq<unidad>)
    requires u != [] && Leer16(u).Si?
    ensures Escalar(Leer16(u).cp) && u[..Leer16(u).largo] == Unidades(Leer16(u).cp)
  {
  }

  // ----- Whole names -----

  datatype Lectura = Mal | Bien(cps: seq<nat>)

  function Tras(cps: seq<nat>, l: Lectura): Lectura {
    match l
    case Mal => Mal
    case Bien(c) => Bien(cps + c)
  }

  function Analizar8(s: seq<byte>): (l: Lectura) {
    if s == [] then Bien([])
    else
      match Leer8(s)
      case No => Mal
      case Si(cp, k) => if k == 0 then Mal else Tras([cp], Analizar8(s[k..]))
  }

  function Analizar16(u: seq<unidad>): (l: Lectura) {
    if u == [] then Bien([])
    else
      match Leer16(u)
      case No => Mal
      case Si(cp, k) => if k == 0 then Mal else Tras([cp], Analizar16(u[k..]))
  }

  lemma {:induction false} En8Cons(cp: nat, c: seq<nat>)
    requires Escalar(cp) && Todos(c)
    ensures Todos([cp] + c) && En8([cp] + c) == Bytes8(cp) + En8(c)
  {
    hide Bytes8;
    if c != [] {
      var a := c[..|c| - 1];
      En8Cons(cp, a);
      assert ([cp] + c)[..|c|] == [cp] + a;
    }
  }

  lemma {:induction false} En16Cons(cp: nat, c: seq<nat>)
    requires Escalar(cp) && Todos(c)
    ensures Todos([cp] + c) && En16([cp] + c) == Unidades(cp) + En16(c)
  {
    hide Unidades;
    if c != [] {
      var a := c[..|c| - 1];
      En16Cons(cp, a);
      assert ([cp] + c)[..|c|] == [cp] + a;
    }
  }

  /** Parsing inverts the encoding form, and accepts nothing else. */
  lemma {:induction false} ParseInverts8(c: seq<nat>)
    requires Todos(c)
    ensures Analizar8(En8(c)) == Bien(c)
  {
    hide Bytes8, Leer8;
    if c != [] {
      assert c == [c[0]] + c[1..];
      En8Cons(c[0], c[1..]);
      ReadsWhatIsWritten(c[0], En8(c[1..]));
      ParseInverts8(c[1..]);
      assert En8(c)[|Bytes8(c[0])|..] == En8(c[1..]);
    }
  }

  lemma {:induction false} ParsedIsEncoding8(s: seq<byte>)
    requires Analizar8(s).Bien?
    ensures Todos(Analizar8(s).cps) && En8(Analizar8(s).cps) == s
    decreases |s|
  {
    hide Bytes8, Leer8;
    if s != [] {
      var p := Leer8(s);
      ReadIsShortestForm(s);
      ParsedIsEncoding8(s[p.largo..]);
      En8Cons(p.cp, Analizar8(s[p.largo..]).cps);
      assert s == s[..p.largo] + s[p.largo..];
    }
  }

  lemma {:induction false} ParseInverts16(c: seq<nat>)
    requires Todos(c)
    ensures Analizar16(En16(c)) == Bien(c)
  {
    hide Unidades, Leer16;
    if c != [] {
      assert c == [c[0]] + c[1..];
      En16Cons(c[0], c[1..]);
      ReadsUnitsWritten(c[0], En16(c[1..]));
      ParseInverts16(c[1..]);
      assert En16(c)[|Unidades(c[0])|..] == En16(c[1..]);
    }
  }

  lemma {:induction false} ParsedIsEncoding16(u: seq<unidad>)
    requires Analizar16(u).Bien?
    ensures Todos(Analizar16(u).cps) && En16(Analizar16(u).cps) == u
    decreases |u|
  {
    hide Unidades, Leer16;
    if u != [] {
      var p := Leer16(u);
      ReadUnitsAreThose(u);
      ParsedIsEncoding16(u[p.largo..]);
      En16Cons(p.cp, Analizar16(u[p.largo..]).cps);
      assert u == u[..p.largo] + u[p.largo..];
    }
  }

  // ----- The converters -----

  predicate TodosPermitidos(c: seq<nat>) {
    forall i :: 0 <= i < |c| ==> Permitido(c[i])
  }

  datatype Nombre<T> = Corrupto | Leido(texto: seq<T>)

  /** What the reader's UTF-16 to UTF-8 converter answers. */
  ghost function Codificado(u: seq<unidad>): Nombre<byte> {
    if Analizar16(u).Mal? then Corrupto
    else
      ParsedIsEncoding16(u);
      var c := Analizar16(u).cps;
      if TodosPermitidos(c) then Leido(En8(c)) else Corrupto
  }

  /** What the UTF-8 to UTF-16 converter answers. */
  ghost function Decodificado(s: seq<byte>): Nombre<unidad> {
    if Analizar8(s).Mal? then Corrupto
    else
      ParsedIsEncoding8(s);
      var c := Analizar8(s).cps;
      if |En16(c)| <= MAX_UNIDADES then Leido(En16(c)) else Corrupto
  }

  /** The decoder accepts exactly the UTF-8 encodings of scalar values that fit 255 units, and
      answers their UTF-16 encoding. */
  lemma DecodesExactlyUtf8(s: seq<byte>, u: seq<unidad>)
    ensures Decodificado(s) == Leido(u) <==>
            exists c :: Todos(c) && s == En8(c) && u == En16(c) && |u| <= MAX_UNIDADES
  {
    hide Leer8, Bytes8, Unidades;
    if Analizar8(s).Bien? {
      ParsedIsEncoding8(s);
    }
    forall c | Todos(c) && s == En8(c) ensures Analizar8(s) == Bien(c) {
      ParseInverts8(c);
    }
  }

  /** The encoder accepts exactly the UTF-16 encodings of permitted characters, and answers their
      UTF-8 encoding. */
  lemma EncodesExactlyUtf16(u: seq<unidad>, s: seq<byte>)
    ensures Codificado(u) == Leido(s) <==>
            exists c :: Todos(c) && TodosPermitidos(c) && u == En16(c) && s == En8(c)
  {
    hide Leer16, Bytes8, Unidades;
    if Analizar16(u).Bien? {
      ParsedIsEncoding16(u);
    }
    forall c | Todos(c) && u == En16(c) ensures Analizar16(u) == Bien(c) {
      ParseInverts16(c);
    }
  }

  lemma {:induction false} ThreeBytesPerUnit(c: seq<nat>)
    requires Todos(c)
    ensures |En8(c)| <= 3 * |En16(c)|
  {
    if c != [] {
      ThreeBytesPerUnit(c[..|c| - 1]);
    }
  }

  /** Every stored name that is accepted comes back unit by unit, and its text with the final NUL
      fits three bytes a unit and one more. */
  lemma StoredNamesRoundTrip(u: seq<unidad>)
    requires Codificado(u).Leido? && |u| <= MAX_UNIDADES
    ensures Decodificado(Codificado(u).texto) == Leido(u)
    ensures |Codificado(u).texto| + 1 <= 3 * |u| + 1
  {
    hide Leer8, Leer16, Bytes8, Unidades;
    ParsedIsEncoding16(u);
    var c := Analizar16(u).cps;
    ParseInverts8(c);
    ThreeBytesPerUnit(c);
  }

  /** Every text that is accepted comes back byte by byte, if and only if the reader lets its
      characters through. */
  lemma TypedNamesRoundTrip(s: seq<byte>)
    requires Decodificado(s).Leido?
    ensures Codificado(Decodificado(s).texto) ==
            if TodosPermitidos(Analizar8(s).cps) then Leido(s) else Corrupto
  {
    hide Leer8, Leer16, Bytes8, Unidades;
    ParsedIsEncoding8(s);
    ParseInverts16(Analizar8(s).cps);
  }

  // ----- The loops -----

  /** Reads the character at `i`: the lead byte says how many continuation bytes follow. */
  method LeerPunto(s: seq<byte>, i: nat) returns (ok: bool, cp: nat, sig: nat)
    requires i < |s|
    ensures ok <==> Leer8(s[i..]).Si?
    ensures ok ==> i < sig <= |s| && Leer8(s[i..]) == Si(cp, sig - i)
  {
    var a, resto := s[i] as int, 0;
    ok, cp, sig := false, 0, i + 1;
    if a < 0x80 {
      cp := a;
    } else if 0xC2 <= a <= 0xDF {
      cp, resto := a % 32, 1;
    } else if 0xE0 <= a <= 0xEF {
      cp, resto := a % 16, 2;
    } else if 0xF0 <= a <= 0xF4 {
      cp, resto := a % 8, 3;
    } else {
      return;
    }
    if resto > |s| - sig {
      return;
    }
    ghost var c, t := cp, s[i + 1..];
    var k := 0;
    while k < resto
      invariant 0 <= k <= resto <= 3 && sig == i + 1 + k
      invariant forall j :: 0 <= j < k ==> Sigue(t[j])
      invariant cp == Acumula(c, t, k)
    {
      var b := s[sig];
      assert t[k] == b;
      sig := sig + 1;
      if !Sigue(b) {
        return;
      }
      cp := Cola(cp, b);
      k := k + 1;
    }
    SumUp(c, s, i, resto);
    if (resto == 1 && cp < 128) || (resto == 2 && cp < 2048) || (resto == 3 && cp < 65536) || cp > 0x10FFFF {
      return;
    }
    if 0xD800 <= cp <= 0xDFFF || cp == 0 {
      return;
    }
    ok := true;
  }

  /** The first `k` continuation bytes, accumulated on `c`. */
  function Acumula(c: nat, t: seq<byte>, k: nat): nat
    requires k <= |t|
  {
    if k == 0 then c else Cola(Acumula(c, t, k - 1), t[k - 1])
  }

  lemma SumUp(c: nat, s: seq<byte>, i: nat, resto: nat)
    requires i + resto < |s| && resto <= 3
    ensures resto >= 1 ==> Acumula(c, s[i + 1..], 1) == Cola(c, s[i + 1])
    ensures resto >= 2 ==> Acumula(c, s[i + 1..], 2) == Cola(Cola(c, s[i + 1]), s[i + 2])
    ensures resto >= 3 ==> Acumula(c, s[i + 1..], 3) == Cola(Cola(Cola(c, s[i + 1]), s[i + 2]), s[i + 3])
  {
    hide Cola;
    var t := s[i + 1..];
    if resto >= 1 {
      assert t[0] == s[i + 1];
      assert Acumula(c, t, 1) == Cola(Acumula(c, t, 0), t[0]);
    }
    if resto >= 2 {
      assert t[1] == s[i + 2];
      assert Acumula(c, t, 2) == Cola(Acumula(c, t, 1), t[1]);
    }
    if resto >= 3 {
      assert t[2] == s[i + 3];
      assert Acumula(c, t, 3) == Cola(Acumula(c, t, 2), t[2]);
    }
  }

  method DecodificarNombre(s: seq<byte>) returns (r: int, out: seq<unidad>)
    ensures r == 0 || r == VOLUMEN_CORRUPTO
    ensures Decodificado(s) == if r == 0 then Leido(out) else Corrupto
  {
    hide Leer8, Unidades, Analizar8, En16, Todos;
    out := [];
    var i := 0;
    ghost var c: seq<nat> := [];
    StartParsing8(s);
    while i < |s|
      invariant i <= |s| && Todos(c) && out == En16(c) && |out| <= MAX_UNIDADES
      invariant Analizar8(s) == Tras(c, Analizar8(s[i..]))
      decreases |s| - i
    {
      ParseStep8(s, c, i);
      var ok, cp, sig := LeerPunto(s, i);
      if !ok {
        return VOLUMEN_CORRUPTO, out;
      }
      ReadIsShortestForm(s[i..]);
      En16Snoc(c, cp);
      TooLong(s, c + [cp], sig);
      i := sig;
      c := c + [cp];
      if cp >= 65536 {
        UnitsOf(cp);
        if |out| > 253 {
          return VOLUMEN_CORRUPTO, out;
        }
        out := out + [0xD800 + (cp - 0x1_0000) / 1024, 0xDC00 + (cp - 0x1_0000) % 1024];
      } else {
        UnitsOf(cp);
        if |out| == 255 {
          return VOLUMEN_CORRUPTO, out;
        }
        out := out + [cp];
      }
    }
    EndParsing8(s, c);
    r := 0;
  }

  lemma StartParsing8(s: seq<byte>)
    ensures Todos([]) && En16([]) == [] && Analizar8(s) == Tras([], Analizar8(s[0..]))
  {
    assert s[0..] == s;
    if Analizar8(s).Bien? {
      assert [] + Analizar8(s).cps == Analizar8(s).cps;
    }
  }

  lemma EndParsing8(s: seq<byte>, c: seq<nat>)
    requires Todos(c) && Analizar8(s) == Tras(c, Analizar8(s[|s|..]))
    ensures Analizar8(s) == Bien(c)
  {
    assert s[|s|..] == [] && c + [] == c;
  }

  lemma ParseHead8(s: seq<byte>)
    requires s != []
    ensures Leer8(s).No? ==> Analizar8(s) == Mal
    ensures Leer8(s).Si? && Leer8(s).largo > 0 ==>
              Analizar8(s) == Tras([Leer8(s).cp], Analizar8(s[Leer8(s).largo..]))
  {
    hide Leer8;
  }

  lemma ParseStep8(s: seq<byte>, c: seq<nat>, i: nat)
    requires i < |s| && Analizar8(s) == Tras(c, Analizar8(s[i..]))
    ensures Leer8(s[i..]).No? ==> Analizar8(s).Mal?
    ensures Leer8(s[i..]).Si? && Leer8(s[i..]).largo > 0 ==>
              var p := Leer8(s[i..]);
              i + p.largo <= |s| && Analizar8(s) == Tras(c + [p.cp], Analizar8(s[i + p.largo..]))
  {
    hide Leer8, Analizar8;
    ParseHead8(s[i..]);
    var p := Leer8(s[i..]);
    if p.Si? && p.largo > 0 {
      assert s[i..][p.largo..] == s[i + p.largo..];
      var l := Analizar8(s[i + p.largo..]);
      if l.Bien? {
        assert c + ([p.cp] + l.cps) == c + [p.cp] + l.cps;
      }
    }
  }

  lemma En16Snoc(c: seq<nat>, cp: nat)
    requires Todos(c) && Escalar(cp)
    ensures Todos(c + [cp]) && En16(c + [cp]) == En16(c) + Unidades(cp)
  {
    hide Unidades;
    assert (c + [cp])[..|c|] == c;
  }

  lemma En8Snoc(c: seq<nat>, cp: nat)
    requires Todos(c) && Escalar(cp)
    ensures Todos(c + [cp]) && En8(c + [cp]) == En8(c) + Bytes8(cp)
  {
    hide Bytes8;
    assert (c + [cp])[..|c|] == c;
  }

  lemma UnitsOf(cp: nat)
    requires cp <= 0x10FFFF
    ensures Unidades(cp) == if cp < 0x1_0000 then [cp] else [0xD800 + (cp - 0x1_0000) / 1024, 0xDC00 + (cp - 0x1_0000) % 1024]
  {
  }

  lemma {:induction false} LongerIsLonger(c: seq<nat>, d: seq<nat>)
    requires Todos(c) && Todos(c + d)
    ensures |En16(c + d)| >= |En16(c)|
  {
    hide Unidades;
    if d == [] {
      assert c + d == c;
    } else {
      assert (c + d)[..|c + d| - 1] == c + d[..|d| - 1];
      LongerIsLonger(c, d[..|d| - 1]);
    }
  }

  /** Once what has been read takes too many units, the whole name does. */
  lemma TooLong(s: seq<byte>, c: seq<nat>, i: nat)
    requires i <= |s| && Todos(c) && Analizar8(s) == Tras(c, Analizar8(s[i..]))
    ensures |En16(c)| > MAX_UNIDADES ==> Decodificado(s) == Corrupto
  {
    hide Leer8, Unidades, En16;
    if Analizar8(s).Bien? {
      ParsedIsEncoding8(s);
      LongerIsLonger(c, Analizar8(s[i..]).cps);
    }
  }

  method ConvertirUtf8(src: seq<unidad>) returns (r: int, out: seq<byte>)
    ensures r == 0 || r == VOLUMEN_CORRUPTO
    ensures Codificado(src) == if r == 0 then Leido(out) else Corrupto
  {
    hide Leer16, Analizar16, En8, Todos, Bytes8, TodosPermitidos;
    out := [];
    var i := 0;
    ghost var c: seq<nat> := [];
    StartParsing16(src);
    while i < |src|
      invariant i <= |src| && Todos(c) && TodosPermitidos(c) && out == En8(c)
      invariant Analizar16(src) == Tras(c, Analizar16(src[i..]))
    {
      ParseStep16(src, c, i);
      var cp: nat := src[i];
      UnitAt(src, i);
      if cp < 32 || cp == 0xFFFF || cp == 127 || cp == '/' as int || cp == '\\' as int {
        return VOLUMEN_CORRUPTO, out;
      }
      if 0xD800 <= cp <= 0xDBFF {
        if i + 1 >= |src| || src[i + 1] < 0xDC00 || src[i + 1] > 0xDFFF {
          return VOLUMEN_CORRUPTO, out;
        }
        i := i + 1;
        cp := 0x1_0000 + (cp - 0xD800) * 1024 + (src[i] as int - 0xDC00);
      } else if 0xDC00 <= cp <= 0xDFFF {
        return VOLUMEN_CORRUPTO, out;
      }
      En8Snoc(c, cp);
      AllowMore(c, cp);
      BytesOf(cp);
      if cp < 0x80 {
        out := out + [cp];
      } else if cp < 0x800 {
        out := out + [0xC0 + cp / 64, 0x80 + cp % 64];
      } else if cp < 0x1_0000 {
        out := out + [0xE0 + cp / 4096, 0x80 + cp / 64 % 64, 0x80 + cp % 64];
      } else {
        out := out + [0xF0 + cp / 0x4_0000, 0x80 + cp / 4096 % 64, 0x80 + cp / 64 % 64, 0x80 + cp % 64];
      }
      i := i + 1;
      c := c + [cp];
    }
    EndParsing16(src, c);
    r := 0;
  }

  lemma StartParsing16(u: seq<unidad>)
    ensures Todos([]) && TodosPermitidos([]) && En8([]) == [] && Analizar16(u) == Tras([], Analizar16(u[0..]))
  {
    assert u[0..] == u;
    if Analizar16(u).Bien? {
      assert [] + Analizar16(u).cps == Analizar16(u).cps;
    }
  }

  lemma EndParsing16(u: seq<unidad>, c: seq<nat>)
    requires Todos(c) && Analizar16(u) == Tras(c, Analizar16(u[|u|..]))
    ensures Analizar16(u) == Bien(c)
  {
    assert u[|u|..] == [] && c + [] == c;
  }

  lemma ParseHead16(u: seq<unidad>)
    requires u != []
    ensures Leer16(u).No? ==> Analizar16(u) == Mal
    ensures Leer16(u).Si? && Leer16(u).largo > 0 ==>
              Analizar16(u) == Tras([Leer16(u).cp], Analizar16(u[Leer16(u).largo..]))
  {
    hide Leer16;
  }

  lemma ParseStep16(u: seq<unidad>, c: seq<nat>, i: nat)
    requires i < |u| && Analizar16(u) == Tras(c, Analizar16(u[i..]))
    ensures Leer16(u[i..]).No? ==> Codificado(u) == Corrupto
    ensures Leer16(u[i..]).Si? && Leer16(u[i..]).largo > 0 ==>
              var p := Leer16(u[i..]);
              && i + p.largo <= |u| && Analizar16(u) == Tras(c + [p.cp], Analizar16(u[i + p.largo..]))
              && (!Permitido(p.cp) ==> Codificado(u) == Corrupto)
  {
    hide Leer16, Permitido, Analizar16, En8;
    ParseHead16(u[i..]);
    var p := Leer16(u[i..]);
    if p.Si? && p.largo > 0 {
      assert u[i..][p.largo..] == u[i + p.largo..];
      var l := Analizar16(u[i + p.largo..]);
      if l.Bien? {
        assert c + ([p.cp] + l.cps) == c + [p.cp] + l.cps;
        assert (c + [p.cp] + l.cps)[|c|] == p.cp;
      }
    }
  }

  /** How the units at `i` are read. */
  lemma UnitAt(u: seq<unidad>, i: nat)
    requires i < |u|
    ensures var a, p := u[i] as int, Leer16(u[i..]);
            && (0xD800 <= a <= 0xDBFF && i + 1 < |u| && 0xDC00 <= u[i + 1] <= 0xDFFF ==>
                  p == Si(0x1_0000 + (a - 0xD800) * 1024 + (u[i + 1] as int - 0xDC00), 2) && Permitido(p.cp))
            && (0xD800 <= a <= 0xDBFF && !(i + 1 < |u| && 0xDC00 <= u[i + 1] <= 0xDFFF) ==> p == No)
            && (0xDC00 <= a <= 0xDFFF || a == 0 ==> p == No)
            && (!(0xD800 <= a <= 0xDFFF) && a != 0 ==> p == Si(a, 1) && Escalar(a))
  {
  }

  lemma AllowMore(c: seq<nat>, cp: nat)
    requires TodosPermitidos(c) && Permitido(cp)
    ensures TodosPermitidos(c + [cp])
  {
  }

  lemma BytesOf(cp: nat)
    requires cp <= 0x10FFFF
    ensures Bytes8(cp) ==
            if cp < 0x80 then [cp]
            else if cp < 0x800 then [0xC0 + cp / 64, 0x80 + cp % 64]
            else if cp < 0x1_0000 then [0xE0 + cp / 4096, 0x80 + cp / 64 % 64, 0x80 + cp % 64]
            else [0xF0 + cp / 0x4_0000, 0x80 + cp / 4096 % 64, 0x80 + cp / 64 % 64, 0x80 + cp % 64]
  {
  }

  predicate DeComponente(b: byte) {
    b >= 32 && b != 127 && b as int != '/' as int && b as int != '\\' as int
  }

  lemma PermittedBytes(cp: nat)
    requires Permitido(cp)
    ensures forall k :: 0 <= k < |Bytes8(cp)| ==> DeComponente(Bytes8(cp)[k])
  {
  }

  /** A name that the reader delivers can be one component of a path: no separator in it, no control
      character. */
  lemma {:induction false} NamesAreComponents(c: seq<nat>)
    requires Todos(c) && TodosPermitidos(c)
    ensures forall k :: 0 <= k < |En8(c)| ==> DeComponente(En8(c)[k])
  {
    hide Bytes8, DeComponente;
    if c != [] {
      NamesAreComponents(c[..|c| - 1]);
      PermittedBytes(c[|c| - 1]);
    }
  }

  lemma DeliveredIsComponent(u: seq<unidad>)
    requires Codificado(u).Leido?
    ensures forall k :: 0 <= k < |Codificado(u).texto| ==> DeComponente(Codificado(u).texto[k])
  {
    hide Leer16, Bytes8, Unidades;
    ParsedIsEncoding16(u);
    NamesAreComponents(Analizar16(u).cps);
  }
}
