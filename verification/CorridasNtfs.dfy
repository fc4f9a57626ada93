/** NTFS data runs: the packed list of extents of a file, decoded into VCN to LCN extents. */
module CorridasNtfs {
  import opened Bytes

  const MAX_EXTENTS: nat := 64
  const TOPE64: nat := 0xFFFF_FFFF_FFFF_FFFF
  const MAX63: int := 0x7FFF_FFFF_FFFF_FFFF
  const MIN63: int := -0x8000_0000_0000_0000

  // ----- Little-endian numbers of any size -----

  function Valor(s: seq<byte>): nat {
    if s == [] then 0 else s[0] + 256 * Valor(s[1..])
  }

  function Pot256(n: nat): (p: nat)
    ensures p > 0
  {
    if n == 0 then 1 else 256 * Pot256(n - 1)
  }

  function EnBytes(x: nat, n: nat): (s: seq<byte>)
    ensures |s| == n
  {
    if n == 0 then [] else [x % 256] + EnBytes(x / 256, n - 1)
  }

  lemma {:induction false} BytesRoundTrip(x: nat, n: nat)
    requires x < Pot256(n)
    ensures Valor(EnBytes(x, n)) == x
  {
    if n > 0 {
      assert EnBytes(x, n)[1..] == EnBytes(x / 256, n - 1);
      BytesRoundTrip(x / 256, n - 1);
    }
  }

  /** One more byte, shifted into place: what the accumulating loop adds. */
  lemma {:induction false} OneMoreByte(s: seq<byte>, b: byte)
    ensures Valor(s + [b]) == Valor(s) + b * Pot256(|s|)
  {
    if s == [] {
      assert [b][1..] == [];
      assert Valor([b]) == b;
    } else {
      assert (s + [b])[1..] == s[1..] + [b];
      OneMoreByte(s[1..], b);
      assert 256 * (b * Pot256(|s| - 1)) == b * (256 * Pot256(|s| - 1));
    }
  }

  lemma {:induction false} ValueBound(s: seq<byte>)
    ensures Valor(s) < Pot256(|s|)
  {
    if s != [] {
      ValueBound(s[1..]);
    }
  }

  /** Two's complement: the last byte holds the sign. */
  function ConSigno(s: seq<byte>): int {
    if s == [] then 0
    else if s[|s| - 1] >= 0x80 then Valor(s) - Pot256(|s|)
    else Valor(s)
  }

  function EnBytesConSigno(d: int, n: nat): (s: seq<byte>)
    ensures |s| == n
  {
    EnBytes(if d < 0 then Max(0, d + Pot256(n)) else d, n)
  }

  predicate CabeConSigno(d: int, n: nat) {
    n > 0 && -(128 * Pot256(n - 1)) <= d < 128 * Pot256(n - 1)
  }

  lemma {:induction false} LastByte(x: nat, n: nat)
    requires n > 0 && x < Pot256(n)
    ensures EnBytes(x, n)[n - 1] >= 0x80 <==> x >= 128 * Pot256(n - 1)
  {
    if n > 1 {
      LastByte(x / 256, n - 1);
      assert EnBytes(x, n)[n - 1] == EnBytes(x / 256, n - 1)[n - 2];
      assert x / 256 >= 128 * Pot256(n - 2) <==> x >= 256 * (128 * Pot256(n - 2));
    } else {
      assert Pot256(0) == 1 && Pot256(1) == 256;
      assert EnBytes(x, 1)[0] == x % 256;
    }
  }

  lemma SignedRoundTrip(d: int, n: nat)
    requires CabeConSigno(d, n)
    ensures ConSigno(EnBytesConSigno(d, n)) == d
  {
    var x := if d < 0 then d + Pot256(n) else d;
    assert Pot256(n) == 256 * Pot256(n - 1);
    BytesRoundTrip(x, n);
    LastByte(x, n);
  }

  // ----- Runs -----

  /** A run as it is packed: how many bytes its length and its offset take, and both. */
  datatype Corrida = Corrida(bytesLargo: nat, bytesDelta: nat, largo: nat, delta: int)

  predicate Empaquetable(c: Corrida) {
    && 1 <= c.bytesLargo <= 8 && 1 <= c.bytesDelta <= 8 && 0 < c.largo < Pot256(c.bytesLargo)
    && CabeConSigno(c.delta, c.bytesDelta)
  }

  function Empaquetar(c: Corrida): (s: seq<byte>)
    requires Empaquetable(c)
    ensures |s| == 1 + c.bytesLargo + c.bytesDelta
  {
    [16 * c.bytesDelta + c.bytesLargo] + EnBytes(c.largo, c.bytesLargo) + EnBytesConSigno(c.delta, c.bytesDelta)
  }

  predicate Empaquetables(cs: seq<Corrida>) {
    forall i :: 0 <= i < |cs| ==> Empaquetable(cs[i])
  }

  function EmpaquetarTodas(cs: seq<Corrida>): (s: seq<byte>)
    requires Empaquetables(cs)
  {
    if cs == [] then [] else Empaquetar(cs[0]) + EmpaquetarTodas(cs[1..])
  }

  datatype Extent = Extent(vcn: nat, conteo: nat, lcn: int)

  datatype Lista = Mala | Buena(extents: seq<Extent>)

  function Antes(e: Extent, l: Lista): Lista {
    match l
    case Mala => Mala
    case Buena(es) => Buena([e] + es)
  }

  predicate Desborda(lcn: int, delta: int) {
    lcn + delta > MAX63 || lcn + delta < MIN63
  }

  /** The extents a packed list stands for, from its `k`th run on. */
  function Decodificar(s: seq<byte>, k: nat, vcn: nat, lcn: int): (l: Lista)
    requires k <= MAX_EXTENTS
    decreases MAX_EXTENTS - k
  {
    if s == [] then Mala
    else if s[0] == 0 then Buena([])
    else if k == MAX_EXTENTS then Mala
    else
      var n, m := s[0] % 16, s[0] / 16;
      if n == 0 || n > 8 || m > 8 || |s| - 1 < n + m then Mala
      else
        var largo, delta := Valor(s[1..1 + n]), ConSigno(s[1 + n..1 + n + m]);
        if largo == 0 || largo > TOPE64 - vcn || Desborda(lcn, delta) then Mala
        else Antes(Extent(vcn, largo, lcn + delta), Decodificar(s[1 + n + m..], k + 1, vcn + largo, lcn + delta))
  }

  /** The extents a list of runs describes. */
  function Extents(cs: seq<Corrida>, vcn: nat, lcn: int): (es: seq<Extent>)
    ensures |es| == |cs|
  {
    if cs == [] then []
    else [Extent(vcn, cs[0].largo, lcn + cs[0].delta)] + Extents(cs[1..], vcn + cs[0].largo, lcn + cs[0].delta)
  }

  /** The lengths fit 64 bits together, and so does every running sum of the offsets. */
  predicate Representables(cs: seq<Corrida>, vcn: nat, lcn: int) {
    cs == [] || (cs[0].largo <= TOPE64 - vcn && !Desborda(lcn, cs[0].delta)
                 && Representables(cs[1..], vcn + cs[0].largo, lcn + cs[0].delta))
  }

  lemma PackedParts(c: Corrida, resto: seq<byte>)
    requires Empaquetable(c)
    ensures var s, n, m := Empaquetar(c) + resto, c.bytesLargo, c.bytesDelta;
            && s[0] as int == 16 * m + n && s[0] as int % 16 == n && s[0] as int / 16 == m && s[0] != 0
            && s[1..1 + n] == EnBytes(c.largo, n) && s[1 + n..1 + n + m] == EnBytesConSigno(c.delta, m)
            && s[1 + n + m..] == resto
  {
    hide EnBytes, EnBytesConSigno;
    Nibbles(c.bytesLargo, c.bytesDelta);
  }

  lemma Nibbles(n: nat, m: nat)
    requires n < 16
    ensures (16 * m + n) % 16 == n && (16 * m + n) / 16 == m
  {
  }

  lemma DecodeOne(c: Corrida, cola: seq<byte>, k: nat, vcn: nat, lcn: int)
    requires Empaquetable(c) && k < MAX_EXTENTS
    ensures Decodificar(Empaquetar(c) + cola, k, vcn, lcn) ==
            if c.largo > TOPE64 - vcn || Desborda(lcn, c.delta) then Mala
            else Antes(Extent(vcn, c.largo, lcn + c.delta), Decodificar(cola, k + 1, vcn + c.largo, lcn + c.delta))
  {
    hide Valor, ConSigno, EnBytes, EnBytesConSigno, Empaquetar, Pot256, CabeConSigno, Desborda;
    PackedParts(c, cola);
    BytesRoundTrip(c.largo, c.bytesLargo);
    SignedRoundTrip(c.delta, c.bytesDelta);
  }

  /** Decoding inverts the encoding of every list of at most 64 runs that 64-bit numbers can hold,
      whatever follows its terminator; and it refuses those they cannot. */
  lemma {:induction false} DecodingInverts(cs: seq<Corrida>, k: nat, vcn: nat, lcn: int, resto: seq<byte>)
    requires Empaquetables(cs) && k + |cs| <= MAX_EXTENTS && vcn <= TOPE64
    ensures Decodificar(EmpaquetarTodas(cs) + [0] + resto, k, vcn, lcn) ==
            if Representables(cs, vcn, lcn) then Buena(Extents(cs, vcn, lcn)) else Mala
    decreases |cs|
  {
    hide Decodificar, Empaquetar, Empaquetable;
    if cs == [] {
      EndOfRuns(resto, k, vcn, lcn);
      assert EmpaquetarTodas(cs) + [0] + resto == [0] + resto;
    } else {
      var c := cs[0];
      var cola := EmpaquetarTodas(cs[1..]) + [0] + resto;
      assert EmpaquetarTodas(cs) + [0] + resto == Empaquetar(c) + cola;
      DecodeOne(c, cola, k, vcn, lcn);
      if c.largo <= TOPE64 - vcn && !Desborda(lcn, c.delta) {
        DecodingInverts(cs[1..], k + 1, vcn + c.largo, lcn + c.delta, resto);
      }
    }
  }

  lemma EndOfRuns(resto: seq<byte>, k: nat, vcn: nat, lcn: int)
    requires k <= MAX_EXTENTS
    ensures Decodificar([0] + resto, k, vcn, lcn) == Buena([])
  {
  }

  function SumaDeltas(cs: seq<Corrida>, n: nat): int
    requires n <= |cs|
  {
    if n == 0 then 0 else SumaDeltas(cs, n - 1) + cs[n - 1].delta
  }

  function SumaLargos(cs: seq<Corrida>, n: nat): nat
    requires n <= |cs|
  {
    if n == 0 then 0 else SumaLargos(cs, n - 1) + cs[n - 1].largo
  }

  lemma {:induction false} SumsFromHead(cs: seq<Corrida>, n: nat)
    requires 0 < n <= |cs|
    ensures SumaDeltas(cs, n) == cs[0].delta + SumaDeltas(cs[1..], n - 1)
    ensures SumaLargos(cs, n) == cs[0].largo + SumaLargos(cs[1..], n - 1)
  {
    if n > 1 {
      SumsFromHead(cs, n - 1);
    }
  }

  /** The extents tile the VCN range from the start, and their LCNs are the running sums of the offsets. */
  lemma {:induction false} ExtentsTile(cs: seq<Corrida>, vcn: nat, lcn: int, i: nat)
    requires i < |cs|
    ensures var e := Extents(cs, vcn, lcn)[i];
            e.vcn == vcn + SumaLargos(cs, i) && e.conteo == cs[i].largo && e.lcn == lcn + SumaDeltas(cs, i + 1)
  {
    SumsFromHead(cs, i + 1);
    if i > 0 {
      SumsFromHead(cs, i);
      ExtentsTile(cs[1..], vcn + cs[0].largo, lcn + cs[0].delta, i - 1);
    }
  }

  /** Any list that is accepted, however it was packed, has at most 64 extents, none empty, each
      starting where the last one ended, all inside 64 bits. */
  lemma {:induction false} AcceptedExtentsTile(s: seq<byte>, k: nat, vcn: nat, lcn: int, i: nat)
    requires k <= MAX_EXTENTS && vcn <= TOPE64 && Decodificar(s, k, vcn, lcn).Buena?
    requires i < |Decodificar(s, k, vcn, lcn).extents|
    ensures var es := Decodificar(s, k, vcn, lcn).extents;
            && |es| + k <= MAX_EXTENTS && es[i].conteo > 0 && es[i].vcn + es[i].conteo <= TOPE64
            && es[i].vcn == (if i == 0 then vcn else es[i - 1].vcn + es[i - 1].conteo) && MIN63 <= es[i].lcn <= MAX63
    decreases MAX_EXTENTS - k
  {
    hide Valor, ConSigno;
    var es := Decodificar(s, k, vcn, lcn).extents;
    var n, m := s[0] % 16, s[0] / 16;
    var resto := s[1 + n + m..];
    var d := Decodificar(resto, k + 1, vcn + es[0].conteo, es[0].lcn);
    assert es == [es[0]] + d.extents;
    if i > 0 {
      AcceptedExtentsTile(resto, k + 1, vcn + es[0].conteo, es[0].lcn, i - 1);
    } else if |es| > 1 {
      AcceptedExtentsTile(resto, k + 1, vcn + es[0].conteo, es[0].lcn, 0);
    }
  }

  // ----- The decoding loop -----

  method LeerNumero(s: seq<byte>, n: nat) returns (x: nat)
    requires n <= |s|
    ensures x == Valor(s[..n])
  {
    hide Valor;
    x := 0;
    NothingRead(s);
    var k := 0;
    while k < n
      invariant k <= n && x == Valor(s[..k])
    {
      OneMoreByte(s[..k], s[k]);
      assert s[..k + 1] == s[..k] + [s[k]];
      x := x + s[k] * Pot256(k);
      k := k + 1;
    }
  }

  lemma NothingRead(s: seq<byte>)
    ensures Valor(s[..0]) == 0
  {
  }

  method DecodificarCorridas(s: seq<byte>) returns (r: int, es: seq<Extent>)
    ensures r == 0 || r == -6
    ensures Decodificar(s, 0, 0, 0) == if r == 0 then Buena(es) else Mala
  {
    hide Valor, ConSigno, Decodificar, Desborda;
    es := [];
    var p, vcn: nat, lcn := 0, 0, 0;
    assert s[0..] == s;
    NothingBefore(s);
    while p < |s| && s[p] != 0 && |es| < MAX_EXTENTS
      invariant p <= |s| && |es| <= MAX_EXTENTS && vcn <= TOPE64
      invariant Decodificar(s, 0, 0, 0) == Delante(es, Decodificar(s[p..], |es|, vcn, lcn))
      decreases |s| - p
    {
      var n, m := s[p] % 16, s[p] / 16;
      p := p + 1;
      OneStep(s, p - 1, |es|, vcn, lcn);
      if n == 0 || n > 8 || m > 8 || |s| - p < n + m {
        return -6, es;
      }
      var largo := LeerNumero(s[p..], n);
      assert s[p..][..n] == s[p..p + n];
      if largo == 0 || largo > TOPE64 - vcn {
        return -6, es;
      }
      var delta := 0;
      if m > 0 {
        delta := LeerNumero(s[p + n..], m);
        assert s[p + n..][..m] == s[p + n..p + n + m];
        if s[p + n + m - 1] >= 0x80 {
          delta := delta - Pot256(m);
        }
      }
      Signed(s[p + n..p + n + m]);
      if Desborda(lcn, delta) {
        return -6, es;
      }
      Delay(es, Extent(vcn, largo, lcn + delta), Decodificar(s[p + n + m..], |es| + 1, vcn + largo, lcn + delta));
      lcn := lcn + delta;
      es := es + [Extent(vcn, largo, lcn)];
      vcn := vcn + largo;
      p := p + n + m;
    }
    LastStep(s, p, |es|, vcn, lcn);
    if p >= |s| || s[p] != 0 {
      return -6, es;
    }
    assert es + [] == es;
    r := 0;
  }

  function Delante(es: seq<Extent>, l: Lista): Lista {
    match l
    case Mala => Mala
    case Buena(mas) => Buena(es + mas)
  }

  lemma NothingBefore(s: seq<byte>)
    ensures Decodificar(s, 0, 0, 0) == Delante([], Decodificar(s, 0, 0, 0))
  {
    hide Decodificar;
    var l := Decodificar(s, 0, 0, 0);
    if l.Buena? {
      assert [] + l.extents == l.extents;
    }
  }

  lemma Delay(es: seq<Extent>, e: Extent, l: Lista)
    ensures Delante(es, Antes(e, l)) == Delante(es + [e], l)
  {
    if l.Buena? {
      assert es + ([e] + l.extents) == es + [e] + l.extents;
    }
  }

  lemma Signed(s: seq<byte>)
    ensures ConSigno(s) == if s == [] then 0 else if s[|s| - 1] >= 0x80 then Valor(s) - Pot256(|s|) else Valor(s)
  {
  }

  lemma LastStep(s: seq<byte>, p: nat, k: nat, vcn: nat, lcn: int)
    requires p <= |s| && k <= MAX_EXTENTS && (p < |s| && s[p] != 0 ==> k == MAX_EXTENTS)
    ensures Decodificar(s[p..], k, vcn, lcn) == if p < |s| && s[p] == 0 then Buena([]) else Mala
  {
  }

  lemma OneStep(s: seq<byte>, p: nat, k: nat, vcn: nat, lcn: int)
    requires p < |s| && s[p] != 0 && k < MAX_EXTENTS
    ensures var n, m := s[p] as int % 16, s[p] as int / 16;
            && (n == 0 || n > 8 || m > 8 || |s| - p - 1 < n + m ==> Decodificar(s[p..], k, vcn, lcn) == Mala)
            && (!(n == 0 || n > 8 || m > 8 || |s| - p - 1 < n + m) ==>
                  var largo, delta := Valor(s[p + 1..p + 1 + n]), ConSigno(s[p + 1 + n..p + 1 + n + m]);
                  && (largo == 0 || largo > TOPE64 - vcn || Desborda(lcn, delta) ==> Decodificar(s[p..], k, vcn, lcn) == Mala)
                  && (!(largo == 0 || largo > TOPE64 - vcn || Desborda(lcn, delta)) ==>
                        Decodificar(s[p..], k, vcn, lcn) ==
                        Antes(Extent(vcn, largo, lcn + delta), Decodificar(s[p + 1 + n + m..], k + 1, vcn + largo, lcn + delta))))
  {
    hide Valor, ConSigno, Desborda;
    var t := s[p..];
    var n, m := s[p] as int % 16, s[p] as int / 16;
    assert t[0] == s[p];
    if |s| - p - 1 >= n + m {
      assert t[1..1 + n] == s[p + 1..p + 1 + n];
      assert t[1 + n..1 + n + m] == s[p + 1 + n..p + 1 + n + m];
      assert t[1 + n + m..] == s[p + 1 + n + m..];
    }
  }
}
