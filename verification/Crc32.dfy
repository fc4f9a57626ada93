/** CRC-32 as the partition tables use it, and what it detects. */
module Crc32 {
  import opened Bytes
  import opened Bits

  function PasoCrc(c: bv32): bv32 {
    (c >> 1) ^ (if c & 1 == 1 then 0xedb8_8320 else 0)
  }

  function PasosCrc(c: bv32, n: nat): bv32 {
    if n == 0 then c else PasoCrc(PasosCrc(c, n - 1))
  }

  /** The byte as a word. */
  function Palabra(b: byte): bv32 {
    (if BitDe(b, 0) then 1 else 0) | (if BitDe(b, 1) then 2 else 0)
    | (if BitDe(b, 2) then 4 else 0) | (if BitDe(b, 3) then 8 else 0)
    | (if BitDe(b, 4) then 16 else 0) | (if BitDe(b, 5) then 32 else 0)
    | (if BitDe(b, 6) then 64 else 0) | (if BitDe(b, 7) then 128 else 0)
  }

  function CrcByte(c: bv32, b: byte): bv32 {
    PasosCrc(c ^ Palabra(b), 8)
  }

  /** The register after `n` bytes of `s` from `a` on, starting from `c`. */
  function Crc(c: bv32, s: seq<byte>, a: nat, n: nat): bv32
    requires a + n <= |s|
  {
    if n == 0 then c else CrcByte(Crc(c, s, a, n - 1), s[a + n - 1])
  }

  function Invertir(c: bv32): bv32 {
    c ^ 0xffff_ffff
  }

  /** The checksum as it is stored. */
  function Sellado(s: seq<byte>, a: nat, n: nat): bv32
    requires a + n <= |s|
  {
    Invertir(Crc(0xffff_ffff, s, a, n))
  }

  lemma StepIsInjective(c: bv32, d: bv32)
    requires PasoCrc(c) == PasoCrc(d)
    ensures c == d
  {
  }

  lemma {:induction false} StepsAreInjective(c: bv32, d: bv32, n: nat)
    requires PasosCrc(c, n) == PasosCrc(d, n)
    ensures c == d
  {
    hide PasoCrc;
    if n > 0 {
      StepIsInjective(PasosCrc(c, n - 1), PasosCrc(d, n - 1));
      StepsAreInjective(c, d, n - 1);
    }
  }

  lemma XorIsInjective(c: bv32, x: bv32, y: bv32)
    ensures c ^ x == c ^ y ==> x == y
    ensures x ^ c == y ^ c ==> x == y
  {
  }

  lemma BitsOfWord(b: byte)
    ensures Palabra(b) & 1 != 0 <==> BitDe(b, 0)
    ensures Palabra(b) & 2 != 0 <==> BitDe(b, 1)
    ensures Palabra(b) & 4 != 0 <==> BitDe(b, 2)
    ensures Palabra(b) & 8 != 0 <==> BitDe(b, 3)
    ensures Palabra(b) & 16 != 0 <==> BitDe(b, 4)
    ensures Palabra(b) & 32 != 0 <==> BitDe(b, 5)
    ensures Palabra(b) & 64 != 0 <==> BitDe(b, 6)
    ensures Palabra(b) & 128 != 0 <==> BitDe(b, 7)
  {
    hide BitDe;
  }

  lemma WordIsInjective(a: byte, b: byte)
    requires Palabra(a) == Palabra(b)
    ensures a == b
  {
    assert Doble(8) == 256;
    hide Palabra, BitDe;
    BitsOfWord(a);
    BitsOfWord(b);
    BitsDetermine(a, b, 8);
  }

  lemma ByteKeepsApart(c: bv32, d: bv32, b: byte)
    requires c != d
    ensures CrcByte(c, b) != CrcByte(d, b)
  {
    hide PasosCrc, Palabra;
    if CrcByte(c, b) == CrcByte(d, b) {
      StepsAreInjective(c ^ Palabra(b), d ^ Palabra(b), 8);
      XorIsInjective(Palabra(b), c, d);
    }
  }

  lemma OtherByteOtherCrc(c: bv32, a: byte, b: byte)
    requires a != b
    ensures CrcByte(c, a) != CrcByte(c, b)
  {
    hide PasosCrc, Palabra;
    if CrcByte(c, a) == CrcByte(c, b) {
      StepsAreInjective(c ^ Palabra(a), c ^ Palabra(b), 8);
      XorIsInjective(c, Palabra(a), Palabra(b));
      WordIsInjective(a, b);
    }
  }

  lemma {:induction false} SameBytesSameCrc(c: bv32, s: seq<byte>, t: seq<byte>, a: nat, n: nat)
    requires a + n <= |s| && a + n <= |t| && forall k :: a <= k < a + n ==> s[k] == t[k]
    ensures Crc(c, s, a, n) == Crc(c, t, a, n)
  {
    hide CrcByte;
    if n > 0 {
      SameBytesSameCrc(c, s, t, a, n - 1);
    }
  }

  lemma SameBytesSameSeal(s: seq<byte>, t: seq<byte>, a: nat, n: nat)
    requires a + n <= |s| && a + n <= |t| && forall k :: a <= k < a + n ==> s[k] == t[k]
    ensures Sellado(s, a, n) == Sellado(t, a, n)
  {
    hide Crc, Invertir;
    SameBytesSameCrc(0xffff_ffff, s, t, a, n);
  }

  /** Any change confined to one byte changes the checksum. */
  lemma {:induction false} OneByteIsDetected(c: bv32, s: seq<byte>, t: seq<byte>, a: nat, n: nat, k: nat)
    requires a + n <= |s| && a + n <= |t| && a <= k < a + n && s[k] != t[k]
    requires forall j :: a <= j < a + n && j != k ==> s[j] == t[j]
    ensures Crc(c, s, a, n) != Crc(c, t, a, n)
  {
    hide CrcByte;
    if k == a + n - 1 {
      SameBytesSameCrc(c, s, t, a, n - 1);
      OtherByteOtherCrc(Crc(c, s, a, n - 1), s[k], t[k]);
    } else {
      OneByteIsDetected(c, s, t, a, n - 1, k);
      ByteKeepsApart(Crc(c, s, a, n - 1), Crc(c, t, a, n - 1), s[a + n - 1]);
    }
  }

  // ----- The polynomial -----

  function OchoVeces(c: bv32): bv32 {
    PasoCrc(PasoCrc(PasoCrc(PasoCrc(PasoCrc(PasoCrc(PasoCrc(PasoCrc(c))))))))
  }

  lemma EightSteps(c: bv32)
    ensures PasosCrc(c, 8) == OchoVeces(c)
  {
    hide PasoCrc;
    assert PasosCrc(c, 0) == c;
    assert PasosCrc(c, 1) == PasoCrc(c);
    assert PasosCrc(c, 3) == PasoCrc(PasoCrc(PasosCrc(c, 1)));
    assert PasosCrc(c, 5) == PasoCrc(PasoCrc(PasosCrc(c, 3)));
    assert PasosCrc(c, 7) == PasoCrc(PasoCrc(PasosCrc(c, 5)));
  }

  function DeDigito(k: nat): bv32 {
    if k == 0 then 0x31 else if k == 1 then 0x32 else if k == 2 then 0x33 else if k == 3 then 0x34
    else if k == 4 then 0x35 else if k == 5 then 0x36 else if k == 6 then 0x37 else if k == 7 then 0x38 else 0x39
  }

  /** The byte of a digit. */
  lemma DigitWord(b: byte)
    requires 0x31 <= b <= 0x39
    ensures Palabra(b) == DeDigito(b - 0x31)
  {
    hide BitDe;
    BitsAreWorth(b, 0);
    BitsAreWorth(b, 1);
    BitsAreWorth(b, 2);
    BitsAreWorth(b, 3);
    BitsAreWorth(b, 4);
    BitsAreWorth(b, 5);
    BitsAreWorth(b, 6);
    BitsAreWorth(b, 7);
  }

  /** The check value that identifies this CRC among all others of its width, over the nine digits. */
  lemma CheckValue(s: seq<byte>)
    requires s == [0x31, 0x32, 0x33, 0x34, 0x35, 0x36, 0x37, 0x38, 0x39]
    ensures Sellado(s, 0, 9) == 0xcbf4_3926
  {
    hide PasosCrc, Palabra, Crc;
    assert Crc(0xffff_ffff, s, 0, 0) == 0xffff_ffff by { NoBytesNoChange(s); }
    NextRegister(s, 0, 0xffff_ffff, 0x7c23_1048);
    NextRegister(s, 1, 0x7c23_1048, 0xb0ac_bb32);
    NextRegister(s, 2, 0xb0ac_bb32, 0x77b7_9c2d);
    NextRegister(s, 3, 0x77b7_9c2d, 0x641c_1f5c);
    NextRegister(s, 4, 0x641c_1f5c, 0x340a_c5e3);
    NextRegister(s, 5, 0x340a_c5e3, 0xf68d_2c9e);
    NextRegister(s, 6, 0xf68d_2c9e, 0xaffc_9660);
    NextRegister(s, 7, 0xaffc_9660, 0x651f_2550);
    NextRegister(s, 8, 0x651f_2550, 0x340b_c6d9);
  }

  lemma NoBytesNoChange(s: seq<byte>)
    ensures Crc(0xffff_ffff, s, 0, 0) == 0xffff_ffff
  {
  }

  lemma NextRegister(s: seq<byte>, k: nat, c: bv32, d: bv32)
    requires |s| == 9 && k < 9 && s[k] == 0x31 + k && Crc(0xffff_ffff, s, 0, k) == c
    requires OchoVeces(c ^ DeDigito(k)) == d
    ensures Crc(0xffff_ffff, s, 0, k + 1) == d
  {
    hide OchoVeces, PasosCrc, Palabra, DeDigito;
    DigitWord(s[k]);
    EightSteps(c ^ Palabra(s[k]));
  }

  function Junta(a: bv32, b: bv32, c: bv32, d: bv32): bv32 {
    a | (b << 8) | (c << 16) | (d << 24)
  }

  /** A stored 32-bit field, as a word. */
  function Campo(s: seq<byte>, k: nat): bv32
    requires k + 4 <= |s|
  {
    Junta(Palabra(s[k]), Palabra(s[k + 1]), Palabra(s[k + 2]), Palabra(s[k + 3]))
  }

  /** The check value as it is stored: its lowest byte first. */
  lemma StoredLowestFirst(s: seq<byte>)
    requires s == [0x26, 0x39, 0xf4, 0xcb]
    ensures Campo(s, 0) == 0xcbf4_3926
  {
    hide Palabra;
    WordFromBits(0x26);
    WordFromBits(0x39);
    WordFromBits(0xf4);
    WordFromBits(0xcb);
  }

  lemma WordFromBits(b: byte)
    ensures b == 0x26 ==> Palabra(b) == 0x26
    ensures b == 0x39 ==> Palabra(b) == 0x39
    ensures b == 0xf4 ==> Palabra(b) == 0xf4
    ensures b == 0xcb ==> Palabra(b) == 0xcb
  {
    hide BitDe;
    BitsAreWorth(b, 0);
    BitsAreWorth(b, 1);
    BitsAreWorth(b, 2);
    BitsAreWorth(b, 3);
    BitsAreWorth(b, 4);
    BitsAreWorth(b, 5);
    BitsAreWorth(b, 6);
    BitsAreWorth(b, 7);
  }

  predicate Corta(w: bv32) {
    w & 0xff == w
  }

  lemma WordIsShort(b: byte)
    ensures Corta(Palabra(b))
  {
    hide BitDe;
  }

  lemma PiecesComeBack(a: bv32, b: bv32, c: bv32, d: bv32)
    requires Corta(a) && Corta(b) && Corta(c) && Corta(d)
    ensures var w := Junta(a, b, c, d);
            w & 0xff == a && (w >> 8) & 0xff == b && (w >> 16) & 0xff == c && w >> 24 == d
  {
  }

  lemma JoinIsInjective(a: bv32, b: bv32, c: bv32, d: bv32, a': bv32, b': bv32, c': bv32, d': bv32)
    requires Corta(a) && Corta(b) && Corta(c) && Corta(d) && Corta(a') && Corta(b') && Corta(c') && Corta(d')
    requires Junta(a, b, c, d) == Junta(a', b', c', d')
    ensures a == a' && b == b' && c == c' && d == d'
  {
    hide Junta, Corta;
    PiecesComeBack(a, b, c, d);
    PiecesComeBack(a', b', c', d');
  }

  lemma FieldIsInjective(s: seq<byte>, t: seq<byte>, k: nat)
    requires k + 4 <= |s| && k + 4 <= |t| && Campo(s, k) == Campo(t, k)
    ensures forall j :: k <= j < k + 4 ==> s[j] == t[j]
  {
    hide Palabra, Junta, Corta;
    forall b: byte {
      WordIsShort(b);
    }
    JoinIsInjective(Palabra(s[k]), Palabra(s[k + 1]), Palabra(s[k + 2]), Palabra(s[k + 3]),
                    Palabra(t[k]), Palabra(t[k + 1]), Palabra(t[k + 2]), Palabra(t[k + 3]));
    WordIsInjective(s[k], t[k]);
    WordIsInjective(s[k + 1], t[k + 1]);
    WordIsInjective(s[k + 2], t[k + 2]);
    WordIsInjective(s[k + 3], t[k + 3]);
  }

  lemma {:induction false} CrcOfSlice(c: bv32, s: seq<byte>, a: nat, m: nat, n: nat)
    requires n <= m && a + m <= |s|
    ensures Crc(c, s[a..a + m], 0, n) == Crc(c, s, a, n)
  {
    hide CrcByte;
    if n > 0 {
      CrcOfSlice(c, s, a, m, n - 1);
    }
  }

  /** The register can be carried over from one piece to the next. */
  lemma {:induction false} CrcContinues(c: bv32, s: seq<byte>, a: nat, m: nat, n: nat)
    requires a + m + n <= |s|
    ensures Crc(Crc(c, s, a, m), s, a + m, n) == Crc(c, s, a, m + n)
  {
    hide CrcByte;
    if n > 0 {
      CrcContinues(c, s, a, m, n - 1);
    }
  }

  method OchoPasos(c: bv32) returns (r: bv32)
    ensures r == PasosCrc(c, 8)
  {
    hide PasoCrc;
    r := c;
    for k := 0 to 8
      invariant r == PasosCrc(c, k)
    {
      r := PasoCrc(r);
    }
  }

  /** The loop over the bytes of one buffer. */
  method SeguirCrc(c: bv32, p: seq<byte>, n: nat) returns (r: bv32)
    requires n <= |p|
    ensures r == Crc(c, p, 0, n)
  {
    hide Palabra, PasosCrc;
    r := c;
    for k := 0 to n
      invariant r == Crc(c, p, 0, k)
    {
      r := OchoPasos(r ^ Palabra(p[k]));
    }
  }
}
