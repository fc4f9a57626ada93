/** Contiguous DMA buffers: a bitmap of the arena's pages and the size of each live allocation. */
module Dma {
  import opened Bytes
  import opened Bits

  const PALABRAS: nat := 128
  const MAX_PAGINAS: nat := 128 * 64

  // ----- The bitmap, in words of 64 bits -----

  predicate Ocupada(mapa: seq<nat>, p: nat) {
    p / 64 < |mapa| && BitDe(mapa[p / 64], p % 64)
  }

  function Poner(mapa: seq<nat>, p: nat): (r: seq<nat>)
    requires p / 64 < |mapa|
    ensures |r| == |mapa|
  {
    mapa[p / 64 := ConBit(mapa[p / 64], p % 64)]
  }

  function Quitar(mapa: seq<nat>, p: nat): (r: seq<nat>)
    requires p / 64 < |mapa|
    ensures |r| == |mapa|
  {
    mapa[p / 64 := SinBit(mapa[p / 64], p % 64)]
  }

  lemma SetOnePage(mapa: seq<nat>, p: nat, q: nat)
    requires p / 64 < |mapa|
    ensures Ocupada(Poner(mapa, p), q) <==> q == p || Ocupada(mapa, q)
  {
    hide BitDe, ConBit;
    if q / 64 == p / 64 {
      SetChangesOneBit(mapa[p / 64], p % 64, q % 64);
    }
  }

  lemma ClearOnePage(mapa: seq<nat>, p: nat, q: nat)
    requires p / 64 < |mapa|
    ensures Ocupada(Quitar(mapa, p), q) <==> q != p && Ocupada(mapa, q)
  {
    hide BitDe, SinBit;
    if q / 64 == p / 64 {
      ClearChangesOneBit(mapa[p / 64], p % 64, q % 64);
    }
  }

  // ----- Live allocations -----

  function Paginas(bytes: nat): nat {
    (bytes + PAGINA - 1) / PAGINA
  }

  /** Page `q` belongs to the allocation that starts at page `i`. */
  predicate De(tamanos: seq<nat>, i: nat, q: nat) {
    i < |tamanos| && tamanos[i] > 0 && i <= q < i + Paginas(tamanos[i])
  }

  /** The bitmap is exactly the union of the live allocations, which are apart and inside the arena. */
  ghost predicate Reflejo(mapa: seq<nat>, tamanos: seq<nat>, total: nat) {
    && (forall i: nat :: i < |tamanos| && tamanos[i] > 0 ==> i + Paginas(tamanos[i]) <= total)
    && (forall i: nat, j: nat, q: nat :: De(tamanos, i, q) && De(tamanos, j, q) ==> i == j)
    && forall q: nat :: Ocupada(mapa, q) <==> exists i: nat :: De(tamanos, i, q)
  }

  function Vivas(tamanos: seq<nat>): nat {
    if tamanos == [] then 0 else Vivas(tamanos[..|tamanos| - 1]) + if tamanos[|tamanos| - 1] > 0 then 1 else 0
  }

  function PaginasVivas(tamanos: seq<nat>): nat {
    if tamanos == [] then 0 else PaginasVivas(tamanos[..|tamanos| - 1]) + Paginas(tamanos[|tamanos| - 1])
  }

  lemma {:induction false} CountsUpdate(s: seq<nat>, i: nat, v: nat)
    requires i < |s|
    ensures Vivas(s[i := v]) == Vivas(s) - (if s[i] > 0 then 1 else 0) + (if v > 0 then 1 else 0)
    ensures PaginasVivas(s[i := v]) == PaginasVivas(s) - Paginas(s[i]) + Paginas(v)
  {
    hide Paginas;
    var n := |s| - 1;
    if i == n {
      assert s[i := v][..n] == s[..n];
    } else {
      assert s[i := v][..n] == s[..n][i := v];
      CountsUpdate(s[..n], i, v);
    }
  }

  predicate TramoLibre(mapa: seq<nat>, i: nat, n: nat) {
    forall q :: i <= q < i + n ==> !Ocupada(mapa, q)
  }

  lemma NewIsReflected(mapa: seq<nat>, tamanos: seq<nat>, total: nat, nuevo: seq<nat>, i: nat, bytes: nat)
    requires Reflejo(mapa, tamanos, total) && bytes > 0 && i + Paginas(bytes) <= total && i < |tamanos|
    requires TramoLibre(mapa, i, Paginas(bytes))
    requires forall q: nat :: Ocupada(nuevo, q) <==> Ocupada(mapa, q) || i <= q < i + Paginas(bytes)
    ensures tamanos[i] == 0 && Reflejo(nuevo, tamanos[i := bytes], total)
  {
    hide Ocupada, Paginas;
    PagesPositive(bytes);
    assert !Ocupada(mapa, i);
    FirstPageIsBusy(mapa, tamanos, total, i);
    var t := tamanos[i := bytes];
    forall j: nat, q: nat ensures De(t, j, q) <==> De(tamanos, j, q) || (j == i && i <= q < i + Paginas(bytes)) {
    }
    forall j: nat, k: nat, q: nat | De(t, j, q) && De(t, k, q) ensures j == k {
      assert De(tamanos, j, q) ==> Ocupada(mapa, q);
      assert De(tamanos, k, q) ==> Ocupada(mapa, q);
    }
    forall q: nat ensures Ocupada(nuevo, q) <==> exists j: nat :: De(t, j, q) {
      if i <= q < i + Paginas(bytes) {
        assert De(t, i, q);
      } else if Ocupada(mapa, q) {
        var j: nat :| De(tamanos, j, q);
        assert De(t, j, q);
      }
    }
  }

  lemma FirstPageIsBusy(mapa: seq<nat>, tamanos: seq<nat>, total: nat, i: nat)
    requires Reflejo(mapa, tamanos, total) && i < |tamanos|
    ensures tamanos[i] > 0 ==> Ocupada(mapa, i)
  {
    if tamanos[i] > 0 {
      PagesPositive(tamanos[i]);
      assert De(tamanos, i, i);
    }
  }

  lemma PagesPositive(bytes: nat)
    ensures bytes > 0 <==> Paginas(bytes) > 0
  {
  }

  lemma FreedIsReflected(mapa: seq<nat>, tamanos: seq<nat>, total: nat, nuevo: seq<nat>, i: nat)
    requires Reflejo(mapa, tamanos, total) && i < |tamanos| && tamanos[i] > 0
    requires forall q: nat :: Ocupada(nuevo, q) <==> Ocupada(mapa, q) && !(i <= q < i + Paginas(tamanos[i]))
    ensures Reflejo(nuevo, tamanos[i := 0], total)
    ensures forall q :: i <= q < i + Paginas(tamanos[i]) ==> Ocupada(mapa, q)
  {
    hide Ocupada, Paginas;
    var t := tamanos[i := 0];
    forall j: nat, q: nat ensures De(t, j, q) <==> De(tamanos, j, q) && j != i {
    }
    forall q: nat | i <= q < i + Paginas(tamanos[i]) ensures Ocupada(mapa, q) {
      assert De(tamanos, i, q);
    }
    forall q: nat ensures Ocupada(nuevo, q) <==> exists j: nat :: De(t, j, q) {
      if Ocupada(mapa, q) {
        var j: nat :| De(tamanos, j, q);
        assert j != i ==> De(t, j, q);
        if i <= q < i + Paginas(tamanos[i]) {
          assert De(tamanos, i, q);
        }
      }
    }
  }

  // ----- The allocator -----

  predicate Alineada(fis: nat, alineacion: nat)
    requires alineacion > 0
  {
    fis % alineacion == 0
  }

  /** A place for `n` pages: aligned, free, inside the arena. */
  predicate Cabe(mapa: seq<nat>, base: nat, total: nat, n: nat, alineacion: nat, i: nat)
    requires alineacion > 0
  {
    i + n <= total && Alineada(base + i * PAGINA, alineacion) && TramoLibre(mapa, i, n)
  }

  /** Page `q` of the arena shares a byte with the buffer of `bytes` bytes at `fis`. */
  predicate Toca(base: nat, q: nat, fis: nat, bytes: nat) {
    base + q * 4096 < fis + bytes && fis < base + (q + 1) * 4096
  }

  /** A place for a buffer, told in bytes: aligned, inside the arena, on pages that are all free. */
  ghost predicate Sitio(mapa: seq<nat>, base: nat, total: nat, bytes: nat, alineacion: nat, fis: nat)
    requires alineacion > 0
  {
    && base <= fis && (fis - base) % 4096 == 0 && fis + bytes <= base + total * 4096 && fis % alineacion == 0
    && forall q: nat :: Ocupada(mapa, q) ==> !Toca(base, q, fis, bytes)
  }

  /** The pages of a buffer are the pages that it touches. */
  lemma PagesAreTouched(base: nat, i: nat, bytes: nat, q: nat)
    requires bytes > 0
    ensures i <= q < i + Paginas(bytes) <==> Toca(base, q, base + i * PAGINA, bytes)
  {
  }

  lemma PlaceInBytes(mapa: seq<nat>, base: nat, total: nat, bytes: nat, alineacion: nat, i: nat)
    requires alineacion > 0 && bytes > 0
    ensures Cabe(mapa, base, total, Paginas(bytes), alineacion, i) <==>
            Sitio(mapa, base, total, bytes, alineacion, base + i * PAGINA)
  {
    hide Ocupada, Toca, Paginas;
    PagesHold(bytes, i, total);
    PageNumber(base, i);
    var fis := base + i * PAGINA;
    TouchedRun(base, i, bytes, fis);
  }

  lemma TouchedRun(base: nat, i: nat, bytes: nat, fis: nat)
    requires bytes > 0 && fis == base + i * PAGINA
    ensures forall q: nat :: Toca(base, q, fis, bytes) <==> i <= q < i + Paginas(bytes)
  {
    hide Toca, Paginas;
    forall q: nat ensures Toca(base, q, fis, bytes) <==> i <= q < i + Paginas(bytes) {
      PagesAreTouched(base, i, bytes, q);
    }
  }

  /** What a search over pages says about addresses. */
  lemma FirstPlace(mapa: seq<nat>, base: nat, total: nat, bytes: nat, alineacion: nat, hasta: nat)
    requires alineacion > 0 && bytes > 0
    requires forall k: nat :: k < hasta ==> !Cabe(mapa, base, total, Paginas(bytes), alineacion, k)
    ensures forall p: nat :: Sitio(mapa, base, total, bytes, alineacion, p) ==> base + hasta * PAGINA <= p
  {
    hide Cabe, Paginas;
    forall p: nat | Sitio(mapa, base, total, bytes, alineacion, p) ensures base + hasta * PAGINA <= p {
      var k := (p - base) / PAGINA;
      assert base + k * PAGINA == p;
      PlaceInBytes(mapa, base, total, bytes, alineacion, k);
    }
  }

  lemma NoPlace(mapa: seq<nat>, base: nat, total: nat, bytes: nat, alineacion: nat)
    requires alineacion > 0 && bytes > 0
    requires forall k: nat :: !Cabe(mapa, base, total, Paginas(bytes), alineacion, k)
    ensures forall p: nat :: !Sitio(mapa, base, total, bytes, alineacion, p)
  {
    hide Cabe, Paginas, Sitio;
    if p: nat :| Sitio(mapa, base, total, bytes, alineacion, p) {
      FirstPlace(mapa, base, total, bytes, alineacion, p + 1);
      assert false;
    }
  }

  lemma PagesHold(bytes: nat, i: nat, total: nat)
    ensures i + Paginas(bytes) <= total <==> i * PAGINA + bytes <= total * PAGINA
  {
  }

  lemma FreeIsUntouched(mapa: seq<nat>, base: nat, total: nat, bytes: nat, alineacion: nat, fis: nat)
    requires alineacion > 0 && Sitio(mapa, base, total, bytes, alineacion, fis)
    ensures forall q: nat :: Ocupada(mapa, q) ==> !Toca(base, q, fis, bytes)
  {
    hide Ocupada, Toca;
  }

  lemma FoundPlace(mapa: seq<nat>, base: nat, tamano: nat, total: nat, bytes: nat, alineacion: nat, k: nat)
    requires alineacion > 0 && bytes > 0 && total == Min(tamano / PAGINA, MAX_PAGINAS)
    requires Cabe(mapa, base, total, Paginas(bytes), alineacion, k)
    ensures Sitio(mapa, base, total, bytes, alineacion, base + k * PAGINA)
    ensures k + Paginas(bytes) <= total && k < MAX_PAGINAS && TramoLibre(mapa, k, Paginas(bytes))
    ensures base + k * PAGINA + bytes <= base + tamano && (base + k * PAGINA) % alineacion == 0
  {
    hide TramoLibre, Toca;
    PlaceInBytes(mapa, base, total, bytes, alineacion, k);
  }

  lemma NoRoom(mapa: seq<nat>, base: nat, tamano: nat, total: nat, bytes: nat, alineacion: nat)
    requires alineacion > 0
    ensures bytes > 0 && total == 0 ==> forall p: nat :: !Sitio(mapa, base, total, bytes, alineacion, p)
  {
  }

  lemma FreedInBytes(antes: seq<nat>, luego: seq<nat>, base: nat, i: nat, bytes: nat)
    requires bytes > 0
    requires forall q: nat :: Ocupada(luego, q) <==> Ocupada(antes, q) && !(i <= q < i + Paginas(bytes))
    ensures forall q: nat :: Ocupada(luego, q) <==> Ocupada(antes, q) && !Toca(base, q, base + i * PAGINA, bytes)
  {
    hide Ocupada, Paginas, Toca;
    forall q: nat ensures Ocupada(luego, q) <==> Ocupada(antes, q) && !Toca(base, q, base + i * PAGINA, bytes) {
      PagesAreTouched(base, i, bytes, q);
    }
  }

  lemma MarkedInBytes(antes: seq<nat>, luego: seq<nat>, base: nat, i: nat, bytes: nat)
    requires bytes > 0
    requires forall q: nat :: Ocupada(luego, q) <==> Ocupada(antes, q) || i <= q < i + Paginas(bytes)
    ensures forall q: nat :: Ocupada(luego, q) <==> Ocupada(antes, q) || Toca(base, q, base + i * PAGINA, bytes)
  {
    hide Ocupada, Paginas, Toca;
    forall q: nat ensures Ocupada(luego, q) <==> Ocupada(antes, q) || Toca(base, q, base + i * PAGINA, bytes) {
      PagesAreTouched(base, i, bytes, q);
    }
  }

  /** A live allocation, by its physical address and the size it was asked with. */
  predicate EsViva(tamanos: seq<nat>, base: nat, fis: nat, bytes: nat) {
    && bytes > 0 && fis >= base && (fis - base) % PAGINA == 0
    && (fis - base) / PAGINA < |tamanos| && tamanos[(fis - base) / PAGINA] == bytes
  }

  class Arena {
    const base: nat
    const tamano: nat
    const total: nat
    const hhdm: nat
    const mapa: array<nat>
    const tamanos: array<nat>
    var ocupadas: nat
    var activas: nat
    var maxKb: nat

    ghost predicate Cuentas()
      reads `ocupadas, `activas, tamanos
    {
      ocupadas == PaginasVivas(tamanos[..]) && activas == Vivas(tamanos[..])
    }

    ghost predicate Valid()
      reads this, mapa, tamanos
    {
      && mapa != tamanos && mapa.Length == PALABRAS && tamanos.Length == MAX_PAGINAS
      && total == Min(tamano / PAGINA, MAX_PAGINAS) && tamano < DOS32 && hhdm > 0
      && Reflejo(mapa[..], tamanos[..], total) && Cuentas()
      && forall i :: 0 <= i < MAX_PAGINAS ==> tamanos[i] <= tamano
    }

    constructor (b: nat, t: nat, h: nat)
      requires t < DOS32 && h > 0
      ensures Valid() && fresh(mapa) && fresh(tamanos) && base == b && tamano == t && hhdm == h
      ensures forall i :: 0 <= i < MAX_PAGINAS ==> tamanos[i] == 0
    {
      base, tamano, hhdm, total := b, t, h, Min(t / PAGINA, MAX_PAGINAS);
      ocupadas, activas, maxKb := 0, 0, 0;
      mapa := new nat[PALABRAS](i => 0);
      tamanos := new nat[MAX_PAGINAS](i => 0);
      new;
      NothingLive(mapa[..], tamanos[..], total);
    }

    method MarcarTramo(i: nat, n: nat)
      requires mapa.Length == PALABRAS && i + n <= MAX_PAGINAS
      modifies mapa
      ensures forall q: nat :: Ocupada(mapa[..], q) <==> Ocupada(old(mapa[..]), q) || i <= q < i + n
    {
      hide Ocupada, Poner;
      var j := 0;
      while j < n
        invariant j <= n
        invariant forall q: nat :: Ocupada(mapa[..], q) <==> Ocupada(old(mapa[..]), q) || i <= q < i + j
      {
        ghost var antes := mapa[..];
        forall q: nat ensures Ocupada(Poner(antes, i + j), q) <==> q == i + j || Ocupada(antes, q) {
          SetOnePage(antes, i + j, q);
        }
        WordOf(antes, i + j);
        mapa[(i + j) / 64] := ConBit(mapa[(i + j) / 64], (i + j) % 64);
        assert mapa[..] == Poner(antes, i + j);
        j := j + 1;
      }
    }

    method LimpiarTramo(i: nat, n: nat)
      requires mapa.Length == PALABRAS && i + n <= MAX_PAGINAS
      modifies mapa
      ensures forall q: nat :: Ocupada(mapa[..], q) <==> Ocupada(old(mapa[..]), q) && !(i <= q < i + n)
    {
      hide Ocupada, Quitar;
      var j := 0;
      while j < n
        invariant j <= n
        invariant forall q: nat :: Ocupada(mapa[..], q) <==> Ocupada(old(mapa[..]), q) && !(i <= q < i + j)
      {
        ghost var antes := mapa[..];
        forall q: nat ensures Ocupada(Quitar(antes, i + j), q) <==> q != i + j && Ocupada(antes, q) {
          ClearOnePage(antes, i + j, q);
        }
        WordOut(antes, i + j);
        mapa[(i + j) / 64] := SinBit(mapa[(i + j) / 64], (i + j) % 64);
        assert mapa[..] == Quitar(antes, i + j);
        j := j + 1;
      }
    }

    method EstaLibre(i: nat, n: nat) returns (libre: bool)
      requires mapa.Length == PALABRAS && i + n <= MAX_PAGINAS
      ensures libre <==> TramoLibre(mapa[..], i, n)
    {
      hide Ocupada;
      var j := 0;
      while j < n
        invariant j <= n && TramoLibre(mapa[..], i, j)
      {
        if Ocupada(mapa[..], i + j) {
          return false;
        }
        j := j + 1;
      }
      return true;
    }

    /** The first aligned place for the pages asked, if there is one. */
    method BuscarSitio(n: nat, alineacion: nat) returns (hay: bool, i: nat)
      requires mapa.Length == PALABRAS && total <= MAX_PAGINAS && alineacion > 0
      ensures hay ==> Cabe(mapa[..], base, total, n, alineacion, i)
      ensures hay ==> forall k: nat :: k < i ==> !Cabe(mapa[..], base, total, n, alineacion, k)
      ensures !hay ==> forall k: nat :: !Cabe(mapa[..], base, total, n, alineacion, k)
    {
      hide TramoLibre, Alineada;
      hay, i := false, 0;
      while i + n <= total
        invariant forall k: nat :: k < i ==> !Cabe(mapa[..], base, total, n, alineacion, k)
        decreases total + 1 - i
      {
        if Alineada(base + i * PAGINA, alineacion) {
          var libre := EstaLibre(i, n);
          if libre {
            return true, i;
          }
        }
        i := i + 1;
      }
    }

    /** Takes the first aligned run of free pages. Fails, changing nothing, exactly when the size is out
        of range or no such run exists. */
    method Asignar(bytes: nat, pedida: nat) returns (virt: nat, fis: nat, ghost i: nat)
      requires Valid()
      modifies mapa, tamanos, `ocupadas, `activas, `maxKb
      ensures Valid()
      ensures virt != 0 <==> 0 < bytes <= tamano
                             && exists p: nat :: Sitio(old(mapa[..]), base, total, bytes, Max(pedida, PAGINA), p)
      ensures virt == 0 ==> mapa[..] == old(mapa[..]) && tamanos[..] == old(tamanos[..])
                            && ocupadas == old(ocupadas) && activas == old(activas)
      ensures virt != 0 ==>
                && base <= fis && fis + bytes <= base + tamano && fis % Max(pedida, 4096) == 0 && virt == fis + hhdm
                && Sitio(old(mapa[..]), base, total, bytes, Max(pedida, PAGINA), fis)
                && (forall p: nat :: Sitio(old(mapa[..]), base, total, bytes, Max(pedida, PAGINA), p) ==> fis <= p)
                && (forall q: nat :: Ocupada(mapa[..], q) <==> Ocupada(old(mapa[..]), q) || Toca(base, q, fis, bytes))
                && fis == base + i * PAGINA && i < MAX_PAGINAS && old(tamanos[..])[i] == 0
                && tamanos[..] == old(tamanos[..])[i := bytes]
    {
      hide Ocupada, Paginas, Reflejo, TramoLibre, Vivas, PaginasVivas, Alineada, Toca, Sitio, Cabe;
      virt, fis, i := 0, 0, 0;
      NoRoom(mapa[..], base, tamano, total, bytes, Max(pedida, PAGINA));
      if bytes == 0 || total == 0 || bytes > tamano {
        return;
      }
      var alineacion := if pedida < PAGINA then PAGINA else pedida;
      assert alineacion == Max(pedida, PAGINA);
      var n := Paginas(bytes);
      PagesPositive(bytes);
      var hay, k := BuscarSitio(n, alineacion);
      if !hay {
        NoPlace(mapa[..], base, total, bytes, alineacion);
        return;
      }
      i := k;
      ghost var m0, t0 := mapa[..], tamanos[..];
      FoundPlace(m0, base, tamano, total, bytes, alineacion, k);
      FirstPlace(m0, base, total, bytes, alineacion, k);
      MarcarTramo(k, n);
      MarkedInBytes(m0, mapa[..], base, k, bytes);
      NewIsReflected(m0, t0, total, mapa[..], k, bytes);
      CountsUpdate(t0, k, bytes);
      NoPages();
      ocupadas := ocupadas + n;
      activas := activas + 1;
      tamanos[k] := bytes;
      assert tamanos[..] == t0[k := bytes];
      if n * 4096 / 1024 > maxKb {
        maxKb := n * 4096 / 1024;
      }
      fis := base + k * PAGINA;
      virt := fis + hhdm;
    }

    /** Gives a buffer back. Succeeds exactly for a live address with the size it was asked with and its
        own mapping; otherwise nothing changes. */
    method Liberar(virt: nat, fis: nat, bytes: nat) returns (r: int)
      requires Valid()
      modifies mapa, tamanos, `ocupadas, `activas
      ensures Valid() && (r == 0 || r == -1)
      ensures r == 0 <==> EsViva(old(tamanos[..]), base, fis, bytes) && virt == fis + hhdm
      ensures r != 0 ==> mapa[..] == old(mapa[..]) && tamanos[..] == old(tamanos[..])
                         && ocupadas == old(ocupadas) && activas == old(activas)
      ensures r == 0 ==> var i := (fis - base) / PAGINA;
                && tamanos[..] == old(tamanos[..])[i := 0]
                && (forall q: nat :: Ocupada(mapa[..], q) <==> Ocupada(old(mapa[..]), q) && !Toca(base, q, fis, bytes))
    {
      hide Ocupada, Paginas, Reflejo, Vivas, PaginasVivas, Toca;
      LiveIsInside(fis, bytes);
      if bytes == 0 || virt == 0 || total == 0 || fis < base || fis >= base + tamano {
        return -1;
      }
      if (fis - base) % PAGINA != 0 || virt != fis + hhdm {
        return -1;
      }
      var i := (fis - base) / PAGINA;
      if bytes > tamano || i >= total || tamanos[i] != bytes {
        return -1;
      }
      var n := Paginas(bytes);
      ghost var m0, t0 := mapa[..], tamanos[..];
      assert t0[i] == bytes;
      LiveIsMarked(m0, t0, total, i);
      if n > total - i {
        return -1;
      }
      var todas := EstaOcupado(i, n);
      if !todas {
        return -1;
      }
      CountsUpdate(t0, i, 0);
      NoPages();
      tamanos[i] := 0;
      assert tamanos[..] == t0[i := 0];
      LimpiarTramo(i, n);
      FreedIsReflected(m0, t0, total, mapa[..], i);
      FreedInBytes(m0, mapa[..], base, i, bytes);
      ocupadas := Max(ocupadas - n, 0);
      if activas > 0 {
        activas := activas - 1;
      }
      r := 0;
    }

    /** Live buffers lie inside the arena and share no byte. */
    lemma LiveBuffersAreApart(f: nat, bf: nat, g: nat, bg: nat)
      requires Valid() && EsViva(tamanos[..], base, f, bf) && EsViva(tamanos[..], base, g, bg)
      ensures base <= f && f + bf <= base + tamano
      ensures f == g ==> bf == bg
      ensures f != g ==> f + bf <= g || g + bg <= f
    {
      hide Ocupada, Paginas;
      var i, j := (f - base) / PAGINA, (g - base) / PAGINA;
      LiveIsMarked(mapa[..], tamanos[..], total, i);
      PagesHold(bf, i, total);
      if f < g {
        BuffersApart(mapa[..], tamanos[..], total, i, j);
      } else if g < f {
        BuffersApart(mapa[..], tamanos[..], total, j, i);
      }
    }

    /** A page is marked exactly when a live buffer has a byte in it. */
    lemma MarkedAreTouched(q: nat)
      requires Valid()
      ensures Ocupada(mapa[..], q) <==>
              exists f: nat, b: nat :: EsViva(tamanos[..], base, f, b) && Toca(base, q, f, b)
    {
      hide Ocupada, Paginas, Toca;
      if Ocupada(mapa[..], q) {
        var i: nat :| De(tamanos[..], i, q);
        PageNumber(base, i);
        PagesAreTouched(base, i, tamanos[i], q);
        assert EsViva(tamanos[..], base, base + i * PAGINA, tamanos[i]);
      }
      forall f: nat, b: nat | EsViva(tamanos[..], base, f, b) && Toca(base, q, f, b) ensures Ocupada(mapa[..], q) {
        var i := (f - base) / PAGINA;
        assert base + i * PAGINA == f;
        PagesAreTouched(base, i, b, q);
        assert De(tamanos[..], i, q);
      }
    }

    lemma LiveIsInside(fis: nat, bytes: nat)
      requires Valid()
      ensures EsViva(tamanos[..], base, fis, bytes) ==>
                var i := (fis - base) / PAGINA; total > 0 && i < total && fis < base + tamano && bytes <= tamano
    {
      hide Ocupada;
      if EsViva(tamanos[..], base, fis, bytes) {
        PagesPositive(bytes);
      }
    }

    method EstaOcupado(i: nat, n: nat) returns (todas: bool)
      requires mapa.Length == PALABRAS && i + n <= MAX_PAGINAS
      ensures todas <==> forall q :: i <= q < i + n ==> Ocupada(mapa[..], q)
    {
      hide Ocupada;
      var j := 0;
      while j < n
        invariant j <= n && forall q :: i <= q < i + j ==> Ocupada(mapa[..], q)
      {
        if !Ocupada(mapa[..], i + j) {
          return false;
        }
        j := j + 1;
      }
      return true;
    }

    /** A buffer taken and given back leaves the arena as it was. */
    method TomarYDevolver(bytes: nat, alineacion: nat) returns (hubo: bool)
      requires Valid()
      modifies mapa, tamanos, `ocupadas, `activas, `maxKb
      ensures Valid() && tamanos[..] == old(tamanos[..]) && ocupadas == old(ocupadas) && activas == old(activas)
      ensures forall q: nat :: Ocupada(mapa[..], q) <==> Ocupada(old(mapa[..]), q)
    {
      hide Ocupada, Paginas, Reflejo, Vivas, PaginasVivas, Alineada, Toca, Sitio;
      ghost var m0, t0 := mapa[..], tamanos[..];
      var virt, fis;
      ghost var i;
      virt, fis, i := Asignar(bytes, alineacion);
      hubo := virt != 0;
      if hubo {
        PageNumber(base, i);
        assert EsViva(tamanos[..], base, fis, bytes);
        assert Sitio(m0, base, total, bytes, Max(alineacion, PAGINA), fis);
        FreeIsUntouched(m0, base, total, bytes, Max(alineacion, PAGINA), fis);
        var r := Liberar(virt, fis, bytes);
        assert tamanos[..] == t0;
      }
    }
  }

  lemma BuffersApart(mapa: seq<nat>, tamanos: seq<nat>, total: nat, i: nat, j: nat)
    requires Reflejo(mapa, tamanos, total) && i < j < |tamanos| && tamanos[i] > 0 && tamanos[j] > 0
    ensures i * PAGINA + tamanos[i] <= j * PAGINA
  {
    hide Ocupada, Paginas;
    PagesPositive(tamanos[j]);
    assert De(tamanos, j, j);
    assert !De(tamanos, i, j);
    PagesHold(tamanos[i], i, j);
  }

  lemma PageNumber(base: nat, i: nat)
    ensures (base + i * PAGINA - base) / PAGINA == i && (base + i * PAGINA - base) % PAGINA == 0
  {
  }

  lemma NoPages()
    ensures Paginas(0) == 0
  {
  }

  lemma WordOf(mapa: seq<nat>, p: nat)
    requires p / 64 < |mapa|
    ensures Poner(mapa, p) == mapa[p / 64 := ConBit(mapa[p / 64], p % 64)]
  {
  }

  lemma WordOut(mapa: seq<nat>, p: nat)
    requires p / 64 < |mapa|
    ensures Quitar(mapa, p) == mapa[p / 64 := SinBit(mapa[p / 64], p % 64)]
  {
  }

  lemma LiveIsMarked(mapa: seq<nat>, tamanos: seq<nat>, total: nat, i: nat)
    requires Reflejo(mapa, tamanos, total) && i < |tamanos| && tamanos[i] > 0
    ensures i + Paginas(tamanos[i]) <= total
    ensures forall q :: i <= q < i + Paginas(tamanos[i]) ==> Ocupada(mapa, q)
  {
    hide Ocupada, Paginas;
    forall q: nat | i <= q < i + Paginas(tamanos[i]) ensures Ocupada(mapa, q) {
      assert De(tamanos, i, q);
    }
  }

  lemma NothingLive(mapa: seq<nat>, tamanos: seq<nat>, total: nat)
    requires forall k :: 0 <= k < |mapa| ==> mapa[k] == 0
    requires forall k :: 0 <= k < |tamanos| ==> tamanos[k] == 0
    ensures Reflejo(mapa, tamanos, total) && Vivas(tamanos) == 0 && PaginasVivas(tamanos) == 0
  {
    forall q: nat ensures !Ocupada(mapa, q) {
      if q / 64 < |mapa| {
        NoBitInZero(q % 64);
      }
    }
    NoCounts(tamanos);
  }

  lemma {:induction false} NoBitInZero(k: nat)
    ensures !BitDe(0, k)
  {
    if k > 0 {
      NoBitInZero(k - 1);
    }
  }

  lemma {:induction false} NoCounts(s: seq<nat>)
    requires forall k :: 0 <= k < |s| ==> s[k] == 0
    ensures Vivas(s) == 0 && PaginasVivas(s) == 0
  {
    if s != [] {
      NoCounts(s[..|s| - 1]);
      NoPages();
    }
  }
}
