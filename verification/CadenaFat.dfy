/** FAT chains as mathematics: what following a link means, the closed form of the
    tortoise that the cursor drags behind it, and what the tortoise test refuses. */
module CadenaFat {
  import opened Bytes

  /** What one FAT entry says: the next cluster, end of chain, or corruption. */
  datatype Enlace = Sigue(cluster: nat) | Fin | Roto

  /** A FAT, seen as the answer to "what follows cluster c". */
  type Fat = nat -> Enlace

  /** The reference walk: follow `i` links from `ini`, with no cycle detection at all. */
  function Seguir(f: Fat, ini: Enlace, i: nat): (e: Enlace)
  {
    if i == 0 then ini
    else
      var e := Seguir(f, ini, i - 1);
      if e.Sigue? then f(e.cluster) else e
  }

  /** The hare and the tortoise of Brent's algorithm, as the cursor stores them. */
  datatype Liebre = Liebre(cluster: nat, tortuga: nat, potencia: nat, pasos: nat)

  datatype Marcha = EnMarcha(l: Liebre) | Alto(fin: Enlace)

  /** One successful iteration of the cursor's loop body, `n` being the cluster it moves to. */
  function Avanzar(l: Liebre, n: nat): Liebre {
    if l.pasos + 1 == l.potencia then
      Liebre(n, n, if l.potencia <= 0x7fff_ffff then 2 * l.potencia else l.potencia, 0)
    else
      Liebre(n, l.tortuga, l.potencia, l.pasos + 1)
  }

  function Paso(f: Fat, l: Liebre): (w: Marcha)
    ensures w.Alto? ==> !w.fin.Sigue?
  {
    var e := f(l.cluster);
    if !e.Sigue? then Alto(e)
    else if e.cluster == l.tortuga then Alto(Roto)
    else EnMarcha(Avanzar(l, e.cluster))
  }

  function Salida(ini: nat): Liebre { Liebre(ini, ini, 1, 0) }

  /** What a fresh cursor on `ini` holds after advancing to index `i`. */
  function Caminar(f: Fat, ini: Enlace, i: nat): (w: Marcha)
    ensures w.Alto? ==> !w.fin.Sigue?
  {
    if i == 0 then
      if ini.Sigue? then EnMarcha(Salida(ini.cluster)) else Alto(ini)
    else
      var w := Caminar(f, ini, i - 1);
      if w.EnMarcha? then Paso(f, w.l) else w
  }

  /** The largest power of two that is at most `n`. */
  function Potencia(n: nat): (p: nat)
    requires n >= 1
    ensures 1 <= p <= n < 2 * p
  {
    if n == 1 then 1
    else
      var p := Potencia(n - 1);
      if n == 2 * p then n else p
  }

  /** The index on which the tortoise sits while the hare is at index `i`: always 2^j - 1. */
  function IndiceTortuga(i: nat): (t: nat)
    ensures t <= i
  {
    Potencia(i + 1) - 1
  }

  // ----- The state of the cursor is a function of its index -----

  lemma {:induction false} PotenciaStays(p: nat, n: nat)
    requires p >= 1 && Potencia(p) == p && p <= n < 2 * p
    ensures Potencia(n) == p
    decreases n
  {
    if n > p {
      PotenciaStays(p, n - 1);
    }
  }

  lemma {:induction false} PotenciaIdempotent(n: nat)
    requires n >= 1
    ensures Potencia(Potencia(n)) == Potencia(n)
    decreases n
  {
    if n > 1 {
      PotenciaIdempotent(n - 1);
    }
  }

  /** Past the first index, a walk that reached `i` also reached every smaller index. */
  lemma {:induction false} SeguirPrefix(f: Fat, ini: Enlace, k: nat, i: nat)
    requires k <= i && Seguir(f, ini, i).Sigue?
    ensures Seguir(f, ini, k).Sigue?
    decreases i
  {
    if k < i {
      SeguirPrefix(f, ini, k, i - 1);
    }
  }

  lemma {:induction false} CaminarPrefix(f: Fat, ini: Enlace, k: nat, i: nat)
    requires k <= i && Caminar(f, ini, i).EnMarcha?
    ensures Caminar(f, ini, k).EnMarcha?
    decreases i
  {
    if k < i {
      CaminarPrefix(f, ini, k, i - 1);
    }
  }

  lemma {:induction false} CaminarHaltsForGood(f: Fat, ini: Enlace, k: nat, i: nat)
    requires k <= i && Caminar(f, ini, k).Alto?
    ensures Caminar(f, ini, i) == Caminar(f, ini, k)
    decreases i
  {
    if k < i {
      CaminarHaltsForGood(f, ini, k, i - 1);
    }
  }

  /** Closed form: the hare is the plain walk, and tortoise, power and step count depend on the
      index alone. The saturation of the power at 2^31 is never visible below 2^32 - 1. */
  lemma {:induction false} CursorStateIsFunctionOfIndex(f: Fat, ini: Enlace, i: nat)
    requires i < 0xffff_ffff && Caminar(f, ini, i).EnMarcha?
    ensures Seguir(f, ini, i).Sigue? && Seguir(f, ini, IndiceTortuga(i)).Sigue?
    ensures Caminar(f, ini, i).l ==
            Liebre(Seguir(f, ini, i).cluster, Seguir(f, ini, IndiceTortuga(i)).cluster,
                   IndiceTortuga(i) + 1, i - IndiceTortuga(i))
    decreases i
  {
    if i > 0 {
      CursorStateIsFunctionOfIndex(f, ini, i - 1);
    }
  }

  /** The tortoise meets the hare when it steps on to index `k + 1`. */
  predicate Choca(f: Fat, ini: Enlace, k: nat)
  {
    Seguir(f, ini, k + 1).Sigue? && Seguir(f, ini, k + 1) == Seguir(f, ini, IndiceTortuga(k))
  }

  /** Exactly when the cursor can stand on index `i`. */
  lemma {:induction false} CaminarAdvancesIff(f: Fat, ini: Enlace, i: nat)
    requires i < 0xffff_ffff
    ensures Caminar(f, ini, i).EnMarcha? <==>
            Seguir(f, ini, i).Sigue? && forall k: nat :: k < i ==> !Choca(f, ini, k)
    decreases i
  {
    if i > 0 {
      CaminarAdvancesIff(f, ini, i - 1);
      if Caminar(f, ini, i - 1).EnMarcha? {
        CursorStateIsFunctionOfIndex(f, ini, i - 1);
        assert Caminar(f, ini, i).EnMarcha? <==> Seguir(f, ini, i).Sigue? && !Choca(f, ini, i - 1);
      } else if Seguir(f, ini, i).Sigue? {
        SeguirPrefix(f, ini, i - 1, i);
      }
    }
  }

  // ----- Soundness and completeness of cycle detection -----

  /** The first `n` clusters of the chain exist and are pairwise distinct. */
  predicate Distintos(f: Fat, ini: Enlace, n: nat)
  {
    && (forall k: nat :: k < n ==> Seguir(f, ini, k).Sigue?)
    && (forall a: nat, b: nat :: a < b < n ==> Seguir(f, ini, a) != Seguir(f, ini, b))
  }

  lemma DistinctPrefix(f: Fat, ini: Enlace, a: nat, b: nat)
    requires Distintos(f, ini, b) && a <= b
    ensures Distintos(f, ini, a)
  {
    hide Seguir;
  }

  lemma DistinctPair(f: Fat, ini: Enlace, n: nat, a: nat, b: nat)
    requires Distintos(f, ini, n) && a < b < n
    ensures Seguir(f, ini, a) != Seguir(f, ini, b)
  {
    hide Seguir;
  }

  /** Soundness: a walk over distinct clusters is never refused. */
  lemma DistinctWalkNeverRefused(f: Fat, ini: Enlace, i: nat)
    requires i < 0xffff_ffff && Distintos(f, ini, i + 1)
    ensures Caminar(f, ini, i).EnMarcha?
    ensures Caminar(f, ini, i).l.cluster == Seguir(f, ini, i).cluster
  {
    forall k: nat | k < i ensures !Choca(f, ini, k) {
      assert IndiceTortuga(k) < k + 1 < i + 1;
    }
    CaminarAdvancesIff(f, ini, i);
    CursorStateIsFunctionOfIndex(f, ini, i);
  }

  /** Two indices on the same cluster have the same future. */
  lemma {:induction false} SameClusterSameFuture(f: Fat, ini: Enlace, a: nat, b: nat, d: nat)
    requires Seguir(f, ini, a) == Seguir(f, ini, b)
    ensures Seguir(f, ini, a + d) == Seguir(f, ini, b + d)
    decreases d
  {
    if d > 0 {
      SameClusterSameFuture(f, ini, a, b, d - 1);
      assert a + d - 1 == a + (d - 1) && b + d - 1 == b + (d - 1);
    }
  }

  /** An index at which the tortoise already sits in the loop and still has a full lap to wait. */
  lemma MeetingIndex(cola: nat, lazo: nat) returns (k: nat)
    requires lazo >= 1
    ensures k < Max(2 * cola + lazo, 3 * lazo - 2)
    ensures IndiceTortuga(k) == k + 1 - lazo >= cola
  {
    var mayor := Max(cola + 1, lazo);
    var p := Potencia(2 * mayor - 1);
    k := p - 1 + (lazo - 1);
    PotenciaIdempotent(2 * mayor - 1);
    PotenciaStays(p, k + 1);
  }

  /** Completeness: a chain with a tail of `cola` clusters and a loop of `lazo` clusters is
      refused by index max(2 cola + lazo, 3 lazo - 2), hence by 3 (cola + lazo). */
  lemma LoopIsRefused(f: Fat, ini: Enlace, cola: nat, lazo: nat, i: nat)
    requires lazo >= 1
    requires Seguir(f, ini, cola).Sigue? && Seguir(f, ini, cola + lazo) == Seguir(f, ini, cola)
    requires Max(2 * cola + lazo, 3 * lazo - 2) <= i < 0xffff_ffff
    ensures Caminar(f, ini, i) == Alto(Roto)
  {
    var k := MeetingIndex(cola, lazo);
    var t := k + 1 - lazo;
    SameClusterSameFuture(f, ini, cola + lazo, cola, t - cola);
    assert cola + lazo + (t - cola) == k + 1 && cola + (t - cola) == t;
    WalkInLoopNeverEnds(f, ini, cola, lazo, k + 1);
    assert Choca(f, ini, k);
    CaminarAdvancesIff(f, ini, k + 1);
    HaltBeforeEndIsCorruption(f, ini, k + 1);
    CaminarHaltsForGood(f, ini, k + 1, i);
  }

  /** A chain that runs into a loop has a cluster at every index. */
  lemma {:induction false} WalkInLoopNeverEnds(f: Fat, ini: Enlace, cola: nat, lazo: nat, i: nat)
    requires lazo >= 1
    requires Seguir(f, ini, cola).Sigue? && Seguir(f, ini, cola + lazo) == Seguir(f, ini, cola)
    ensures Seguir(f, ini, i).Sigue?
    decreases i
  {
    if i <= cola + lazo {
      SeguirPrefix(f, ini, i, cola + lazo);
    } else {
      WalkInLoopNeverEnds(f, ini, cola, lazo, i - lazo);
      SameClusterSameFuture(f, ini, cola + lazo, cola, i - lazo - cola);
      assert cola + lazo + (i - lazo - cola) == i && cola + (i - lazo - cola) == i - lazo;
    }
  }

  /** A refusal where the plain walk still has a cluster is always reported as corruption. */
  lemma {:induction false} HaltBeforeEndIsCorruption(f: Fat, ini: Enlace, i: nat)
    requires Caminar(f, ini, i).Alto? && Seguir(f, ini, i).Sigue?
    requires i < 0xffff_ffff
    ensures Caminar(f, ini, i) == Alto(Roto)
    decreases i
  {
    if i > 0 {
      SeguirPrefix(f, ini, i - 1, i);
      if Caminar(f, ini, i - 1).EnMarcha? {
        CursorStateIsFunctionOfIndex(f, ini, i - 1);
      } else {
        HaltBeforeEndIsCorruption(f, ini, i - 1);
      }
    }
  }

  // ----- Chains that end -----

  /** The chain has exactly `n` clusters and then an end mark. */
  predicate Termina(f: Fat, ini: Enlace, n: nat) {
    n >= 1 && Seguir(f, ini, n - 1).Sigue? && Seguir(f, ini, n) == Fin
  }

  /** Two indices on one cluster cannot both come before the stop. */
  lemma FutureEnds(f: Fat, ini: Enlace, n: nat, a: nat, b: nat)
    requires a < b < n && Seguir(f, ini, a) == Seguir(f, ini, b) && Seguir(f, ini, n - 1).Sigue?
    ensures Seguir(f, ini, n).Sigue?
  {
    SameClusterSameFuture(f, ini, a, b, n - b);
    SeguirPrefix(f, ini, a + (n - b), n - 1);
  }

  /** A chain that stops, whether at an end mark or at a broken link, visits distinct clusters. */
  lemma HaltingChainIsDistinct(f: Fat, ini: Enlace, n: nat)
    requires n >= 1 && Seguir(f, ini, n - 1).Sigue? && !Seguir(f, ini, n).Sigue?
    ensures Distintos(f, ini, n)
  {
    forall k: nat | k < n ensures Seguir(f, ini, k).Sigue? {
      SeguirPrefix(f, ini, k, n - 1);
    }
    forall a: nat, b: nat | a < b < n ensures Seguir(f, ini, a) != Seguir(f, ini, b) {
      if Seguir(f, ini, a) == Seguir(f, ini, b) {
        FutureEnds(f, ini, n, a, b);
        assert false;
      }
    }
  }

  /** A chain that ends visits pairwise distinct clusters. */
  lemma EndingChainIsDistinct(f: Fat, ini: Enlace, n: nat)
    requires Termina(f, ini, n)
    ensures Distintos(f, ini, n)
  {
    HaltingChainIsDistinct(f, ini, n);
  }

  /** Every cluster the FAT names is one of the volume's `clusters` clusters, numbered from 2. */
  ghost predicate Acotada(f: Fat, ini: Enlace, clusters: nat) {
    && (ini.Sigue? ==> 2 <= ini.cluster < clusters + 2)
    && forall c :: f(c).Sigue? ==> 2 <= f(c).cluster < clusters + 2
  }

  /** Pigeonhole: a walk over distinct clusters has at most `clusters` of them. */
  lemma DistinctChainFits(f: Fat, ini: Enlace, n: nat, clusters: nat)
    requires Acotada(f, ini, clusters) && Distintos(f, ini, n)
    ensures n <= clusters
  {
    hide Seguir;
    var s: seq<nat> := seq(n, (k: nat) requires k < n => Seguir(f, ini, k).cluster);
    forall k: nat | k < n ensures 2 <= s[k] < clusters + 2 {
      WalkStaysInRange(f, ini, k, clusters);
    }
    forall a: nat, b: nat | a < b < n ensures s[a] != s[b] {
      assert Seguir(f, ini, a) != Seguir(f, ini, b);
    }
    DistinctSequenceFits(s, 2, clusters + 2);
  }

  lemma {:induction false} WalkStaysInRange(f: Fat, ini: Enlace, i: nat, clusters: nat)
    requires Acotada(f, ini, clusters)
    ensures Seguir(f, ini, i).Sigue? ==> 2 <= Seguir(f, ini, i).cluster < clusters + 2
  {
  }

  lemma DistinctSequenceFits(s: seq<nat>, lo: nat, hi: nat)
    requires lo <= hi && forall k :: 0 <= k < |s| ==> lo <= s[k] < hi
    requires forall a, b :: 0 <= a < b < |s| ==> s[a] != s[b]
    ensures |s| <= hi - lo
  {
    DistinctSequenceCount(s);
    var todos := Rango(lo, hi);
    assert todos == Elementos(s) + (todos - Elementos(s));
  }

  ghost function Elementos(s: seq<nat>): set<nat> {
    set x | x in s
  }

  lemma {:induction false} DistinctSequenceCount(s: seq<nat>)
    requires forall a, b :: 0 <= a < b < |s| ==> s[a] != s[b]
    ensures |Elementos(s)| == |s|
  {
    if s != [] {
      var u := |s| - 1;
      DistinctSequenceCount(s[..u]);
      assert Elementos(s) == Elementos(s[..u]) + {s[u]};
    }
  }

  ghost function Rango(a: nat, b: nat): (s: set<nat>)
    requires a <= b
    ensures |s| == b - a
    ensures forall c: nat :: c in s <==> a <= c < b
  {
    if a == b then {} else Rango(a, b - 1) + {b - 1}
  }
}
