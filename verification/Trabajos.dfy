/** Sharing a batch of regions among executors: every interleaving of their atomic steps. */
module Trabajos {
  import opened Bytes

  const MAX_CPU: nat := 4

  /** Where an executor is in a call to take a region. */
  datatype Punto =
    | Fuera
    | Reclama
    | Mira(region: nat)
    | Corre(region: nat)
    | Cuenta(region: nat)

  /** What the check of the cancel flag said about a region. */
  datatype Chequeo = SinMirar | Adelante | Cancelada

  /** The shared batch, the executors, and the history of each region. */
  datatype Lote = Lote(
    total: nat, siguiente: nat, completados: nat, cancelado: bool, activo: bool, ejecutados: seq<nat>,
    puntos: seq<Punto>, reclamos: nat, chequeos: seq<Chequeo>, corridas: seq<nat>, cuentas: seq<nat>)

  datatype Accion = Cancelar | Cerrar | Avanzar(cpu: nat)

  function Ceros(n: nat): (s: seq<nat>)
    ensures |s| == n && forall i :: 0 <= i < n ==> s[i] == 0
  {
    seq(n, i => 0)
  }

  /** A batch as it is published: nothing claimed, nobody inside. */
  function Preparar(n: nat): (l: Lote)
    ensures Bien(l) && l.total == n
  {
    Lote(n, 0, 0, false, true, Ceros(MAX_CPU), seq(MAX_CPU, k => Fuera), 0, seq(n, i => SinMirar), Ceros(n), Ceros(n))
  }

  predicate Bien(l: Lote) {
    |l.puntos| == MAX_CPU && |l.ejecutados| == MAX_CPU
    && |l.chequeos| == l.total && |l.corridas| == l.total && |l.cuentas| == l.total
    && forall k :: 0 <= k < MAX_CPU && Tiene(l.puntos[k]) ==> l.puntos[k].region < l.total
  }

  predicate Tiene(p: Punto) {
    p.Mira? || p.Corre? || p.Cuenta?
  }

  /** One atomic step: a cancellation, the end of the batch, or the next memory operation of an executor. */
  function Dar(l: Lote, a: Accion): (r: Lote)
    requires Bien(l)
    ensures Bien(r) && r.total == l.total
  {
    match a
    case Cancelar => l.(cancelado := true)
    case Cerrar => l.(activo := false)
    case Avanzar(k) =>
      if k >= MAX_CPU then l
      else
        match l.puntos[k]
        case Fuera => if l.activo then l.(puntos := l.puntos[k := Reclama]) else l
        case Reclama =>
          var i := l.siguiente;
          l.(siguiente := (l.siguiente + 1) % DOS32, reclamos := l.reclamos + 1,
             puntos := l.puntos[k := if i >= l.total then Fuera else Mira(i)])
        case Mira(i) =>
          if l.cancelado then l.(puntos := l.puntos[k := Cuenta(i)], chequeos := l.chequeos[i := Cancelada])
          else l.(puntos := l.puntos[k := Corre(i)], chequeos := l.chequeos[i := Adelante])
        case Corre(i) =>
          l.(puntos := l.puntos[k := Cuenta(i)], corridas := l.corridas[i := l.corridas[i] + 1],
             ejecutados := l.ejecutados[k := l.ejecutados[k] + 1])
        case Cuenta(i) =>
          l.(puntos := l.puntos[k := Fuera], completados := l.completados + 1,
             cuentas := l.cuentas[i := l.cuentas[i] + 1])
  }

  function Ejecutar(l: Lote, pasos: seq<Accion>): (r: Lote)
    requires Bien(l)
    ensures Bien(r) && r.total == l.total
  {
    if pasos == [] then l else Dar(Ejecutar(l, pasos[..|pasos| - 1]), pasos[|pasos| - 1])
  }

  function Suma(s: seq<nat>): nat {
    if s == [] then 0 else Suma(s[..|s| - 1]) + s[|s| - 1]
  }

  predicate Terminado(l: Lote) {
    l.completados == l.total
  }

  // ----- The invariant -----

  /** How far region `i` is, when executor `k` holds it. */
  predicate EnMano(l: Lote, k: nat, i: nat)
    requires Bien(l) && k < MAX_CPU && i < l.total
  {
    && l.cuentas[i] == 0
    && match l.puntos[k]
       case Mira(_) => l.corridas[i] == 0 && l.chequeos[i] == SinMirar
       case Corre(_) => l.corridas[i] == 0 && l.chequeos[i] == Adelante
       case Cuenta(_) => l.chequeos[i] != SinMirar && l.corridas[i] == (if l.chequeos[i] == Adelante then 1 else 0)
       case _ => true
  }

  predicate Intacta(l: Lote, i: nat)
    requires Bien(l) && i < l.total
  {
    l.corridas[i] == 0 && l.cuentas[i] == 0 && l.chequeos[i] == SinMirar
  }

  /** A region nobody holds any more: counted once, run exactly when its check said so. */
  predicate Acabada(l: Lote, i: nat)
    requires Bien(l) && i < l.total
  {
    l.cuentas[i] == 1 && l.chequeos[i] != SinMirar && l.corridas[i] == (if l.chequeos[i] == Adelante then 1 else 0)
  }

  predicate LaTiene(l: Lote, k: nat, i: nat)
    requires Bien(l) && k < MAX_CPU
  {
    Tiene(l.puntos[k]) && l.puntos[k].region == i
  }

  predicate Libre(l: Lote, i: nat)
    requires Bien(l)
  {
    forall k: nat :: k < MAX_CPU ==> !LaTiene(l, k, i)
  }

  ghost predicate Reglas(l: Lote)
    requires Bien(l)
  {
    && (forall i: nat :: i < l.total && i >= l.reclamos ==> Intacta(l, i) && Libre(l, i))
    && (forall k: nat, i: nat :: k < MAX_CPU && i < l.total && LaTiene(l, k, i) ==> i < l.reclamos && EnMano(l, k, i))
    && (forall i: nat :: i < l.total && i < l.reclamos && Libre(l, i) ==> Acabada(l, i))
    && (forall j: nat, k: nat, i: nat ::
          j < MAX_CPU && k < MAX_CPU && LaTiene(l, j, i) && LaTiene(l, k, i) ==> j == k)
  }

  ghost predicate Sumas(l: Lote)
    requires Bien(l)
  {
    l.completados == Suma(l.cuentas) && Suma(l.ejecutados) == Suma(l.corridas)
  }

  /** A region skipped means that the batch was cancelled. */
  predicate Canceladas(l: Lote)
    requires Bien(l)
  {
    forall i :: 0 <= i < l.total && l.chequeos[i] == Cancelada ==> l.cancelado
  }

  ghost predicate Inv(l: Lote)
    requires Bien(l)
  {
    (l.reclamos < DOS32 ==> l.siguiente == l.reclamos) && Reglas(l) && Sumas(l) && Canceladas(l)
  }

  lemma {:induction false} SumUpdate(s: seq<nat>, i: nat, v: nat)
    requires i < |s|
    ensures Suma(s[i := v]) == Suma(s) - s[i] + v
  {
    var n := |s| - 1;
    if i == n {
      assert s[i := v][..n] == s[..n];
    } else {
      assert s[i := v][..n] == s[..n][i := v];
      SumUpdate(s[..n], i, v);
    }
  }

  lemma StepKeepsSums(l: Lote, a: Accion)
    requires Bien(l) && Sumas(l)
    ensures Sumas(Dar(l, a))
  {
    hide Suma;
    if a.Avanzar? && a.cpu < MAX_CPU {
      var p := l.puntos[a.cpu];
      if p.Corre? {
        SumUpdate(l.corridas, p.region, l.corridas[p.region] + 1);
        SumUpdate(l.ejecutados, a.cpu, l.ejecutados[a.cpu] + 1);
      } else if p.Cuenta? {
        SumUpdate(l.cuentas, p.region, l.cuentas[p.region] + 1);
      }
    }
  }

  /** Regions other than `i` are where they were when only executor `k` moved, and only within `i`. */
  lemma OthersStay(l: Lote, r: Lote, k: nat, i: nat)
    requires Bien(l) && Bien(r) && l.total == r.total && k < MAX_CPU && l.reclamos == r.reclamos && Reglas(l)
    requires LaTiene(l, k, i) && i < l.total
    requires forall j :: 0 <= j < MAX_CPU && j != k ==> r.puntos[j] == l.puntos[j]
    requires forall j :: 0 <= j < l.total && j != i ==>
               r.cuentas[j] == l.cuentas[j] && r.corridas[j] == l.corridas[j] && r.chequeos[j] == l.chequeos[j]
    requires (LaTiene(r, k, i) && EnMano(r, k, i)) || (!Tiene(r.puntos[k]) && Acabada(r, i))
    ensures Reglas(r)
  {
    assert i < l.reclamos;
    forall j: nat | j < l.total ensures j >= r.reclamos ==> Intacta(r, j) && Libre(r, j) {
      if j >= l.reclamos {
        assert Intacta(l, j) && Libre(l, j);
        forall m: nat | m < MAX_CPU ensures !LaTiene(r, m, j) {
          assert !LaTiene(l, m, j);
        }
      }
    }
    forall m: nat, j: nat | m < MAX_CPU && j < l.total && LaTiene(r, m, j) ensures j < r.reclamos && EnMano(r, m, j) {
      if m != k {
        assert LaTiene(l, m, j) && EnMano(l, m, j);
        OneHolder(l, m, k, i);
      }
    }
    forall j: nat | j < l.total && j < r.reclamos && Libre(r, j) ensures Acabada(r, j) {
      if j != i {
        forall m: nat | m < MAX_CPU ensures !LaTiene(l, m, j) {
          assert !LaTiene(r, m, j);
        }
        assert Libre(l, j);
      } else {
        assert !LaTiene(r, k, i);
      }
    }
    forall m: nat, n: nat, j: nat | m < MAX_CPU && n < MAX_CPU && LaTiene(r, m, j) && LaTiene(r, n, j) ensures m == n {
      HeldBefore(l, r, k, i, m, j);
      HeldBefore(l, r, k, i, n, j);
    }
  }

  lemma HeldBefore(l: Lote, r: Lote, k: nat, i: nat, m: nat, j: nat)
    requires Bien(l) && Bien(r) && k < MAX_CPU && m < MAX_CPU && LaTiene(l, k, i) && LaTiene(r, m, j)
    requires LaTiene(r, k, i) || !Tiene(r.puntos[k])
    requires m != k ==> r.puntos[m] == l.puntos[m]
    ensures LaTiene(l, m, j)
  {
  }

  lemma OneHolder(l: Lote, m: nat, k: nat, i: nat)
    requires Bien(l) && Reglas(l) && m < MAX_CPU && k < MAX_CPU && m != k && LaTiene(l, k, i)
    ensures !LaTiene(l, m, i)
  {
  }

  lemma HolderKeepsRules(l: Lote, k: nat)
    requires Bien(l) && Reglas(l) && k < MAX_CPU && Tiene(l.puntos[k])
    ensures Reglas(Dar(l, Avanzar(k)))
  {
    var r, i := Dar(l, Avanzar(k)), l.puntos[k].region;
    assert LaTiene(l, k, i) && EnMano(l, k, i);
    OthersStay(l, r, k, i);
  }

  /** When every region is held by whom it was, and nothing else about regions changes, the rules stand. */
  lemma SameHolders(l: Lote, r: Lote)
    requires Bien(l) && Reglas(l) && Bien(r) && r.total == l.total
    requires l.reclamos <= r.reclamos && (r.reclamos > l.reclamos ==> l.reclamos >= l.total)
    requires forall j: nat :: j < MAX_CPU && (Tiene(l.puntos[j]) || Tiene(r.puntos[j])) ==> r.puntos[j] == l.puntos[j]
    requires r.cuentas == l.cuentas && r.corridas == l.corridas && r.chequeos == l.chequeos
    ensures Reglas(r)
  {
    forall m: nat, j: nat | m < MAX_CPU ensures LaTiene(r, m, j) <==> LaTiene(l, m, j) {
    }
    forall j: nat | j < l.total ensures j >= r.reclamos ==> Intacta(r, j) && Libre(r, j) {
      if j >= r.reclamos {
        assert Intacta(l, j) && Libre(l, j);
        forall m: nat | m < MAX_CPU ensures !LaTiene(r, m, j) {
          assert !LaTiene(l, m, j);
        }
      }
    }
    forall m: nat, j: nat | m < MAX_CPU && j < l.total && LaTiene(r, m, j) ensures j < r.reclamos && EnMano(r, m, j) {
      assert LaTiene(l, m, j) && EnMano(l, m, j);
    }
    forall j: nat | j < l.total && j < r.reclamos && Libre(r, j) ensures Acabada(r, j) {
      forall m: nat | m < MAX_CPU ensures !LaTiene(l, m, j) {
        assert !LaTiene(r, m, j);
      }
      assert Libre(l, j);
    }
  }

  lemma ClaimKeepsRules(l: Lote, k: nat)
    requires Bien(l) && Reglas(l) && k < MAX_CPU && l.puntos[k].Reclama? && l.siguiente == l.reclamos < l.total
    ensures Reglas(Dar(l, Avanzar(k)))
  {
    var r, i := Dar(l, Avanzar(k)), l.siguiente;
    assert Intacta(l, i) && Libre(l, i);
    forall j: nat | j < l.total ensures j >= r.reclamos ==> Intacta(r, j) && Libre(r, j) {
      if j >= r.reclamos {
        assert Intacta(l, j) && Libre(l, j);
        forall m: nat | m < MAX_CPU ensures !LaTiene(r, m, j) {
          assert !LaTiene(l, m, j);
        }
      }
    }
    forall m: nat, j: nat | m < MAX_CPU && j < l.total && LaTiene(r, m, j) ensures j < r.reclamos && EnMano(r, m, j) {
      if m != k {
        assert LaTiene(l, m, j) && EnMano(l, m, j);
      }
    }
    forall j: nat | j < l.total && j < r.reclamos && Libre(r, j) ensures Acabada(r, j) {
      assert j != i by {
        assert LaTiene(r, k, i);
      }
      forall m: nat | m < MAX_CPU ensures !LaTiene(l, m, j) {
        assert !LaTiene(r, m, j);
      }
      assert Libre(l, j);
    }
    forall m: nat, n: nat, j: nat | m < MAX_CPU && n < MAX_CPU && LaTiene(r, m, j) && LaTiene(r, n, j) ensures m == n {
      assert m != k ==> LaTiene(l, m, j) && j != i;
      assert n != k ==> LaTiene(l, n, j) && j != i;
    }
  }

  lemma StepKeepsRules(l: Lote, a: Accion)
    requires Bien(l) && Reglas(l) && (EsReclamo(l, a) ==> l.siguiente == l.reclamos)
    ensures Reglas(Dar(l, a))
  {
    hide Reglas, Dar;
    if a.Avanzar? && a.cpu < MAX_CPU {
      var k, r := a.cpu, Dar(l, a);
      var p := l.puntos[k];
      if Tiene(p) {
        HolderKeepsRules(l, k);
      } else if p.Reclama? && l.siguiente < l.total {
        ClaimKeepsRules(l, k);
      } else {
        IdleStep(l, k);
        SameHolders(l, r);
      }
    } else {
      ControlStep(l, a);
    }
  }

  /** A step that claims a region, or finds that none is left. */
  predicate EsReclamo(l: Lote, a: Accion)
    requires Bien(l)
  {
    a.Avanzar? && a.cpu < MAX_CPU && l.puntos[a.cpu].Reclama?
  }

  lemma IdleStep(l: Lote, k: nat)
    requires Bien(l) && k < MAX_CPU && !Tiene(l.puntos[k]) && (l.puntos[k].Reclama? ==> l.siguiente >= l.total)
    ensures var r := Dar(l, Avanzar(k));
            && !Tiene(r.puntos[k]) && (forall j :: 0 <= j < MAX_CPU && j != k ==> r.puntos[j] == l.puntos[j])
            && r.cuentas == l.cuentas && r.corridas == l.corridas && r.chequeos == l.chequeos
            && (r.reclamos == l.reclamos || (l.puntos[k].Reclama? && r.reclamos == l.reclamos + 1))
  {
  }

  lemma ControlStep(l: Lote, a: Accion)
    requires Bien(l) && Reglas(l) && (a.Avanzar? ==> a.cpu >= MAX_CPU)
    ensures Reglas(Dar(l, a))
  {
    hide Reglas;
    SameHolders(l, Dar(l, a));
  }

  lemma StepKeepsCancelled(l: Lote, a: Accion)
    requires Bien(l) && Canceladas(l)
    ensures Canceladas(Dar(l, a))
  {
  }

  lemma StepKeepsInvariant(l: Lote, a: Accion)
    requires Bien(l) && Inv(l) && Dar(l, a).reclamos <= DOS32
    ensures Inv(Dar(l, a)) && l.reclamos <= Dar(l, a).reclamos
  {
    ClaimsNeverFall(l, a);
    hide Reglas, Sumas, Canceladas;
    StepKeepsRules(l, a);
    StepKeepsSums(l, a);
    StepKeepsCancelled(l, a);
  }

  lemma ClaimsNeverFall(l: Lote, a: Accion)
    requires Bien(l)
    ensures Dar(l, a).reclamos == l.reclamos + (if EsReclamo(l, a) then 1 else 0)
  {
  }

  lemma StartsWell(n: nat)
    ensures Bien(Preparar(n)) && Inv(Preparar(n))
  {
    var l := Preparar(n);
    ZerosSum(n);
    ZerosSum(MAX_CPU);
    forall k: nat, i: nat | k < MAX_CPU ensures !LaTiene(l, k, i) {
    }
  }

  lemma {:induction false} ZerosSum(n: nat)
    ensures Suma(Ceros(n)) == 0
  {
    if n > 0 {
      assert Ceros(n)[..n - 1] == Ceros(n - 1);
      ZerosSum(n - 1);
    }
  }

  /** Every state of every run of a batch keeps the invariant, while the claims fit the counter. */
  lemma {:induction false} RunKeepsInvariant(n: nat, pasos: seq<Accion>)
    requires Ejecutar(Preparar(n), pasos).reclamos <= DOS32
    ensures Inv(Ejecutar(Preparar(n), pasos))
  {
    hide Inv, Dar, Preparar;
    if pasos == [] {
      StartsWell(n);
    } else {
      var antes, a := pasos[..|pasos| - 1], pasos[|pasos| - 1];
      var l := Ejecutar(Preparar(n), antes);
      ClaimsNeverFall(l, a);
      RunKeepsInvariant(n, antes);
      StepKeepsInvariant(l, a);
    }
  }

  // ----- What a batch guarantees -----

  predicate Quieto(l: Lote)
    requires Bien(l)
  {
    forall k :: 0 <= k < MAX_CPU ==> !Tiene(l.puntos[k])
  }

  lemma OnceAtMost(l: Lote, i: nat)
    requires Bien(l) && Reglas(l) && i < l.total
    ensures l.corridas[i] <= 1 && l.cuentas[i] <= 1
    ensures l.cuentas[i] == 1 ==> Acabada(l, i) && Libre(l, i)
    ensures Libre(l, i) ==> Acabada(l, i) || Intacta(l, i)
  {
    if i >= l.reclamos {
      assert Intacta(l, i);
    } else if Libre(l, i) {
      assert Acabada(l, i);
    } else {
      var k: nat :| k < MAX_CPU && LaTiene(l, k, i);
      assert EnMano(l, k, i);
    }
  }

  /** No region is run twice, nor counted twice, however the executors interleave. */
  lemma NoRegionTwice(n: nat, pasos: seq<Accion>, i: nat)
    requires i < n && Ejecutar(Preparar(n), pasos).reclamos <= DOS32
    ensures Ejecutar(Preparar(n), pasos).corridas[i] <= 1 && Ejecutar(Preparar(n), pasos).cuentas[i] <= 1
  {
    hide Ejecutar, Reglas;
    RunKeepsInvariant(n, pasos);
    OnceAtMost(Ejecutar(Preparar(n), pasos), i);
  }

  lemma {:induction false} SumOfOnes(s: seq<nat>, m: nat)
    requires m == |s| && forall i :: 0 <= i < |s| ==> s[i] <= 1
    ensures Suma(s) <= m && (Suma(s) == m <==> forall i :: 0 <= i < |s| ==> s[i] == 1)
  {
    if m > 0 {
      SumOfOnes(s[..m - 1], m - 1);
      assert forall i :: 0 <= i < m - 1 ==> s[..m - 1][i] == s[i];
    }
  }

  /** The batch is finished exactly when every region has been claimed and counted once, and then no
      executor holds any. A region was run exactly when its check came before the cancellation; if the
      batch was not cancelled, all were. */
  lemma FinishedMeansEveryRegion(n: nat, pasos: seq<Accion>)
    requires Ejecutar(Preparar(n), pasos).reclamos <= DOS32
    ensures var l := Ejecutar(Preparar(n), pasos);
            && l.completados <= n
            && (Terminado(l) <==> forall i :: 0 <= i < n ==> l.cuentas[i] == 1)
            && (Terminado(l) ==> Quieto(l) && n <= l.reclamos)
            && (Terminado(l) ==> forall i :: 0 <= i < n ==> (l.corridas[i] == 1 <==> l.chequeos[i] == Adelante))
            && (Terminado(l) && !l.cancelado ==> forall i :: 0 <= i < n ==> l.corridas[i] == 1)
  {
    hide Ejecutar, Reglas, Suma;
    var l := Ejecutar(Preparar(n), pasos);
    RunKeepsInvariant(n, pasos);
    forall i: nat | i < n ensures l.corridas[i] <= 1 && l.cuentas[i] <= 1 && (l.cuentas[i] == 1 ==> Acabada(l, i) && Libre(l, i)) {
      OnceAtMost(l, i);
    }
    SumOfOnes(l.cuentas, n);
    if Terminado(l) {
      forall k | 0 <= k < MAX_CPU ensures !Tiene(l.puntos[k]) {
        if Tiene(l.puntos[k]) {
          NotLeftHolding(l, k);
        }
      }
      if n > 0 {
        UnclaimedIsUncounted(l, n - 1);
      }
    }
  }

  lemma NotLeftHolding(l: Lote, k: nat)
    requires Bien(l) && k < MAX_CPU && Tiene(l.puntos[k])
    ensures !Libre(l, l.puntos[k].region)
  {
    assert LaTiene(l, k, l.puntos[k].region);
  }

  lemma UnclaimedIsUncounted(l: Lote, i: nat)
    requires Bien(l) && Reglas(l) && i < l.total
    ensures i >= l.reclamos ==> l.cuentas[i] == 0
  {
    if i >= l.reclamos {
      assert Intacta(l, i);
    }
  }

  function Saltadas(c: seq<Chequeo>): nat {
    if c == [] then 0 else Saltadas(c[..|c| - 1]) + (if c[|c| - 1] == Cancelada then 1 else 0)
  }

  lemma {:induction false} RunOrSkipped(corridas: seq<nat>, cuentas: seq<nat>, c: seq<Chequeo>, m: nat)
    requires |corridas| == |cuentas| == |c| == m
    requires forall i :: 0 <= i < m ==> corridas[i] == (if c[i] == Adelante then 1 else 0)
                                        && cuentas[i] == (if c[i] == SinMirar then 0 else 1)
    ensures Suma(corridas) + Saltadas(c) == Suma(cuentas)
  {
    if m > 0 {
      RunOrSkipped(corridas[..m - 1], cuentas[..m - 1], c[..m - 1], m - 1);
    }
  }

  /** When no step is in flight, the regions executed and those skipped are the regions counted. */
  lemma ExecutedPlusSkipped(n: nat, pasos: seq<Accion>)
    requires Ejecutar(Preparar(n), pasos).reclamos <= DOS32 && Quieto(Ejecutar(Preparar(n), pasos))
    ensures var l := Ejecutar(Preparar(n), pasos);
            Suma(l.ejecutados) + Saltadas(l.chequeos) == l.completados <= l.total
  {
    hide Ejecutar, Reglas, Suma, Saltadas;
    var l := Ejecutar(Preparar(n), pasos);
    RunKeepsInvariant(n, pasos);
    FinishedMeansEveryRegion(n, pasos);
    forall i: nat | i < n
      ensures l.corridas[i] == (if l.chequeos[i] == Adelante then 1 else 0)
              && l.cuentas[i] == (if l.chequeos[i] == SinMirar then 0 else 1)
    {
      OnceAtMost(l, i);
    }
    RunOrSkipped(l.corridas, l.cuentas, l.chequeos, n);
  }

  // ----- Past the counter -----

  /** One executor alone takes a region, or finds that none is left. */
  function Toma(l: Lote): (r: Lote)
    requires Bien(l)
    ensures Bien(r) && r.total == l.total
  {
    var m := Dar(Dar(l, Avanzar(0)), Avanzar(0));
    if m.puntos[0].Fuera? then m else Dar(Dar(Dar(m, Avanzar(0)), Avanzar(0)), Avanzar(0))
  }

  function PasosDeToma(l: Lote): seq<Accion>
    requires Bien(l)
  {
    var a := Avanzar(0);
    if Dar(Dar(l, a), a).puntos[0].Fuera? then [a, a] else [a, a, a, a, a]
  }

  /** The schedule of `m` such calls, one after another, on a fresh batch of `n` regions. */
  function Tomas(n: nat, m: nat): seq<Accion> {
    if m == 0 then [] else Tomas(n, m - 1) + PasosDeToma(Ejecutar(Preparar(n), Tomas(n, m - 1)))
  }

  lemma OneMoreAction(l: Lote, pasos: seq<Accion>, a: Accion)
    requires Bien(l)
    ensures Ejecutar(l, pasos + [a]) == Dar(Ejecutar(l, pasos), a)
  {
    assert (pasos + [a])[..|pasos|] == pasos;
  }

  lemma ScheduleTakes(l: Lote, pasos: seq<Accion>)
    requires Bien(l)
    ensures Ejecutar(l, pasos + PasosDeToma(Ejecutar(l, pasos))) == Toma(Ejecutar(l, pasos))
  {
    hide Dar, Ejecutar;
    var a := Avanzar(0);
    var dos := pasos + [a] + [a];
    OneMoreAction(l, pasos, a);
    OneMoreAction(l, pasos + [a], a);
    if Ejecutar(l, dos).puntos[0].Fuera? {
      assert pasos + [a, a] == dos;
    } else {
      OneMoreAction(l, dos, a);
      OneMoreAction(l, dos + [a], a);
      OneMoreAction(l, dos + [a] + [a], a);
      assert pasos + [a, a, a, a, a] == dos + [a] + [a] + [a];
    }
  }

  /** A batch open and uncancelled, with nobody inside, after `m` claims. */
  predicate EnCalma(l: Lote, m: nat)
    requires Bien(l)
  {
    l.activo && !l.cancelado && l.reclamos == m && l.siguiente == m % DOS32 && l.puntos[0].Fuera?
  }

  lemma TakeRuns(l: Lote, m: nat)
    requires Bien(l) && EnCalma(l, m)
    ensures EnCalma(Toma(l), m + 1)
    ensures Toma(l).corridas ==
            if m % DOS32 < l.total then l.corridas[m % DOS32 := l.corridas[m % DOS32] + 1] else l.corridas
  {
    hide Ejecutar;
    NextCount(m);
  }

  lemma NextCount(m: nat)
    ensures (m % DOS32 + 1) % DOS32 == (m + 1) % DOS32
  {
  }

  /** How often region 0 has been handed out after `m` claims: every time the counter was at 0. */
  function Vueltas(m: nat): nat {
    if m == 0 then 0 else Vueltas(m - 1) + (if (m - 1) % DOS32 == 0 then 1 else 0)
  }

  lemma {:induction false} TurnsGrow(m: nat)
    ensures m > 0 ==> Vueltas(m) >= 1
    ensures m > DOS32 ==> Vueltas(m) >= 2
    ensures m == DOS32 + 1 ==> Vueltas(m) == Vueltas(m - 1) + 1
  {
    if m > 0 {
      TurnsGrow(m - 1);
    }
  }

  lemma {:induction false} OneTurn(m: nat)
    requires 0 < m <= DOS32
    ensures Vueltas(m) == 1
    decreases m
  {
    if m > 1 {
      OneTurn(m - 1);
    }
  }

  lemma NothingTaken(n: nat)
    requires n > 0
    ensures EnCalma(Ejecutar(Preparar(n), Tomas(n, 0)), 0)
    ensures Ejecutar(Preparar(n), Tomas(n, 0)).corridas[0] == 0
  {
  }

  lemma {:induction false} TakesRun(n: nat, m: nat)
    requires n > 0
    ensures EnCalma(Ejecutar(Preparar(n), Tomas(n, m)), m)
    ensures Ejecutar(Preparar(n), Tomas(n, m)).corridas[0] == Vueltas(m)
  {
    hide Ejecutar, Toma, PasosDeToma, EnCalma, Preparar;
    if m == 0 {
      NothingTaken(n);
    } else {
      TakesRun(n, m - 1);
      var l := Ejecutar(Preparar(n), Tomas(n, m - 1));
      ScheduleTakes(Preparar(n), Tomas(n, m - 1));
      TakeRuns(l, m - 1);
    }
  }

  /** From a fresh batch, one executor that keeps asking runs region 0 a second time on the call after
      the counter has come round. */
  lemma WrappedCounterRepeats(n: nat)
    requires n > 0
    ensures Ejecutar(Preparar(n), Tomas(n, DOS32 + 1)).reclamos == DOS32 + 1
    ensures Ejecutar(Preparar(n), Tomas(n, DOS32 + 1)).corridas[0] == 2
  {
    hide Ejecutar, Tomas, Preparar, Vueltas;
    TakesRun(n, DOS32 + 1);
    OneTurn(DOS32);
    TurnsGrow(DOS32 + 1);
  }

  ghost predicate Repite(n: nat, m: nat) {
    exists pasos: seq<Accion>, i: nat :: i < n && Ejecutar(Preparar(n), pasos).reclamos == m && Ejecutar(Preparar(n), pasos).corridas[i] >= 2
  }

  /** Some run with `m` claims runs a region twice if and only if `m` is past 2^32. */
  lemma RepeatsIff(n: nat, m: nat)
    requires n > 0
    ensures Repite(n, m) <==> m > DOS32
  {
    hide Ejecutar, Tomas, Preparar, Vueltas;
    if m > DOS32 {
      TakesRun(n, m);
      TurnsGrow(m);
      assert Ejecutar(Preparar(n), Tomas(n, m)).corridas[0] >= 2;
    }
    if Repite(n, m) && m <= DOS32 {
      var pasos: seq<Accion>, i: nat :| i < n && Ejecutar(Preparar(n), pasos).reclamos == m && Ejecutar(Preparar(n), pasos).corridas[i] >= 2;
      NoRegionTwice(n, pasos, i);
    }
  }

  // ----- What cancelling and closing do -----

  /** The flags tell whether a cancellation, and the end of the batch, are among the steps so far. */
  lemma {:induction false} FlagsTellHistory(n: nat, pasos: seq<Accion>)
    ensures Ejecutar(Preparar(n), pasos).cancelado <==> Cancelar in pasos
    ensures Ejecutar(Preparar(n), pasos).activo <==> Cerrar !in pasos
  {
    if pasos != [] {
      var u := |pasos| - 1;
      FlagsTellHistory(n, pasos[..u]);
      assert pasos == pasos[..u] + [pasos[u]];
      OneStepFlags(Ejecutar(Preparar(n), pasos[..u]), pasos[u]);
    }
  }

  lemma OneStepFlags(l: Lote, a: Accion)
    requires Bien(l)
    ensures Dar(l, a).cancelado <==> l.cancelado || a == Cancelar
    ensures Dar(l, a).activo <==> l.activo && a != Cerrar
  {
  }

  lemma RunSplits(l: Lote, pasos: seq<Accion>, a: Accion)
    requires Bien(l)
    ensures Ejecutar(l, pasos + [a]) == Dar(Ejecutar(l, pasos), a)
  {
    hide Dar;
    assert (pasos + [a])[..|pasos|] == pasos;
  }

  /** The check of a region lets it run exactly when nobody has cancelled before the check. */
  lemma CheckTellsWhetherCancelled(n: nat, pasos: seq<Accion>, k: nat)
    requires k < MAX_CPU && Ejecutar(Preparar(n), pasos).puntos[k].Mira?
    ensures var i := Ejecutar(Preparar(n), pasos).puntos[k].region;
            var r := Ejecutar(Preparar(n), pasos + [Avanzar(k)]);
            && r.chequeos[i] == (if Cancelar in pasos then Cancelada else Adelante)
            && r.puntos[k] == if Cancelar in pasos then Cuenta(i) else Corre(i)
  {
    FlagsTellHistory(n, pasos);
    RunSplits(Preparar(n), pasos, Avanzar(k));
  }

  /** After a cancellation no further region is let through, whatever the executors do. */
  lemma {:induction false} NothingStartsAfterCancel(n: nat, pasos: seq<Accion>, mas: seq<Accion>, i: nat)
    requires Cancelar in pasos && i < n
    ensures Ejecutar(Preparar(n), pasos + mas).chequeos[i] == Adelante ==>
              Ejecutar(Preparar(n), pasos).chequeos[i] == Adelante
  {
    hide Dar, Bien;
    if mas == [] {
      assert pasos + mas == pasos;
    } else {
      var u := |mas| - 1;
      NothingStartsAfterCancel(n, pasos, mas[..u], i);
      assert pasos + mas == (pasos + mas[..u]) + [mas[u]];
      RunSplits(Preparar(n), pasos + mas[..u], mas[u]);
      FlagsTellHistory(n, pasos + mas[..u]);
      CancelledStep(Ejecutar(Preparar(n), pasos + mas[..u]), mas[u], i);
    }
  }

  lemma CancelledStep(l: Lote, a: Accion, i: nat)
    requires Bien(l) && l.cancelado && i < l.total
    ensures Dar(l, a).chequeos[i] == Adelante ==> l.chequeos[i] == Adelante
  {
  }

  /** An executor enters exactly while the batch has not been closed. */
  lemma EntersWhileOpen(n: nat, pasos: seq<Accion>, k: nat)
    requires k < MAX_CPU && Ejecutar(Preparar(n), pasos).puntos[k].Fuera?
    ensures Ejecutar(Preparar(n), pasos + [Avanzar(k)]).puntos[k] == if Cerrar in pasos then Fuera else Reclama
  {
    FlagsTellHistory(n, pasos);
    RunSplits(Preparar(n), pasos, Avanzar(k));
  }

  /** Once the batch is closed, an executor that is outside stays outside. */
  lemma {:induction false} NobodyEntersAfterClose(n: nat, pasos: seq<Accion>, mas: seq<Accion>, k: nat)
    requires Cerrar in pasos && k < MAX_CPU && Ejecutar(Preparar(n), pasos).puntos[k] == Fuera
    ensures Ejecutar(Preparar(n), pasos + mas).puntos[k] == Fuera
  {
    hide Dar;
    if mas == [] {
      assert pasos + mas == pasos;
    } else {
      var u := |mas| - 1;
      NobodyEntersAfterClose(n, pasos, mas[..u], k);
      assert pasos + mas == (pasos + mas[..u]) + [mas[u]];
      RunSplits(Preparar(n), pasos + mas[..u], mas[u]);
      FlagsTellHistory(n, pasos + mas[..u]);
      ClosedStep(Ejecutar(Preparar(n), pasos + mas[..u]), mas[u], k);
    }
  }

  lemma ClosedStep(l: Lote, a: Accion, k: nat)
    requires Bien(l) && !l.activo && k < MAX_CPU && l.puntos[k] == Fuera
    ensures Dar(l, a).puntos[k] == Fuera
  {
  }
}
