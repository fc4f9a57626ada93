/** The installer's device layer as it runs: cache fields updated in place, transfer loops, and the
    undo list. Each method computes the function of the same purpose in `Deshacer`. */
module Instalador {
  import opened Bytes
  import opened Deshacer

  class Dispositivo {
    const bs: nat                 // block size
    var disco: seq<byte>          // the file
    var cache: seq<byte>
    var sucia: bool               // cache state is dirty
    var bloque: int               // cached block, -1 for none
    var averias: seq<Averia>      // outcomes of the transfers to come
    var log: seq<Entrada>         // the undo list up to its index
    var desinstalando: bool

    function D(): Disp
      reads this
    {
      Disp(disco, cache, sucia, bloque, averias)
    }

    ghost predicate Estable()
      reads this
    {
      Deshacer.Estable(D(), bs)
    }

    /** Opening the device reads block 0 into a clean cache. */
    constructor (contenido: seq<byte>, tamBloque: nat, suerte: seq<Averia>)
      requires tamBloque > 0 && tamBloque <= |contenido|
      ensures Valido(D(), bs) && !sucia && disco == contenido && bs == tamBloque
      ensures averias == suerte && log == [] && !desinstalando
    {
      bs, disco, cache, sucia, bloque := tamBloque, contenido, contenido[..tamBloque], false, 0;
      averias, log, desinstalando := suerte, [], false;
    }

    method Transferir() returns (a: Averia)
      modifies `averias
      ensures a == old(D()).Proxima() && D() == old(D()).Consumir()
    {
      if averias == [] {
        return Bien;
      }
      a := averias[0];
      averias := averias[1..];
    }

    method VaciarCache() returns (ok: bool)
      requires Estable()
      modifies `disco, `sucia, `averias
      ensures Estable() && Res(ok, D()) == Vaciar(old(D()), bs)
    {
      if !sucia {
        return true;
      }
      var a := Transferir();
      match a
      case Bien =>
        disco := Sobre(disco, Base(bloque, bs), cache);
        sucia := false;
        return true;
      case Falla(prefijo, _) =>
        disco := Sobre(disco, Base(bloque, bs), cache[..Min(prefijo, bs)]);
        return false;
    }

    method Cargar(b: nat) returns (ok: bool)
      requires Estable()
      modifies `disco, `cache, `sucia, `bloque, `averias
      ensures Estable() && Res(ok, D()) == CargarBloque(old(D()), bs, b)
    {
      if bloque == b {
        return true;
      }
      if sucia {
        ok := VaciarCache();
        if !ok {
          return;
        }
      }
      var a := Transferir();
      if Base(b, bs) + bs > |disco| || a.Falla? {
        var basura := if a.Falla? then a.basura else [];
        var k := Min(|basura|, bs);
        cache := basura[..k] + cache[k..];
        return false;
      }
      cache := disco[Base(b, bs)..Base(b, bs) + bs];
      bloque := b;
      return true;
    }

    method LeerDispositivo(loc: nat, cant: nat) returns (ok: bool, datos: seq<byte>)
      requires Estable()
      modifies `disco, `cache, `sucia, `bloque, `averias
      ensures Estable() && Lectura(ok, D(), datos) == Leer(old(D()), bs, loc, cant)
    {
      hide Vista, Base, CargarBloque, Cociente, Resto, Trozo, Leer;
      datos := [];
      var hecho := 0;
      while hecho < cant
        invariant Estable() && hecho <= cant
        invariant var resto := Leer(D(), bs, loc + hecho, cant - hecho);
                  Leer(old(D()), bs, loc, cant) == Lectura(resto.ok, resto.d, datos + resto.datos)
      {
        ReadStep(D(), bs, loc + hecho, cant - hecho);
        ok := Cargar(Cociente(loc + hecho, bs));
        if !ok {
          assert datos + [] == datos;
          return;
        }
        var k := Trozo(loc + hecho, bs, cant - hecho);
        var dentro := Resto(loc + hecho, bs);
        ghost var resto := Leer(D(), bs, loc + hecho + k, cant - hecho - k);
        assert datos + (cache[dentro..dentro + k] + resto.datos) == datos + cache[dentro..dentro + k] + resto.datos;
        datos := datos + cache[dentro..dentro + k];
        hecho := hecho + k;
      }
      ReadStep(D(), bs, loc + hecho, 0);
      assert datos + [] == datos;
      return true, datos;
    }

    /** Saves the old contents, copies into the cache block by block, then counts the entry. While
        uninstalling nothing is saved and the list is not bounded. */
    method EscribirDispositivo(loc: nat, datos: seq<byte>) returns (ok: bool)
      requires Estable()
      modifies `disco, `cache, `sucia, `bloque, `averias, `log
      ensures Estable()
      ensures !desinstalando ==> Escritura(ok, D(), log) == Escribir(old(D()), bs, old(log), loc, datos)
      ensures desinstalando ==> Res(ok, D()) == Deshacer.Copiar(old(D()), bs, loc, datos) && log == old(log)
    {
      hide Vista, Base, CargarBloque, Cociente, Resto, Trozo, Leer, Deshacer.Copiar;
      var previa: seq<byte> := [];
      if !desinstalando {
        if |log| >= UNINSTALL_DATA_MAX {
          return false;
        }
        ok, previa := LeerDispositivo(loc, |datos|);
        if !ok {
          return;
        }
      }
      ok := CopiarACache(loc, datos);
      if ok && !desinstalando {
        log := log + [Entrada(loc, previa)];
      }
    }

    method CopiarACache(loc: nat, datos: seq<byte>) returns (ok: bool)
      requires Estable()
      modifies `disco, `cache, `sucia, `bloque, `averias
      ensures Estable() && Res(ok, D()) == Deshacer.Copiar(old(D()), bs, loc, datos)
    {
      hide Vista, Base, CargarBloque, Cociente, Resto, Trozo, Deshacer.Copiar;
      var hecho := 0;
      while hecho < |datos|
        invariant Estable() && hecho <= |datos|
        invariant Deshacer.Copiar(old(D()), bs, loc, datos) == Deshacer.Copiar(D(), bs, loc + hecho, datos[hecho..])
      {
        WriteStep(D(), bs, loc + hecho, datos[hecho..]);
        LoadedIsLabelled(D(), bs, Cociente(loc + hecho, bs));
        ok := Cargar(Cociente(loc + hecho, bs));
        if !ok {
          return;
        }
        var k := Trozo(loc + hecho, bs, |datos| - hecho);
        var dentro := Resto(loc + hecho, bs);
        assert datos[hecho..][..k] == datos[hecho..hecho + k] && datos[hecho..][k..] == datos[hecho + k..];
        cache := Sobre(cache, dentro, datos[hecho..hecho + k]);
        sucia := true;
        hecho := hecho + k;
      }
      assert datos[hecho..] == [];
      WriteStep(D(), bs, loc + hecho, []);
      return true;
    }

    /** The undo list turned round, element by element. */
    method InvertirLog()
      modifies `log
      ensures log == Invertir(old(log))
    {
      var rev := log;
      var i := 0;
      while i < |log|
        invariant i <= |log| && |rev| == |log|
        invariant forall k :: 0 <= k < i ==> rev[|log| - 1 - k] == log[k]
      {
        rev := rev[|log| - 1 - i := log[i]];
        i := i + 1;
      }
      assert forall k :: 0 <= k < |log| ==> rev[k] == log[|log| - 1 - k] by {
        forall k | 0 <= k < |log| ensures rev[k] == log[|log| - 1 - k] {
          assert rev[|log| - 1 - (|log| - 1 - k)] == log[|log| - 1 - k];
        }
      }
      log := rev;
    }

    /** Writes every entry of the (already reversed) list back, retrying each once. */
    method DesinstalarTodo() returns (bien: bool)
      requires Estable()
      modifies `disco, `cache, `sucia, `bloque, `averias, `desinstalando
      ensures Estable() && Deshecho(bien, D()) == Desinstalar(old(D()), bs, log)
    {
      hide Vista, Base, Deshacer.Copiar, RestituirUna;
      desinstalando := true;
      sucia, bloque := false, -1;
      bien := true;
      ghost var d0 := D();
      var i := 0;
      while i < |log|
        invariant Estable() && i <= |log| && desinstalando
        invariant var resto := RestituirTodo(D(), bs, log[i..]);
                  RestituirTodo(d0, bs, log) == Deshecho(bien && resto.bien, resto.d)
      {
        var una := Restituir(log[i]);
        bien := bien && una;
        assert log[i..][1..] == log[i + 1..];
        i := i + 1;
      }
      var vaciado := VaciarCache();
      bien := bien && vaciado;
    }

    method Restituir(e: Entrada) returns (bien: bool)
      requires Estable() && desinstalando
      modifies `disco, `cache, `sucia, `bloque, `averias
      ensures Estable() && Deshecho(bien, D()) == RestituirUna(old(D()), bs, e)
    {
      hide Vista, Base, Deshacer.Copiar;
      bien := CopiarACache(e.loc, e.datos);
      if !bien {
        var vaciado := VaciarCache();
        sucia, bloque := false, -1;
        bien := CopiarACache(e.loc, e.datos);
        bien := bien && vaciado;
      }
    }

    /** A whole installation that is broken off: orders until one fails, then the clean-up. If the
        uninstall reports success, the file is byte for byte what it was. */
    method SesionFallida(ordenes: seq<Orden>) returns (bien: bool)
      requires Valido(D(), bs) && !sucia && log == [] && !desinstalando
      requires averias == [] || SesionSinFuga(D(), bs, [], ordenes)
      modifies this
      ensures bien ==> disco == old(disco)
      ensures old(averias) == [] ==> bien
    {
      hide Vista, Base, Leer, Escribir, Vaciar, Desinstalar, SesionSinFuga, Invertir;
      ghost var d0 := D();
      UninstallRestoresDisk(d0, bs, ordenes);
      if averias == [] {
        ErrorFreeUndoIsTotal(d0, bs, ordenes);
      }
      var i, sigue := 0, true;
      while i < |ordenes| && sigue
        invariant Estable() && i <= |ordenes| && !desinstalando
        invariant Correr(d0, bs, [], ordenes) ==
                  if sigue then Correr(D(), bs, log, ordenes[i..]) else Escritura(false, D(), log)
        decreases |ordenes| - i, sigue
      {
        assert ordenes[i..][1..] == ordenes[i + 1..];
        match ordenes[i] {
          case LeerDe(loc, cant) =>
            var leido;
            sigue, leido := LeerDispositivo(loc, cant);
          case EscribirEn(loc, datos) =>
            sigue := EscribirDispositivo(loc, datos);
          case VaciarCache =>
            sigue := VaciarCache();
        }
        i := i + 1;
      }
      InvertirLog();
      bien := DesinstalarTodo();
    }
  }

  lemma LoadedIsLabelled(d: Disp, bs: nat, b: nat)
    requires Deshacer.Estable(d, bs)
    ensures CargarBloque(d, bs, b).ok ==> CargarBloque(d, bs, b).d.bloque == b
  {
  }
}
