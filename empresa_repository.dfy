/**
 * The in-memory company repository: one mutable list of companies, read by
 * `findById`, `findAll` and `findByFechaAdhesionBetween`, changed by `save`.
 */
module EmpresaRepository {
  import opened Wrappers
  import opened Lists
  import opened Domain

  /** The range query's test `fechaAdhesion >= start && fechaAdhesion <= end`. */
  function AdheridaEntre(start: Timestamp, end: Timestamp): Empresa -> bool
  {
    (e: Empresa) => InWindow(e.fechaAdhesion, start, end)
  }

  /** The companies of `es` whose adhesion date lies in `[start, end]`, in stored order. */
  function AdheridasEntre(es: seq<Empresa>, start: Timestamp, end: Timestamp): seq<Empresa>
  {
    Filter(es, AdheridaEntre(start, end))
  }

  /**
   * The range query returns exactly the companies adhered inside the inclusive
   * window, each stored occurrence once, in stored order.
   */
  lemma AdheridasEntreExacto(es: seq<Empresa>, start: Timestamp, end: Timestamp)
    ensures var r := AdheridasEntre(es, start, end);
            && (forall e :: e in r <==> e in es && InWindow(e.fechaAdhesion, start, end))
            && (forall e :: multiset(r)[e] == if InWindow(e.fechaAdhesion, start, end) then multiset(es)[e] else 0)
            && SubsequenceOf(r, es)
  {
    var p := AdheridaEntre(start, end);
    var r := Filter(es, p);
    forall e ensures multiset(r)[e] == if p(e) then multiset(es)[e] else 0 {
      FilterKeepsEveryOccurrence(es, p, e);
    }
    FilterIsSubsequence(es, p);
  }

  class InMemoryEmpresaRepository {
    /** The stored companies, in insertion order. */
    var empresas: seq<Empresa>

    /** The store starts as a copy of the seed list. */
    constructor(seed: seq<Empresa>)
      ensures empresas == seed
    {
      empresas := seed;
    }

    /** The first stored company with that id, or `None` (the source's `null`). */
    method FindById(id: string) returns (r: Option<Empresa>)
      ensures r.None? <==> forall i :: 0 <= i < |empresas| ==> empresas[i].id != id
      ensures r.Some? ==> exists i :: 0 <= i < |empresas| && empresas[i] == r.value && empresas[i].id == id
                                       && forall j :: 0 <= j < i ==> empresas[j].id != id
    {
      r := Find(empresas, EmpresaId, id);
      FindIsFirst(empresas, EmpresaId, id);
    }

    /**
     * Upsert by id. An empty id is first replaced by `freshId` (the source's
     * generated uuid, which no stored company carries); then the first
     * company with that id is overwritten in place, or the record is appended.
     */
    method Save(empresa: Empresa, freshId: string) returns (r: Empresa)
      requires empresa.id == "" ==> freshId != "" && !HasKey(empresas, EmpresaId, freshId)
      modifies this
      ensures r == if empresa.id == "" then empresa.(id := freshId) else empresa
      ensures r.id != ""
      ensures empresas == Upsert(old(empresas), r, EmpresaId)
      ensures HasKey(old(empresas), EmpresaId, r.id) ==>
                && |empresas| == |old(empresas)|
                && empresas[IndexOf(old(empresas), EmpresaId, r.id)] == r
                && forall j :: 0 <= j < |empresas| && j != IndexOf(old(empresas), EmpresaId, r.id) ==> empresas[j] == old(empresas)[j]
      ensures !HasKey(old(empresas), EmpresaId, r.id) ==> empresas == old(empresas) + [r]
      ensures empresa.id == "" ==> empresas == old(empresas) + [r]
      ensures Find(empresas, EmpresaId, r.id) == Some(r)
      ensures KeysDistinct(old(empresas), EmpresaId) ==> KeysDistinct(empresas, EmpresaId)
    {
      r := empresa;
      if r.id == "" {
        r := r.(id := freshId);
      }
      var existingIndex := IndexOf(empresas, EmpresaId, r.id);
      if existingIndex != -1 {
        empresas := empresas[existingIndex := r];
      } else {
        empresas := empresas + [r];
      }
      UpsertThenFind(old(empresas), r, EmpresaId);
      if KeysDistinct(old(empresas), EmpresaId) {
        UpsertKeepsKeysDistinct(old(empresas), r, EmpresaId);
      }
    }

    /** A snapshot of the store, in insertion order. */
    method FindAll() returns (r: seq<Empresa>)
      ensures r == empresas
    {
      r := empresas;
    }

    /** The stored companies with `start <= fechaAdhesion <= end`, in stored order. */
    method FindByFechaAdhesionBetween(start: Timestamp, end: Timestamp) returns (r: seq<Empresa>)
      ensures r == AdheridasEntre(empresas, start, end)
      ensures forall e :: e in r <==> e in empresas && InWindow(e.fechaAdhesion, start, end)
    {
      r := AdheridasEntre(empresas, start, end);
      AdheridasEntreExacto(empresas, start, end);
    }
  }

  /**
   * A list returned by `findAll` is a snapshot: a later `save` changes the
   * store but not the list already handed out.
   */
  method SnapshotSurvivesSave(repo: InMemoryEmpresaRepository, e: Empresa, freshId: string)
      returns (snapshot: seq<Empresa>, saved: Empresa)
    requires e.id == "" ==> freshId != "" && !HasKey(repo.empresas, EmpresaId, freshId)
    modifies repo
    ensures snapshot == old(repo.empresas)
    ensures repo.empresas == Upsert(snapshot, saved, EmpresaId)
  {
    snapshot := repo.FindAll();
    saved := repo.Save(e, freshId);
  }
}
