/**
 * The in-memory transfer repository: one mutable list of transfers, read by
 * `findByEmpresaIdAndFechaBetween` and `findAll`, changed by `save`.
 */
module TransferenciaRepository {
  import opened Lists
  import opened Domain

  /** The query's test `idEmpresa === empresaId && fecha >= start && fecha <= end`. */
  function DeEmpresaYEntre(empresaId: string, start: Timestamp, end: Timestamp): Transferencia -> bool
  {
    (t: Transferencia) => t.idEmpresa == empresaId && InWindow(t.fecha, start, end)
  }

  /** The transfers of `ts` made by company `empresaId` inside `[start, end]`, in stored order. */
  function DeEmpresaEntre(ts: seq<Transferencia>, empresaId: string, start: Timestamp, end: Timestamp)
    : seq<Transferencia>
  {
    Filter(ts, DeEmpresaYEntre(empresaId, start, end))
  }

  /**
   * The query returns exactly the transfers of that company inside the
   * inclusive window, each stored occurrence once, in stored order.
   */
  lemma DeEmpresaEntreExacto(ts: seq<Transferencia>, empresaId: string, start: Timestamp, end: Timestamp)
    ensures var r := DeEmpresaEntre(ts, empresaId, start, end);
            && (forall t :: t in r <==> t in ts && t.idEmpresa == empresaId && InWindow(t.fecha, start, end))
            && (forall t :: multiset(r)[t] ==
                  if t.idEmpresa == empresaId && InWindow(t.fecha, start, end) then multiset(ts)[t] else 0)
            && SubsequenceOf(r, ts)
  {
    var p := DeEmpresaYEntre(empresaId, start, end);
    var r := Filter(ts, p);
    forall t ensures multiset(r)[t] == if p(t) then multiset(ts)[t] else 0 {
      FilterKeepsEveryOccurrence(ts, p, t);
    }
    FilterIsSubsequence(ts, p);
  }

  class InMemoryTransferenciaRepository {
    /** The stored transfers, in insertion order. */
    var transferencias: seq<Transferencia>

    /** The store starts as a copy of the seed list. */
    constructor(seed: seq<Transferencia>)
      ensures transferencias == seed
    {
      transferencias := seed;
    }

    /** The stored transfers of one company with `start <= fecha <= end`, in stored order. */
    method FindByEmpresaIdAndFechaBetween(empresaId: string, start: Timestamp, end: Timestamp)
        returns (r: seq<Transferencia>)
      ensures r == DeEmpresaEntre(transferencias, empresaId, start, end)
      ensures forall t :: t in r <==> t in transferencias && t.idEmpresa == empresaId && InWindow(t.fecha, start, end)
    {
      r := DeEmpresaEntre(transferencias, empresaId, start, end);
      DeEmpresaEntreExacto(transferencias, empresaId, start, end);
    }

    /** A snapshot of the store, in insertion order. */
    method FindAll() returns (r: seq<Transferencia>)
      ensures r == transferencias
    {
      r := transferencias;
    }

    /**
     * Upsert by id. An empty id is first replaced by `freshId` (the source's
     * generated uuid, which no stored transfer carries); then the first
     * transfer with that id is overwritten in place, or the record is appended.
     */
    method Save(transferencia: Transferencia, freshId: string) returns (r: Transferencia)
      requires transferencia.id == "" ==> freshId != "" && !HasKey(transferencias, TransferenciaId, freshId)
      modifies this
      ensures r == if transferencia.id == "" then transferencia.(id := freshId) else transferencia
      ensures r.id != "" && r in transferencias
      ensures transferencias == Upsert(old(transferencias), r, TransferenciaId)
      ensures HasKey(old(transferencias), TransferenciaId, r.id) ==>
                && |transferencias| == |old(transferencias)|
                && transferencias[IndexOf(old(transferencias), TransferenciaId, r.id)] == r
                && forall j :: 0 <= j < |transferencias| && j != IndexOf(old(transferencias), TransferenciaId, r.id) ==>
                                 transferencias[j] == old(transferencias)[j]
      ensures !HasKey(old(transferencias), TransferenciaId, r.id) ==> transferencias == old(transferencias) + [r]
      ensures transferencia.id == "" ==> transferencias == old(transferencias) + [r]
      ensures KeysDistinct(old(transferencias), TransferenciaId) ==> KeysDistinct(transferencias, TransferenciaId)
    {
      r := transferencia;
      if r.id == "" {
        r := r.(id := freshId);
      }
      var existingIndex := IndexOf(transferencias, TransferenciaId, r.id);
      if existingIndex != -1 {
        transferencias := transferencias[existingIndex := r];
      } else {
        transferencias := transferencias + [r];
      }
      UpsertShape(old(transferencias), r, TransferenciaId);
      if KeysDistinct(old(transferencias), TransferenciaId) {
        UpsertKeepsKeysDistinct(old(transferencias), r, TransferenciaId);
      }
    }
  }

  /** Saving a record a second time, with the id the first save gave it, changes nothing. */
  method SaveTwice(repo: InMemoryTransferenciaRepository, t: Transferencia, freshId: string)
      returns (first: Transferencia, second: Transferencia)
    requires t.id == "" ==> freshId != "" && !HasKey(repo.transferencias, TransferenciaId, freshId)
    modifies repo
    ensures second == first
    ensures repo.transferencias == Upsert(old(repo.transferencias), first, TransferenciaId)
  {
    first := repo.Save(t, freshId);
    second := repo.Save(first, freshId);
    UpsertIdempotent(old(repo.transferencias), first, TransferenciaId);
  }
}
