/**
 * The reporting and registration service. It reads and writes companies and
 * transfers only through the two repositories it is constructed with.
 *
 * "Now" and "one month ago" are parameters (`hoy`, `unMesAtras`) instead of
 * clock reads and calendar arithmetic; the source always has `unMesAtras <= hoy`.
 */
module EmpresaService {
  import opened Lists
  import opened Domain
  import opened EmpresaRepository
  import opened TransferenciaRepository

  /**
   * The ids that the transfers report collects into its set: the `idEmpresa`
   * of every transfer dated inside `[start, end]`, added in list order.
   */
  function IdsEnVentana(ts: seq<Transferencia>, start: Timestamp, end: Timestamp): (ids: set<string>)
    ensures forall id :: id in ids <==>
              exists t :: t in ts && t.idEmpresa == id && InWindow(t.fecha, start, end)
  {
    if ts == [] then {}
    else
      var last := ts[|ts| - 1];
      assert ts == ts[..|ts| - 1] + [last];
      IdsEnVentana(ts[..|ts| - 1], start, end) + (if InWindow(last.fecha, start, end) then {last.idEmpresa} else {})
  }

  /** The test `ids.has(empresa.id)` of the report's final filter. */
  function IdEn(ids: set<string>): Empresa -> bool
  {
    (e: Empresa) => e.id in ids
  }

  /** The companies of `es` that made a transfer in `ts` inside `[start, end]`, in `es` order. */
  function EmpresasConTransferencias(es: seq<Empresa>, ts: seq<Transferencia>, start: Timestamp, end: Timestamp)
    : seq<Empresa>
  {
    Filter(es, IdEn(IdsEnVentana(ts, start, end)))
  }

  /**
   * A company is in the transfers report exactly when it is stored and some
   * transfer carries its id and a date inside the inclusive window.
   */
  lemma ConTransferenciasExacto(es: seq<Empresa>, ts: seq<Transferencia>, start: Timestamp, end: Timestamp)
    ensures forall e :: e in EmpresasConTransferencias(es, ts, start, end) <==>
              e in es && exists t :: t in ts && t.idEmpresa == e.id && InWindow(t.fecha, start, end)
  {
  }

  /**
   * The report only filters the company list: it is a subsequence of it, and
   * each reported company keeps as many occurrences as it has in the list.
   */
  lemma ConTransferenciasFiltra(es: seq<Empresa>, ts: seq<Transferencia>, start: Timestamp, end: Timestamp)
    ensures SubsequenceOf(EmpresasConTransferencias(es, ts, start, end), es)
    ensures forall e :: e in EmpresasConTransferencias(es, ts, start, end) ==>
              multiset(EmpresasConTransferencias(es, ts, start, end))[e] == multiset(es)[e]
  {
    var p := IdEn(IdsEnVentana(ts, start, end));
    FilterIsSubsequence(es, p);
    forall e | e in Filter(es, p) ensures multiset(Filter(es, p))[e] == multiset(es)[e] {
      FilterKeepsEveryOccurrence(es, p, e);
    }
  }

  /**
   * However many in-window transfers a company has, it is reported once when
   * the stored company ids are distinct.
   */
  lemma ConTransferenciasSinDuplicados(es: seq<Empresa>, ts: seq<Transferencia>, start: Timestamp, end: Timestamp)
    requires KeysDistinct(es, EmpresaId)
    ensures KeysDistinct(EmpresasConTransferencias(es, ts, start, end), EmpresaId)
  {
    FilterKeepsKeysDistinct(es, IdEn(IdsEnVentana(ts, start, end)), EmpresaId);
  }

  /** With no transfer inside the window, the report is empty. */
  lemma ConTransferenciasVentanaVacia(es: seq<Empresa>, ts: seq<Transferencia>, start: Timestamp, end: Timestamp)
    requires forall t :: t in ts ==> !InWindow(t.fecha, start, end)
    ensures EmpresasConTransferencias(es, ts, start, end) == []
  {
    var r := EmpresasConTransferencias(es, ts, start, end);
    if r != [] {
      assert r[0] in r;
      ConTransferenciasExacto(es, ts, start, end);
      assert false;
    }
  }

  /**
   * A transfer whose `idEmpresa` names no stored company changes nothing:
   * orphaned transfers are silently left out of the report.
   */
  lemma ConTransferenciasIgnoraHuerfanas(es: seq<Empresa>, ts: seq<Transferencia>, t: Transferencia,
                                         start: Timestamp, end: Timestamp)
    requires forall e :: e in es ==> e.id != t.idEmpresa
    ensures EmpresasConTransferencias(es, ts + [t], start, end) == EmpresasConTransferencias(es, ts, start, end)
  {
    var before := IdsEnVentana(ts, start, end);
    var after := IdsEnVentana(ts + [t], start, end);
    assert (ts + [t])[..|ts + [t]| - 1] == ts;
    forall e | e in es ensures IdEn(after)(e) == IdEn(before)(e) {
    }
    FilterCongruence(es, IdEn(after), IdEn(before));
  }

  /**
   * Transfers outside the window change nothing either: the report over all
   * transfers equals the report over the in-window ones only.
   */
  lemma ConTransferenciasSoloVentana(es: seq<Empresa>, ts: seq<Transferencia>, start: Timestamp, end: Timestamp)
    ensures EmpresasConTransferencias(es, ts, start, end) ==
            EmpresasConTransferencias(es, Filter(ts, (t: Transferencia) => InWindow(t.fecha, start, end)), start, end)
  {
    var inWindow := Filter(ts, (t: Transferencia) => InWindow(t.fecha, start, end));
    var all := IdsEnVentana(ts, start, end);
    var kept := IdsEnVentana(inWindow, start, end);
    forall id ensures id in all <==> id in kept {
      if id in all {
        var t :| t in ts && t.idEmpresa == id && InWindow(t.fecha, start, end);
        var i :| 0 <= i < |ts| && ts[i] == t;
        assert ts[i] in inWindow;
      }
    }
    assert all == kept;
  }

  class EmpresaService {
    const empresaRepository: InMemoryEmpresaRepository
    const transferenciaRepository: InMemoryTransferenciaRepository

    constructor(empresaRepository: InMemoryEmpresaRepository, transferenciaRepository: InMemoryTransferenciaRepository)
      ensures this.empresaRepository == empresaRepository
      ensures this.transferenciaRepository == transferenciaRepository
    {
      this.empresaRepository := empresaRepository;
      this.transferenciaRepository := transferenciaRepository;
    }

    /**
     * The companies that made a transfer between `unMesAtras` and `hoy`, both
     * included, in the order of the company list. Reads both repositories and
     * changes neither.
     */
    method GetEmpresasConTransferenciasUltimoMes(unMesAtras: Timestamp, hoy: Timestamp) returns (r: seq<Empresa>)
      requires unMesAtras <= hoy
      ensures r == EmpresasConTransferencias(empresaRepository.empresas, transferenciaRepository.transferencias, unMesAtras, hoy)
      ensures forall e :: e in r <==>
                e in empresaRepository.empresas &&
                exists t :: t in transferenciaRepository.transferencias && t.idEmpresa == e.id && InWindow(t.fecha, unMesAtras, hoy)
    {
      var todasEmpresas := empresaRepository.FindAll();
      var todasTransferencias := transferenciaRepository.FindAll();

      var empresasConTransferenciasIds: set<string> := {};
      var i := 0;
      while i < |todasTransferencias|
        invariant 0 <= i <= |todasTransferencias|
        invariant empresasConTransferenciasIds == IdsEnVentana(todasTransferencias[..i], unMesAtras, hoy)
      {
        var transferencia := todasTransferencias[i];
        assert todasTransferencias[..i + 1][..i] == todasTransferencias[..i];
        if transferencia.fecha >= unMesAtras && transferencia.fecha <= hoy {
          empresasConTransferenciasIds := empresasConTransferenciasIds + {transferencia.idEmpresa};
        }
        i := i + 1;
      }
      assert todasTransferencias[..i] == todasTransferencias;

      r := Filter(todasEmpresas, IdEn(empresasConTransferenciasIds));
      ConTransferenciasExacto(todasEmpresas, todasTransferencias, unMesAtras, hoy);
    }

    /**
     * The companies adhered between `unMesAtras` and `hoy`, both included:
     * the repository's range query, unfiltered. Changes neither repository.
     */
    method GetEmpresasAdheridasUltimoMes(unMesAtras: Timestamp, hoy: Timestamp) returns (r: seq<Empresa>)
      requires unMesAtras <= hoy
      ensures r == AdheridasEntre(empresaRepository.empresas, unMesAtras, hoy)
      ensures forall e :: e in r <==> e in empresaRepository.empresas && InWindow(e.fechaAdhesion, unMesAtras, hoy)
    {
      r := empresaRepository.FindByFechaAdhesionBetween(unMesAtras, hoy);
    }

    /**
     * Registers a company: the command's fields copied verbatim, an empty id
     * that `save` replaces by `freshId`, and the adhesion date `now`. The saved
     * record is appended to the company list and returned unchanged.
     */
    method RegistrarNuevaEmpresa(command: RegistrarEmpresaCommand, now: Timestamp, freshId: string) returns (r: Empresa)
      requires freshId != "" && !HasKey(empresaRepository.empresas, EmpresaId, freshId)
      modifies empresaRepository
      ensures r == Empresa(freshId, command.cuit, command.razonSocial, now, command.tipo)
      ensures empresaRepository.empresas == old(empresaRepository.empresas) + [r]
    {
      var nuevaEmpresa := Empresa("", command.cuit, command.razonSocial, now, command.tipo);
      r := empresaRepository.Save(nuevaEmpresa, freshId);
    }
  }
}
