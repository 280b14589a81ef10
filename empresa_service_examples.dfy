/**
 * The service's unit-test fixtures, with "now" fixed at 2025-07-23 and
 * "one month ago" at 2025-06-23. A date is written as the number yyyymmdd,
 * which orders dates as their time values do; the model only compares them.
 */
module EmpresaServiceExamples {
  import opened Lists
  import opened Domain
  import opened EmpresaRepository
  import opened TransferenciaRepository
  import opened EmpresaService

  const Hoy: Timestamp := 20250723
  const UnMesAtras: Timestamp := 20250623

  const E1 := Empresa("e1", "20-11111111-1", "Empresa Vieja", 20250101, PYME)
  const E2 := Empresa("e2", "20-22222222-2", "Empresa Reciente", 20250701, CORPORATIVA)
  const E3 := Empresa("e3", "20-33333333-3", "Empresa Con Transferencia", 20250601, PYME)
  const E4 := Empresa("e4", "20-44444444-4", "Empresa Solo Adherida", 20250715, PYME)

  const T1 := Transferencia("t1", "e1", 100.0, "c1", "c2", 20250615)
  const T2 := Transferencia("t2", "e3", 200.0, "c3", "c4", 20250705)
  const T3 := Transferencia("t3", "e2", 300.0, "c5", "c6", 20250720)
  const T4 := Transferencia("t4", "e1", 50.0, "c7", "c8", 20250722)
  const T5 := Transferencia("t5", "e1", 100.0, "c9", "c10", 20250501)

  /** The loop's id set: t1 is outside the window; t2, t3 and t4 bring in e3, e2 and e1. */
  lemma IdsUltimoMesEjemplo()
    ensures IdsEnVentana([T1, T2, T3, T4], UnMesAtras, Hoy) == {"e3", "e2", "e1"}
  {
    assert IdsEnVentana([T1], UnMesAtras, Hoy) == {} by {
      assert [T1][..0] == [];
    }
    assert IdsEnVentana([T1, T2], UnMesAtras, Hoy) == {"e3"} by {
      assert [T1, T2][..1] == [T1];
    }
    assert IdsEnVentana([T1, T2, T3], UnMesAtras, Hoy) == {"e3", "e2"} by {
      assert [T1, T2, T3][..2] == [T1, T2];
    }
    assert [T1, T2, T3, T4][..3] == [T1, T2, T3];
  }

  /** The report keeps e1, e2 and e3, in company-list order, and drops e4. */
  lemma TransferenciasUltimoMesEjemplo()
    ensures EmpresasConTransferencias([E1, E2, E3, E4], [T1, T2, T3, T4], UnMesAtras, Hoy) == [E1, E2, E3]
  {
    IdsUltimoMesEjemplo();
    var p := IdEn({"e3", "e2", "e1"});
    assert [E1, E2, E3, E4][1..] == [E2, E3, E4] && [E2, E3, E4][1..] == [E3, E4];
    assert [E3, E4][1..] == [E4] && [E4][1..] == [];
    assert Filter([E4], p) == [];
    assert Filter([E3, E4], p) == [E3];
    assert Filter([E2, E3, E4], p) == [E2, E3];
  }

  /** A single transfer, dated before the window, gives an empty report. */
  lemma SinTransferenciasEnVentanaEjemplo()
    ensures EmpresasConTransferencias([E1, E2, E3, E4], [T5], UnMesAtras, Hoy) == []
  {
    ConTransferenciasVentanaVacia([E1, E2, E3, E4], [T5], UnMesAtras, Hoy);
  }

  /** e2 (2025-07-01) and e4 (2025-07-15) adhered inside the window. */
  lemma AdheridasUltimoMesEjemplo()
    ensures AdheridasEntre([E1, E2, E3, E4], UnMesAtras, Hoy) == [E2, E4]
  {
    assert [E1, E2, E3, E4][1..] == [E2, E3, E4] && [E2, E3, E4][1..] == [E3, E4];
    assert [E3, E4][1..] == [E4] && [E4][1..] == [];
    var p := AdheridaEntre(UnMesAtras, Hoy);
    assert Filter([E4], p) == [E4];
    assert Filter([E3, E4], p) == [E4];
    assert Filter([E2, E3, E4], p) == [E2, E4];
  }

  /**
   * Registering through the service: the returned company carries the
   * generated id, the command's fields and the registration time, and it is
   * the one new entry of the company list.
   */
  method RegistrarEjemplo() returns (r: Empresa, stored: seq<Empresa>)
    ensures r == Empresa("new-generated-id", "30-99999999-9", "Nueva Empresa de Prueba", Hoy, PYME)
    ensures stored == [E1, E2, E3, E4, r]
  {
    var empresas := new InMemoryEmpresaRepository([E1, E2, E3, E4]);
    var transferencias := new InMemoryTransferenciaRepository([T1, T2, T3, T4]);
    var service := new EmpresaService(empresas, transferencias);
    var command := RegistrarEmpresaCommand("30-99999999-9", "Nueva Empresa de Prueba", PYME);
    r := service.RegistrarNuevaEmpresa(command, Hoy, "new-generated-id");
    stored := empresas.FindAll();
  }
}
