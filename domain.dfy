/**
 * The two stored entities, companies (empresas) and transfers (transferencias),
 * and the command that registers a company.
 *
 * A `Date` is compared in the source with `>=` and `<=`, which compare its
 * millisecond time value; a `Timestamp` is that value.
 */
module Domain {

  type Timestamp = int

  /** The closed set of company kinds. */
  datatype EmpresaTipo = PYME | CORPORATIVA

  datatype Empresa = Empresa(
    id: string,
    cuit: string,
    razonSocial: string,
    fechaAdhesion: Timestamp,
    tipo: EmpresaTipo)

  /** `importe` is carried along and never computed with. */
  datatype Transferencia = Transferencia(
    id: string,
    idEmpresa: string,
    importe: real,
    cuentaDebito: string,
    cuentaCredito: string,
    fecha: Timestamp)

  /** The input of a company registration: every field but the id and the date. */
  datatype RegistrarEmpresaCommand = RegistrarEmpresaCommand(
    cuit: string,
    razonSocial: string,
    tipo: EmpresaTipo)

  /** The key both repositories identify a company by. */
  function EmpresaId(e: Empresa): string { e.id }

  /** The key the transfer repository identifies a transfer by. */
  function TransferenciaId(t: Transferencia): string { t.id }

  /** The inclusive window test `t >= start && t <= end`. */
  predicate InWindow(t: Timestamp, start: Timestamp, end: Timestamp)
  {
    start <= t && t <= end
  }
}
