# Company and transfer reporting core, modelled in Dafny

This project models the core of a small company-registration API. It covers
the companies ("empresas") and their transfers ("transferencias"), the two
in-memory repositories that store them, the service that builds the two
"last month" reports and registers companies, and the credential check of
the authentication service.

- `domain.dfy`: the entities `Empresa` and `Transferencia`, the company kind
  `EmpresaTipo` and the registration command. A `Date` becomes a `Timestamp`
  (an `int`), because the source only compares dates with `>=` and `<=`.
- `lists.dfy`: the array operations the repositories are built from. These are
  `filter`, `find` and `findIndex` over records with a string id, and the
  keyed upsert that both `save` methods perform. They are generic in the
  record type, and the id is passed in as a `key` function.
- `empresa_repository.dfy`, `transferencia_repository.dfy`: each repository is
  a class that owns one mutable `seq` field. `Save` changes it in place, with
  an index assignment or an append. The finders only read it.
- `empresa_service.dfy`: the service class and its three use cases. It also
  defines the specification functions of the transfers report and the lemmas
  about them. The report's `forEach` over the transfers is a `while` loop that
  fills a `set`, verified against `IdsEnVentana`.
- `empresa_service_examples.dfy`: the service unit tests' fixtures. "Now" is
  fixed at 2025-07-23. A date is written as the number yyyymmdd, which orders
  dates the same way their time values do.
- `auth_service.dfy`: `validateUser` against the constant user table, and the
  payload that `login` signs.

Environment inputs become parameters:
- "now" (`hoy`, `now`) and "one month ago" (`unMesAtras`) are `Timestamp`
  parameters with `unMesAtras <= hoy`.
- the uuid that `save` generates is a `freshId` parameter. When the record's id
  is empty, `freshId` must be non-empty and not yet stored.
- the JWT signer is a function parameter `sign`, and nothing is assumed about it.

Two operations never change a repository:
- `GetEmpresasConTransferenciasUltimoMes`
- `GetEmpresasAdheridasUltimoMes`

They have no `modifies` clause, so Dafny proves that neither repository
changes. `validateUser` reads a constant table and `login` reads none; both
are pure functions.

The service's unit-test fixture has three transfers inside the window: `t2`
to `e3`, `t3` to `e2` and `t4` to `e1` (dated 2025-07-22). The transfers
report is therefore `e1, e2, e3` (`TransferenciasUltimoMesEjemplo`).

## Model

| member | source | states |
|---|---|---|
| `Lists.Filter` | api-nestjs/src/infrastructure/persistence/in-memory/in-memory-empresa.repository.ts:35-38 | every element of the result is in the input and passes the test; every input element that passes the test is in the result; the result is no longer than the input |
| `Lists.FilterIsSubsequence` | api-nestjs/src/core/services/empresa.service.ts:42-44 | a filter result is a subsequence of its input: same order, nothing invented |
| `Lists.FilterKeepsEveryOccurrence` | api-nestjs/src/infrastructure/persistence/in-memory/in-memory-empresa.repository.ts:35-38 | a value that passes the test occurs in the result as often as in the input; a value that fails it does not occur at all |
| `Lists.FilterAppend` | api-nestjs/src/core/services/empresa.service.ts:42-44 | filtering distributes over concatenation, so elements keep their relative order |
| `Lists.FilterCongruence` | api-nestjs/src/core/services/empresa.service.ts:42-44 | two tests that agree on every element give the same filter result |
| `Lists.FilterKeepsKeysDistinct` | api-nestjs/src/core/services/empresa.service.ts:34-44 | if the input's ids are pairwise distinct, so are the result's |
| `Lists.IndexOf` | api-nestjs/src/infrastructure/persistence/in-memory/in-memory-empresa.repository.ts:22 | `findIndex` gives -1 exactly when no element has the id; otherwise it gives the first position with that id |
| `Lists.Find` | api-nestjs/src/infrastructure/persistence/in-memory/in-memory-empresa.repository.ts:15 | `find` (or `null`) gives `None` exactly when no element has the id; otherwise it gives a stored element with that id |
| `Lists.FindIsFirst` | api-nestjs/src/infrastructure/persistence/in-memory/in-memory-empresa.repository.ts:14-22 | `find` and `findIndex` pick the same element: the first match |
| `Lists.IndexOfAppend` | api-nestjs/src/auth/auth.service.ts:25 | appending elements after a match does not change which element matches first |
| `Lists.Upsert` | api-nestjs/src/infrastructure/persistence/in-memory/in-memory-empresa.repository.ts:22-27 | the store after `save`: at most one longer; each old entry stays, or is the saved record when its id was the saved id; a new last entry is the saved record, and only when its id was not stored |
| `Lists.UpsertIndex` | api-nestjs/src/infrastructure/persistence/in-memory/in-memory-empresa.repository.ts:22-27 | after `save`, the first entry with the saved id is the saved record: at the old first-match position, or at the end when it was appended |
| `Lists.UpsertShape` | api-nestjs/src/infrastructure/persistence/in-memory/in-memory-transferencia.repository.ts:30-35 | `save` keeps the length when the id is stored and adds exactly one otherwise; every other position is unchanged; the saved record is in the store |
| `Lists.UpsertThenFind` | api-nestjs/src/infrastructure/persistence/in-memory/in-memory-empresa.repository.ts:14-28 | `findById(r.id)` right after `save` returned `r` gives `r` |
| `Lists.UpsertIdempotent` | api-nestjs/src/infrastructure/persistence/in-memory/in-memory-transferencia.repository.ts:30-32 | saving the same record again leaves the store as the first save left it |
| `Lists.UpsertKeepsKeysDistinct` | api-nestjs/src/infrastructure/persistence/in-memory/in-memory-empresa.repository.ts:18-29 | pairwise distinct stored ids stay pairwise distinct across `save` |
| `Lists.UpsertKeys` | api-nestjs/src/infrastructure/persistence/in-memory/in-memory-transferencia.repository.ts:26-37 | the ids stored after `save` are the old ids plus the saved record's id |
| `EmpresaRepository.AdheridasEntreExacto` | api-nestjs/src/infrastructure/persistence/in-memory/in-memory-empresa.repository.ts:35-38 | the range query gives exactly the stored companies with `start <= fechaAdhesion <= end`, each occurrence kept, in stored order |
| `EmpresaRepository.InMemoryEmpresaRepository.constructor` | api-nestjs/src/infrastructure/persistence/in-memory/in-memory-empresa.repository.ts:12 | the store starts as a copy of the seed list |
| `EmpresaRepository.InMemoryEmpresaRepository.FindById` | api-nestjs/src/infrastructure/persistence/in-memory/in-memory-empresa.repository.ts:14-16 | `None` exactly when no stored company has the id; otherwise the first stored company with it |
| `EmpresaRepository.InMemoryEmpresaRepository.Save` | api-nestjs/src/infrastructure/persistence/in-memory/in-memory-empresa.repository.ts:18-29 | an empty id becomes the fresh id; the returned id is non-empty; a stored id is overwritten in place at its first match (length and other entries unchanged); a new id is appended; `findById` then finds the result; distinct ids stay distinct |
| `EmpresaRepository.InMemoryEmpresaRepository.FindAll` | api-nestjs/src/infrastructure/persistence/in-memory/in-memory-empresa.repository.ts:31-33 | the stored companies in insertion order |
| `EmpresaRepository.InMemoryEmpresaRepository.FindByFechaAdhesionBetween` | api-nestjs/src/infrastructure/persistence/in-memory/in-memory-empresa.repository.ts:35-39 | exactly the stored companies adhered inside the inclusive window, in stored order |
| `EmpresaRepository.SnapshotSurvivesSave` | api-nestjs/src/infrastructure/persistence/in-memory/in-memory-empresa.repository.ts:31-32 | a list returned by `findAll` keeps its contents across a later `save` |
| `TransferenciaRepository.DeEmpresaEntreExacto` | api-nestjs/src/infrastructure/persistence/in-memory/in-memory-transferencia.repository.ts:14-19 | the query gives exactly the stored transfers with `idEmpresa == empresaId` and `start <= fecha <= end`, each occurrence kept, in stored order |
| `TransferenciaRepository.InMemoryTransferenciaRepository.constructor` | api-nestjs/src/infrastructure/persistence/in-memory/in-memory-transferencia.repository.ts:12 | the store starts as a copy of the seed list |
| `TransferenciaRepository.InMemoryTransferenciaRepository.FindByEmpresaIdAndFechaBetween` | api-nestjs/src/infrastructure/persistence/in-memory/in-memory-transferencia.repository.ts:14-20 | exactly the stored transfers of that company inside the inclusive window, in stored order |
| `TransferenciaRepository.InMemoryTransferenciaRepository.FindAll` | api-nestjs/src/infrastructure/persistence/in-memory/in-memory-transferencia.repository.ts:22-24 | the stored transfers in insertion order |
| `TransferenciaRepository.InMemoryTransferenciaRepository.Save` | api-nestjs/src/infrastructure/persistence/in-memory/in-memory-transferencia.repository.ts:26-37 | an empty id becomes the fresh id and the record is appended; a stored id is overwritten in place at its first match (length and other entries unchanged); the returned record has a non-empty id and is stored; distinct ids stay distinct |
| `TransferenciaRepository.SaveTwice` | api-nestjs/src/infrastructure/persistence/in-memory/in-memory-transferencia.repository.ts:30-32 | saving the returned record a second time returns it again and leaves the store as the first save left it |
| `EmpresaService.IdsEnVentana` | api-nestjs/src/core/services/empresa.service.ts:34-40 | the id set holds exactly the `idEmpresa` of the transfers dated inside the inclusive window |
| `EmpresaService.ConTransferenciasExacto` | api-nestjs/src/core/services/empresa.service.ts:36-44 | a company is in the transfers report iff it is stored and some transfer with its id is dated in `[unMesAtras, hoy]` |
| `EmpresaService.ConTransferenciasFiltra` | api-nestjs/src/core/services/empresa.service.ts:42-44 | the report is a subsequence of the company list, and each reported company keeps all its occurrences |
| `EmpresaService.ConTransferenciasSinDuplicados` | api-nestjs/src/core/services/empresa.service.ts:34-38 | with distinct stored company ids, the report has no duplicates, however many in-window transfers a company has |
| `EmpresaService.ConTransferenciasVentanaVacia` | api-nestjs/src/core/services/empresa.service.ts:37 | with no transfer inside the window, the report is empty |
| `EmpresaService.ConTransferenciasIgnoraHuerfanas` | api-nestjs/src/core/services/empresa.service.ts:42-44 | adding a transfer whose `idEmpresa` names no stored company leaves the report unchanged |
| `EmpresaService.ConTransferenciasSoloVentana` | api-nestjs/src/core/services/empresa.service.ts:37 | transfers outside the window contribute nothing: the report equals the report over the in-window transfers alone |
| `EmpresaService.EmpresaService.constructor` | api-nestjs/src/core/services/empresa.service.ts:19-24 | the service holds the two repositories it is given |
| `EmpresaService.EmpresaService.GetEmpresasConTransferenciasUltimoMes` | api-nestjs/src/core/services/empresa.service.ts:26-45 | the loop's id set and the final filter give exactly the stored companies with an in-window transfer, in company-list order; neither repository changes |
| `EmpresaService.EmpresaService.GetEmpresasAdheridasUltimoMes` | api-nestjs/src/core/services/empresa.service.ts:47-53 | the result is the repository's range query over `[unMesAtras, hoy]`, unfiltered; neither repository changes |
| `EmpresaService.EmpresaService.RegistrarNuevaEmpresa` | api-nestjs/src/core/services/empresa.service.ts:55-64 | the saved company has the command's `cuit`, `razonSocial` and `tipo`, the date `now` and the generated id; it is returned and is the one entry appended to the company list |
| `EmpresaServiceExamples.IdsUltimoMesEjemplo` | api-nestjs/src/core/services/empresa.service.spec.ts:78-81 | with the test fixture, the loop collects the ids `e3`, `e2` and `e1` (t1 falls before the window) |
| `EmpresaServiceExamples.TransferenciasUltimoMesEjemplo` | api-nestjs/src/core/services/empresa.service.spec.ts:70-84 | with the test fixture, the transfers report is `e1, e2, e3` |
| `EmpresaServiceExamples.SinTransferenciasEnVentanaEjemplo` | api-nestjs/src/core/services/empresa.service.spec.ts:86-94 | a lone transfer dated before the window gives an empty report |
| `EmpresaServiceExamples.AdheridasUltimoMesEjemplo` | api-nestjs/src/core/services/empresa.service.spec.ts:105-119 | with the test fixture, the adhered report is `e2, e4` |
| `EmpresaServiceExamples.RegistrarEjemplo` | api-nestjs/src/core/services/empresa.service.spec.ts:131-157 | registering through the service returns the generated id with the command's fields and appends it to the company list |
| `AuthService.ValidateUserIn` | api-nestjs/src/auth/auth.service.ts:23-39 | a user comes back iff some table entry has the username and the first such entry's password equals the given one exactly; the user comes back with that entry's id, username and roles and no password |
| `AuthService.ValidateUserUnknown` | api-nestjs/src/auth/auth.service.ts:25-38 | an unknown username is rejected, whatever the password |
| `AuthService.ValidateUser` | api-nestjs/src/auth/auth.service.ts:8-39 | on the service's own two-user table, a user comes back exactly when some entry has that username and password, and it is one of the two entries without its password |
| `AuthService.OnlyFirstUserCounts` | api-nestjs/src/auth/auth.service.ts:25 | table entries after the first one with a username never change the outcome, even with a matching password |
| `AuthService.PayloadIdentifiesUser` | api-nestjs/src/auth/auth.service.ts:47-48 | the contract of `PayloadOf`, the payload literal: the token payload carries the user's whole identity: two users with the same payload are the same user |
| `AuthService.LoginAfterValidate` | api-nestjs/src/auth/auth.service.ts:46-51 | the contract of `Login`: logging in with a validated user signs `{username, sub: id, roles}` of the first table entry with that name, through one call to `sign` |
| `AuthService.ValidateUserEjemplos` | api-nestjs/src/auth/auth.service.spec.ts:40-56 | `admin`/`password123` gives `user1` without password; an unknown name or a wrong password gives nothing |
| `AuthService.LoginEjemplo` | api-nestjs/src/auth/auth.service.spec.ts:60-72 | with the test's mock signer, the token is `mocked_jwt_token_for_admin` |

## Left out

- The "one month ago" computation (`setMonth(getMonth() - 1)`) is left out, because it depends on platform calendar behaviour. The window bounds are parameters with `unMesAtras <= hoy`.
- Clock reads (`new Date()`) are left out; "now" is a parameter.
- uuid generation is left out. It is replaced by a `freshId` parameter, which must be non-empty and not yet stored when it is used.
- The seed data in `data.ts` is left out. Each repository's constructor takes its initial list as a parameter.
- Promises and `async` are left out; every operation is synchronous.
- The repository port interfaces are not modelled as abstract types. The service holds the two in-memory repositories directly.
- Shared object references are not modelled. In the source, `save` mutates its argument's `id`, stores that same object and returns it. `findById` and the filters also return the stored objects themselves, and `findAll` copies only the array. Records here are values, so a caller that mutates a returned record is not modelled.
- Concurrent calls are left out, including the race between `save`'s index lookup and its write. The model is sequential.
- `importe` is an opaque `real`, because the core does no arithmetic on it.
- A missing `id` (`undefined` or `null`) is not modelled. `!empresa.id` is modelled as the empty-string test, because ids are strings.
- JWT signing is left out and passed in as `sign`. Token verification, the guards and the JWT strategy are not part of this model.
- Controllers, modules, validation DTOs, the bootstrap and the serverless handler in `lambda-adhesion` are left out. They are framework glue and I/O plumbing with no logic of the core.
