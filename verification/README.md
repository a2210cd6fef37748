# Clock-event reconciliation, modelled in Dafny

This project models the core of a cooperative's time-tracking application. Workers ("cooperados")
clock in and out at a hospital kiosk. Each scan becomes a clock event ("ponto"). An exit is
linked to the entry it closes through `relatedId`. A worker sees their own events paired into
shift rows, and can file a correction ("justificativa") for a missing exit. A manager then
approves or rejects it. Hospital administrators maintain hospitals, sectors and permissions.

Modules follow the program's structure:

- `Common` — Option/Result and the list helpers JavaScript provides (`find`, `findIndex`,
  `filter`, counting).
- `Sorting` — a stable insertion sort standing in for `Array.prototype.sort`, and the
  code-point order the model uses for the default string sort.
- `Text` — decimal `toString`, `split(' - ')`/`join`, `trim()`, the `\D` class and "HH:MM".
- `Types`, `Permissions` — the records of `types.ts`.
- `Storage` — the store operations of `services/storage.ts`. Each is a pure transition of a
  `Db` value. The audit entry's UUID, time and user arrive as an `AuditStamp`.
- `PontoMachine` — the kiosk scan: validation, identification, choosing entry or exit, and
  pairing an exit with the open entry.
- `Autorizacao` — the manager's approval queue.
- `Espelho` — the worker's mirror: loading, filtering, shift-row pairing and the correction.
- `HospitalRegister` — the hospital form: access code, slug, save, edit merge, sectors,
  permission toggles and the postal-code mask.

Timestamps are integer milliseconds. The calendar date a record shows under (the `T`-split of
`toISOString()`) is its UTC day number `IsoDay`. For the years 0000 to 9999, ISO `YYYY-MM-DD`
texts compare like these numbers, so the mirror's date bounds are day numbers. Outside that
range `toISOString` writes the year as `±YYYYYY`, and the text order is not followed (see
"## Left out").

A row's sector name is `parts[1]` of `split(' - ')`: the piece between the first and the second
separator, not everything after the first one (`Espelho.SectorName`).

## Model

| member | source | states |
|---|---|---|
| Storage.SessionUser | services/storage.ts:406 | the audit user is the manager user name when truthy, else the hospital access code when truthy, else the registration number when truthy, else "SYSTEM"; never empty |
| Storage.LogAudit | services/storage.ts:403-416 | the new entry is first, older entries follow in order, and the history is cut to 100 |
| Storage.LogAuditTwice | services/storage.ts:408-415 | two entries logged in a row are newest first, ahead of the older history, within capacity |
| Storage.ReplaceFirst | services/storage.ts:319-321 | the first record with the item's key is replaced in place; with no such record the list is unchanged |
| Storage.Upsert | services/storage.ts:367-374 | replace the first record with the same id, else append; the item is always present afterwards |
| Storage.UpsertKeepsKeysUnique | services/storage.ts:367-374 | with unique ids before, ids stay unique and the saved record is the only one under its id |
| Storage.UpsertIdempotent | services/storage.ts:367-374 | saving the same record twice equals saving it once |
| Storage.SavePonto | services/storage.ts:310-315 | the record is appended after the unchanged list, and the production audit names its type, worker and status |
| Storage.UpdatePonto | services/storage.ts:317-324 | the first record with the same id is replaced; without one nothing changes; no audit entry |
| Storage.UpdatePontoUnique | services/storage.ts:317-324 | with unique ids exactly the record with that id changes, and ids stay unique |
| Storage.PontoById | services/storage.ts:328 | `find` by id: the result has the id and is listed; None iff no record has it |
| Storage.Reopen | services/storage.ts:339-342 | only the first record with the entry's id is set to Aberto; ids and length are kept |
| Storage.DeleteCascade | services/storage.ts:326-345 | unknown id: nothing written; entry: it and every record linked to it go, every other record stays as often as stored; exit: it goes; break records: list kept |
| Storage.ReopenLinkedPointwise | services/storage.ts:337-343 | with unique ids, deleting an exit reopens exactly the entry it points at |
| Storage.DeleteSaidaList | services/storage.ts:336-345 | with unique ids, deleting an exit leaves the reopened list minus exactly that position |
| Storage.DeleteSaidaEffect | services/storage.ts:336-345 | with unique ids, deleting an exit removes exactly that record, reopens its entry and keeps the others in order |
| Storage.DeleteEntradaEffect | services/storage.ts:333-335 | deleting an entry removes it and its linked records, and keeps every other record |
| Storage.DeleteEntradaKeepsOrder | services/storage.ts:333-335 | deleting an entry distributes over any split of the list, so the survivors keep their stored order |
| Storage.DeletePonto | services/storage.ts:326-349 | an unknown id changes nothing; otherwise the cascade is stored and a removal naming the code is audited |
| Storage.LastIndex | services/storage.ts:351-355 | the position of the newest qualifying record, the earliest stored among equal timestamps; None iff none qualifies |
| Storage.LastPonto | services/storage.ts:351-355 | the result qualifies (same worker, neither rejected nor pending) and no qualifying record is newer |
| Storage.LastPontoAppendNewest | services/storage.ts:351-355 | a qualifying record newer than all of the worker's records becomes the last one |
| Storage.SaveCategoria | services/storage.ts:392-401 | a known category changes nothing; a new one is added, the list sorted and the addition audited |
| Storage.SaveCategoriaDistinct | services/storage.ts:394 | saving a category never introduces a duplicate |
| Storage.SaveCooperado | services/storage.ts:285-295 | a new id is appended; a known id replaces the first record with it in place; the list grows by at most one; the registration audit; other lists untouched |
| Storage.SaveManager | services/storage.ts:259-269 | a new id is appended; a known id replaces the first record with it in place; the list grows by at most one; the manager audit; other lists untouched |
| Storage.SaveHospital | services/storage.ts:367-377 | a new id is appended; a known id replaces the first record with it in place; the list grows by at most one; the hospital audit; other lists untouched |
| Storage.SaveCooperadoKeepsIdsUnique | services/storage.ts:285-295 | with unique ids before, saving a worker keeps ids unique and the saved record is the only one under its id |
| Storage.SaveManagerKeepsIdsUnique | services/storage.ts:259-269 | with unique ids before, saving a manager keeps ids unique and the saved record is the only one under its id |
| Storage.SaveHospitalKeepsIdsUnique | services/storage.ts:367-377 | with unique ids before, saving a hospital keeps ids unique and the saved record is the only one under its id |
| Sorting.SortBy | services/storage.ts:354 | the sorted list is a permutation of its input, ordered by the comparator |
| Sorting.FilterKeepsSorted | views/EspelhoBiometria.tsx:68-82 | filtering a sorted list keeps it sorted |
| Sorting.SortStrings | services/storage.ts:397 | the default sort: a permutation in lexicographic code-point order |
| Text.DecimalRoundTrip | views/PontoMachine.tsx:138 | reading back the decimal text of a number gives the number |
| Text.Split | views/EspelhoBiometria.tsx:101 | `split(' - ')`: no piece holds the separator; a label without one is a single piece; otherwise the first piece is the text before the leftmost separator |
| Text.SplitJoin | views/EspelhoBiometria.tsx:101 | joining the pieces with the separator rebuilds the label |
| Text.SplitTwo | views/PontoMachine.tsx:145 | `a - b` splits back into `a` and `b` when neither introduces a separator |
| Text.TrimEmptyIffBlank | views/HospitalRegister.tsx:95 | `trim()` gives "" exactly for text made only of white space |
| Text.ClockRoundTrip | views/EspelhoBiometria.tsx:172 | every time the picker offers parses to that time of day |
| PontoMachine.Identify | views/PontoMachine.tsx:103 | the first worker with a fingerprint, else the first worker; None iff there are no workers |
| PontoMachine.NextTipo | views/PontoMachine.tsx:109-118 | exit exactly when the last event is an entry, entry otherwise |
| PontoMachine.Codigo | views/PontoMachine.tsx:138 | the shift code is a six-digit number |
| PontoMachine.CodigoText | views/PontoMachine.tsx:138 | its text has six digits and reads back as that number |
| PontoMachine.HospitalById | views/PontoMachine.tsx:143 | the hospital with the id, None iff none |
| PontoMachine.SetorById | views/PontoMachine.tsx:144 | the sector with the id, None iff none |
| PontoMachine.LocalLabel | views/PontoMachine.tsx:143-145 | `hospital - sector`, with "" for unknown names; it splits back into both names |
| PontoMachine.NewPonto | views/PontoMachine.tsx:138-174 | an exit is Fechado; closing an open entry reuses its code and links to it; otherwise a fresh code and no link |
| PontoMachine.Register | views/PontoMachine.tsx:148-176 | the open entry is closed in place, then the new record is appended; exactly one production audit naming its type, worker and status is filed; ids kept; other lists untouched |
| PontoMachine.Scan | views/PontoMachine.tsx:90-129 | missing hospital, sector or worker are errors in that order; otherwise the identified worker's next record is appended, the open entry is closed only when the scan is its exit, the production audit is filed and other lists are untouched |
| PontoMachine.ScanAlternates | views/PontoMachine.tsx:109-124 | with a forward clock, a scan flips the type the next scan of the same worker gets |
| PontoMachine.RegisterClosesEntry | views/PontoMachine.tsx:151-176 | registering an open entry's exit closes that entry in place, changes no other stored record and keeps ids unique |
| PontoMachine.ScanClosesOpenEntry | views/PontoMachine.tsx:151-158 | an exit after an open entry carries its code and link, closes it in place, keeps other records and keeps ids unique |
| Autorizacao.PendingList | views/AutorizacaoPonto.tsx:14-20 | exactly the pending records, oldest first |
| Autorizacao.PendingListCount | views/AutorizacaoPonto.tsx:17 | each pending record is queued as often as it is stored |
| Autorizacao.Approved | views/AutorizacaoPonto.tsx:27-31 | the record becomes Fechado, validated by "Gestor", with every other field kept |
| Autorizacao.CloseLinkedEntry | views/AutorizacaoPonto.tsx:35-44 | for a linked exit, the first record with the entry id is closed in place unless already closed, and nothing else changes; with no such record, or for any other record, nothing changes |
| Autorizacao.CloseLinkedEntryEffect | views/AutorizacaoPonto.tsx:35-44 | with unique ids, exactly the still-open linked entry is closed |
| Autorizacao.Approve | views/AutorizacaoPonto.tsx:22-52 | without confirmation nothing changes; otherwise the first record with the log id becomes the approved record, and every record other than it and the first one with the linked entry id is unchanged |
| Autorizacao.ApproveEffect | views/AutorizacaoPonto.tsx:22-44 | approving the record at k closes it and its open linked entry and leaves every other record unchanged |
| Autorizacao.ApproveLeavesQueue | views/AutorizacaoPonto.tsx:22-47 | the approved record leaves the queue; every other pending record stays unless it was the entry closed |
| Autorizacao.RejectionNote | views/AutorizacaoPonto.tsx:63 | the note is the rejection prefix followed by the reason; an empty reason gives "Rejeitado pelo Gestor: Sem motivo" |
| Autorizacao.Reject | views/AutorizacaoPonto.tsx:54-65 | a cancelled prompt, or an id no record has, changes nothing; otherwise the first record with the id is stored as Rejeitado with the note |
| Autorizacao.RejectLeavesQueue | views/AutorizacaoPonto.tsx:54-68 | afterwards the queue is the old queue minus the rejected record |
| Espelho.MirrorLogs | views/EspelhoBiometria.tsx:50-58 | no worker: nothing; otherwise the worker's non-rejected records, as often as stored, newest first |
| Espelho.MirrorHospitals | views/EspelhoBiometria.tsx:60-63 | exactly the registered hospitals some record names by a truthy hospital id, each as often as registered |
| Espelho.FilteredLogs | views/EspelhoBiometria.tsx:68-82 | a record is kept iff it matches the chosen hospital and its day lies in the range, as often as it was listed; unique ids stay unique; newest-first order is kept |
| Espelho.FilteredLogsKeepsOrder | views/EspelhoBiometria.tsx:68-82 | the filter distributes over concatenation, so kept records stay in mirror order |
| Espelho.NoFiltersKeepsAll | views/EspelhoBiometria.tsx:69-81 | with no filter set every record is listed |
| Espelho.RangeBoundsInclusive | views/EspelhoBiometria.tsx:76-77 | records on the first or last day of the range are listed |
| Espelho.SectorName | views/EspelhoBiometria.tsx:101-102 | without a separator, the whole label; otherwise the text after the first separator, cut at the next separator if there is one |
| Espelho.SectorNameOfLocalLabel | views/EspelhoBiometria.tsx:101-102 | the sector name read from a kiosk label is the sector's own name |
| Espelho.MatchingExit | views/EspelhoBiometria.tsx:94 | the first listed exit linked to the entry, in any status; None iff there is none |
| Espelho.EntryRow | views/EspelhoBiometria.tsx:91-118 | open without an exit; awaiting approval iff the exit is pending; Fechado iff it is closed |
| Espelho.ProcessedExits | views/EspelhoBiometria.tsx:88-98 | the ids of the exits matched to some listed entry |
| Espelho.OrphanRow | views/EspelhoBiometria.tsx:123-140 | an unclaimed exit's row: awaiting approval iff pending, else closed without entry |
| Espelho.ShiftRows | views/EspelhoBiometria.tsx:85-150 | entry rows and unclaimed-exit rows, newest first |
| Espelho.OccursOnce | views/EspelhoBiometria.tsx:91 | with unique ids a listed record occurs once |
| Espelho.ClaimsCount | views/EspelhoBiometria.tsx:94-97 | an exit is claimed by exactly one entry when processed, else by none |
| Espelho.ShiftRowsEntryOnce | views/EspelhoBiometria.tsx:91-120 | every listed entry heads exactly one row |
| Espelho.ShiftRowsExitOnce | views/EspelhoBiometria.tsx:91-142 | every listed exit appears in exactly one row |
| Espelho.SoleExitIsMatched | views/EspelhoBiometria.tsx:94-108 | an entry's only exit is its matched exit, and its status sets the row status |
| Espelho.JustifiedTimestamp | views/EspelhoBiometria.tsx:171-172 | None iff the time is invalid; otherwise, read in the local zone, the instant falls on the entry's UTC calendar day at exactly that wall-clock time, and "24:00" is midnight of the following day |
| Espelho.JustifiedSameDay | views/EspelhoBiometria.tsx:171-172 | in any zone, every time the picker offers lands on the entry's own day at that wall-clock time |
| Espelho.JustificationPonto | views/EspelhoBiometria.tsx:174-192 | a pending manual record with the entry's code and place, linked to the entry |
| Espelho.SubmitJustification | views/EspelhoBiometria.tsx:162-194 | the early returns in order; Ok iff the target is one of the worker's visible records and the time is valid; then exactly the correction record built from that entry and time is appended, and its production audit is filed |
| Espelho.SubmitOwnEntry | views/EspelhoBiometria.tsx:162-194 | correcting one's own record appends a pending record linked to it and keeps ids unique |
| Espelho.JustifyThenApprove | views/EspelhoBiometria.tsx:162-194 | a justified missing exit is queued, and approving it closes the open entry |
| HospitalRegister.AccessNumber | views/HospitalRegister.tsx:49 | a four-digit number |
| HospitalRegister.AccessCode | views/HospitalRegister.tsx:49 | "HSP-" followed by four digits that read back as that number |
| HospitalRegister.NewHospitalForm | views/HospitalRegister.tsx:48-55 | the initial form with a fresh access code and nothing else changed |
| HospitalRegister.LowerSlugPart | views/HospitalRegister.tsx:62 | what lower-casing keeps of a character: slug characters as they are, capitals lowered, the Kelvin sign to "k", the dotted capital I to "i", anything else dropped |
| HospitalRegister.SlugCharsOfSlugText | views/HospitalRegister.tsx:62 | slug text is kept whole by the character filter |
| HospitalRegister.Slug | views/HospitalRegister.tsx:62 | at most ten slug characters, a prefix of the filtered name |
| HospitalRegister.SlugIdempotent | views/HospitalRegister.tsx:62 | deriving a slug from a slug gives it back |
| HospitalRegister.SlugFor | views/HospitalRegister.tsx:62 | a given slug wins; otherwise it is derived from the name |
| HospitalRegister.HandleSave | views/HospitalRegister.tsx:57-74 | a missing name, then a missing password, are errors; otherwise the hospital with slug and id is appended when new or replaces the first record with its id, and the save is audited |
| HospitalRegister.EditForm | views/HospitalRegister.tsx:76-85 | the hospital over the initial form: id, name, slug, access code and sectors carried over; a missing password or address falls back; permissions merged key by key |
| HospitalRegister.AddSetor | views/HospitalRegister.tsx:94-101 | a blank name changes nothing; otherwise the sector is appended |
| HospitalRegister.RemoveSetor | views/HospitalRegister.tsx:103-108 | exactly the sectors with other ids stay, each as often as before |
| HospitalRegister.RemoveSetorKeepsOrder | views/HospitalRegister.tsx:106 | removal distributes over concatenation, so the order is kept |
| HospitalRegister.RemoveAbsentSetor | views/HospitalRegister.tsx:106 | removing an absent id changes nothing |
| HospitalRegister.TogglePermission | views/HospitalRegister.tsx:124-132 | the key flips (a missing key becomes true), all others keep their value |
| HospitalRegister.ToggleTwice | views/HospitalRegister.tsx:124-132 | toggling a present key twice restores the permissions |
| HospitalRegister.CepMask | views/HospitalRegister.tsx:135-141 | at most nine characters: the digits, with a dash after the fifth when a sixth follows |
| HospitalRegister.CepMaskDigits | views/HospitalRegister.tsx:136 | the mask keeps the first eight digits in order |
| HospitalRegister.CepMaskIdempotent | views/HospitalRegister.tsx:136 | masking a masked code changes nothing |

## Left out

- Browser I/O: `localStorage`, JSON, `alert`, `confirm`, `prompt`, React state and timers. The store is a `Db` value. A dialog's answer is a parameter (`confirmed`, `reason`).
- The clock, `crypto.randomUUID` and the session user are parameters (`now`, `newId`, `AuditStamp`). `Math.random()` is a real in [0, 1).
- Fingerprint capture and matching (the biometric SDK). `Identify` keeps the code's stand-in: the first worker with a fingerprint, else the first worker.
- Login, the management and report views, and `deleteHospital`, `deleteManager` and `deleteCooperado`. These are outside the reconciliation core.
- The address's latitude, longitude and radius fields. No modelled operation reads them.
- The shift row's `data` column (`toLocaleDateString('pt-BR')`). Locale formatting is not modelled.
- Espelho.JustifiedTimestamp: the local-time parse is reduced to a fixed UTC offset parameter. Daylight-saving changes are not modelled.
- Text.ParseClock: accepts only `HH:MM`. Other forms the date parser would take, such as seconds, are not modelled. An invalid time makes `toISOString` throw; this is `InvalidTime`.
- Dates outside the years 0000 to 9999: `toISOString` writes them as `±YYYYYY`, whose text order differs from the day-number order the date filter uses. The model compares day numbers throughout.
- Strings are sequences of code points. JavaScript's UTF-16 code units are not modelled, so `substring(0, 10)` and `substring(0, 9)` count characters.
- HospitalRegister.LowerSlugPart: lower-casing keeps only ASCII plus the two non-ASCII letters whose lower case yields `k` or `i`. Full Unicode case mapping is not modelled.
- Autorizacao.Approve: the approved record is built from the list row passed in, which may be older than the stored one. The model takes that row as a parameter, as the code does.
- Autorizacao.PendingList: the stability of the sort among equal timestamps is not stated. The contract gives contents and order only.
- Sorting.SortStrings: compares code points, while JavaScript's default sort compares UTF-16 code units. The two orders differ only between a character above U+FFFF and one in U+E000–U+FFFF.
- Espelho.MirrorLogs: the order among records with equal timestamps is not stated. The model sorts stably, as `Array.prototype.sort` does, but the contract gives contents and order only.
- Espelho.ShiftRows: the order among rows with equal timestamps is not stated, for the same reason.
- Storage.SessionUser: no modelled operation derives its `AuditStamp` user from it. The stamp is a parameter, and `SessionUser` states which user the code would record.
- HospitalRegister.DefaultPermissoes: the optional `testes` permission is absent from the defaults, as in the code.
