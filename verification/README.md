# Case-record store of the "processos" single-page application

This project models, in Dafny, the record store held by the application root
(`App`) of a small React application that manages legal-case records
("processos"). It covers four things:

- The in-memory ordered list of `Processo` records.
- Its copy in browser storage under the key `"processos"`.
- The startup sequence: use the stored snapshot, or else fetch `/processos.json`.
- The editor and screen state (`isLoading`, `error`, `modalAberto`, `processoSelecionado`).

Modules:

- `Types`: the record (`Processo`, with a two-valued `Status`) and an `Option`.
- `Records`: the three list transformations, as pure functions:
  - `Append` is the create, `[...prev, novoProcesso]`.
  - `ReplaceByNumero` is the update, `prev.map(...)`.
  - `RemoveByNumero` is the delete, `prev.filter(...)`.
  - Lemmas about ordering, subsequences, inverses and uniqueness.
- `Decimal`: how a template literal renders the HTTP status number, and its inverse.
- `App`: the class `Store`. It has:
  - one field per piece of component state, plus the storage slot;
  - a `Valid()` invariant: a non-empty list is always what the slot holds, and an error is only ever set once loading is over;
  - one method per handler and effect;
  - a few client methods: scenarios that exercise the store, including two quirks of the code.

Each handler is one atomic step. A handler that assigns the list then runs the
persist effect, `Persist`, which writes the list only when it is non-empty.

Behaviour modelled as the code has it, including where one might expect otherwise:

- An update replaces **every** record whose `numero` matches, not only the first.
- Save picks update or create by whether a record is **selected**, not by whether `numero` is already present. So an edit that changes `numero` to an unused value changes nothing (`App.EditRenamingIsNoOp`).
- Identifiers are not kept unique: a create never checks for duplicates.
- Deleting the last record leaves the previous snapshot in storage, so a reload brings it back (`App.StaleAfterLastDelete`).
- Startup tests the stored text for truthiness:
  - `null` (`Absent`) and the empty string (`Blank`) both start the fetch;
  - a stored `"[]"` is truthy, so it loads as an empty list.
- The error screen tests `error` for truthiness. A caught `Error` whose message is the empty string therefore shows the table, not the error screen.
- Editing a row index outside the list selects `undefined`, which counts as "nothing selected".

## Model

| member | source | states |
|---|---|---|
| `Records.Append` | projeto_react_type_tailwindcss/src/App.tsx:67 | create adds the record at the end: the length grows by one, the earlier records keep their values and order, the last is the new record |
| `Records.ReplaceByNumero` | projeto_react_type_tailwindcss/src/App.tsx:66 | update keeps the length and every position's identifier; each position whose `numero` matches becomes the new record (all of them, not only the first); all other positions are unchanged; with no match the list is unchanged |
| `Records.RemoveByNumero` | projeto_react_type_tailwindcss/src/App.tsx:115 | delete keeps a record exactly when its `numero` differs from the key, with its multiplicity; an absent key leaves the list unchanged |
| `Records.RemoveLeavesNoMatch` | projeto_react_type_tailwindcss/src/App.tsx:115 | after a delete no record carries the deleted identifier |
| `Records.RemoveConcat` | projeto_react_type_tailwindcss/src/App.tsx:115 | deleting from a concatenation concatenates what survives of each part, so survivors keep their relative order |
| `Records.RemoveIsSubsequence` | projeto_react_type_tailwindcss/src/App.tsx:115 | what a delete leaves is a subsequence of the original list |
| `Records.RemoveIsUniqueSubsequence` | projeto_react_type_tailwindcss/src/App.tsx:115 | any subsequence of the list holding each non-matching record as often as the list does, and no matching record, is the result of the delete: a delete keeps exactly the non-matching records, in their original order |
| `Records.DeleteUndoesCreate` | projeto_react_type_tailwindcss/src/App.tsx:114-116 | deleting the identifier of a record just created under a fresh identifier gives back the list from before the create |
| `Records.ReplacePreservesUniqueness` | projeto_react_type_tailwindcss/src/App.tsx:66 | an update keeps a list with unique identifiers unique |
| `Records.ReplaceIdempotent` | projeto_react_type_tailwindcss/src/App.tsx:66 | on any list, updating twice with the same record is the same as updating once |
| `Records.ReplaceSingleMatch` | projeto_react_type_tailwindcss/src/App.tsx:64-66 | on a list where the new record's identifier occurs once, at position i, the update replaces exactly position i, whatever other identifiers repeat |
| `Decimal.Format` | projeto_react_type_tailwindcss/src/App.tsx:39 | the status is rendered as a non-empty string of digits, starting with '0' only for the number 0 |
| `Decimal.ParseFormat` | projeto_react_type_tailwindcss/src/App.tsx:39 | reading the rendered digits back gives the status number |
| `Decimal.FormatInjective` | projeto_react_type_tailwindcss/src/App.tsx:39 | two different status numbers never render alike |
| `App.HttpErrorMessage` | projeto_react_type_tailwindcss/src/App.tsx:39 | "Erro HTTP: " followed by the status in decimal; never empty |
| `App.CaughtMessage` | projeto_react_type_tailwindcss/src/App.tsx:46 | an `Error`'s own message, "Erro desconhecido" for any other thrown value; only an `Error` can give an empty message |
| `App.HttpErrorMessageNamesStatus` | projeto_react_type_tailwindcss/src/App.tsx:39 | the digits after "Erro HTTP: " read back as the status |
| `App.Store.CurrentScreen` | projeto_react_type_tailwindcss/src/App.tsx:73-91 | loading shows exactly while `isLoading`; otherwise a non-empty error shows the error screen with that message; otherwise the table shows the current list |
| `App.Store.Init` | projeto_react_type_tailwindcss/src/App.tsx:9-25 | mounting starts with no error, editor closed, nothing selected. A stored snapshot becomes the list and ends loading; since nothing turns loading back on and `FetchDone` requires it, no fetch outcome can land afterwards. An absent or blank slot leaves the list empty and loading on, for the fetch |
| `App.Store.Persist` | projeto_react_type_tailwindcss/src/App.tsx:28-32 | a non-empty list is written to the slot; an empty list leaves the slot's previous value |
| `App.Store.FetchDone` | projeto_react_type_tailwindcss/src/App.tsx:34-50 | accepted only while loading, as the fetch runs only then. A good response sets both the list and the slot to the data, even when empty. A non-ok status sets the error to "Erro HTTP: " and the status, leaving list and slot alone. A rejection keeps an `Error`'s message, or "Erro desconhecido" for other values. Loading ends in every case and the invariant is kept |
| `App.Store.OpenNew` | projeto_react_type_tailwindcss/src/App.tsx:53-56 | clears the selection and opens the editor |
| `App.Store.OpenEdit` | projeto_react_type_tailwindcss/src/App.tsx:58-61 | opens the editor with the record at row i selected; a row outside the list selects nothing |
| `App.Store.Save` | projeto_react_type_tailwindcss/src/App.tsx:63-70 | with a selection the list becomes the update of the old list, otherwise the create; the editor closes; the slot follows the persist rule; the invariant is kept |
| `App.Store.Delete` | projeto_react_type_tailwindcss/src/App.tsx:114-116 | the list becomes the delete of the old list; the slot follows the persist rule, so it goes stale when the list empties |
| `App.Store.Close` | projeto_react_type_tailwindcss/src/App.tsx:121 | closes the editor; the list, slot and selection are unchanged |
| `App.Reload` | projeto_react_type_tailwindcss/src/App.tsx:17-32 | reloading against the slot of a store with a non-empty list gives back that list |
| `App.FirstLoad` | projeto_react_type_tailwindcss/src/App.tsx:34-50 | with the slot absent or blank, a fetch returning one record shows a one-row table and leaves that record in the slot |
| `App.ServerError` | projeto_react_type_tailwindcss/src/App.tsx:34-50 | with the slot absent or blank, a response with status 500 shows the error screen with "Erro HTTP: 500" |
| `App.StaleAfterLastDelete` | projeto_react_type_tailwindcss/src/App.tsx:28-32 | creating one record and deleting it empties the list, yet a reload brings the record back |
| `App.EditRenamingIsNoOp` | projeto_react_type_tailwindcss/src/App.tsx:63-67 | editing a row and saving a copy whose identifier is not in the list leaves the list unchanged |

## Left out

- Rendering (JSX, Tailwind classes) and the table component `TabelaProcessos.tsx`. The table only emits a row index for edit and a `numero` for delete; these are the arguments of `OpenEdit` and `Delete`. Its currency and date formatting depend on locale and floating point.
- `main.tsx`, `vite.config.ts` and `tailwind.config.js`: bootstrapping and build configuration.
- `localStorage` and JSON. The slot holds the list itself, as if stringify followed by parse were the identity. Stored text that is not valid JSON makes the real startup throw; the code does not handle that, and it is not modelled. Storage writes are assumed to succeed. A write that throws is not modelled: at App.tsx:43 it is caught and sets the error, but with a non-empty list the persist effect (App.tsx:29-30) repeats the write outside any `try`, and the uncaught throw unmounts the app.
- The network. The fetch is an input (`FetchOutcome`) given to `FetchDone`. `console.error` is not modelled.
- React scheduling. Each handler is one atomic step followed by the persist effect. Batching, functional updates and the development-mode double run of effects under `StrictMode` are not modelled. Nor is the fact that the handlers can only be reached on the table screen: the methods accept calls in any state.
- The editor component `ModalProcesso` is not part of this model. The record it produces is an arbitrary argument to `Save`.
- `valorCausa` is a `real`. The store does no arithmetic on it, so IEEE double rounding is not modelled.
