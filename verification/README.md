# User list reconciliation

A Dafny model of the list state behind the single user-list screen in
`App.tsx`. The screen holds one ordered list of user records. Each of its
four handlers awaits a call to a remote REST endpoint. When that call
resolves, the handler applies one pure transformation to the list:

- **Load** replaces the whole list with the page it read.
- **Create** appends three hardcoded records. Their ids are the returned
  id `r`, `r + 1` and `r + 2`.
- **Update** overwrites the name, email and avatar of every record with the
  given id. The id is kept.
- **Delete** filters out every record with the given id.

If the awaited call throws, the handler goes straight to its `catch` and the
list is left as it was.

Modules:

- `Users` (`users.dfy`): the `User` record, the id-less `Profile` payload,
  and id counting. It also holds `IdsUnique`, the "no id twice" property.
  The list view keys its rows by `item.id.toString()`, so the screen relies
  on distinct ids, but no handler checks them.
- `Remote` (`remote.dfy`): `Reply<T> = Ok(value) | Failed`. A handler
  receives this outcome instead of making the network call.
- `ListOps` (`list_ops.dfy`): `OverwriteId`, which is the `map` of the
  update, and `RemoveId`, which is the `filter` of the delete, with their
  algebra. `IsSubseq` is used to state order preservation. `RemoveFirstId`
  models the reading in which a delete drops only the first match.
- `Handlers` (`handlers.dfy`): the four handlers and the hardcoded payloads,
  with properties that relate the handlers to each other.
- `Session` (`session.dfy`): completed calls are applied in the order they
  complete. This module states the failure, uniqueness and race properties
  over whole sessions.

One might expect a delete to drop only the first record with the id. The
code uses `filter`, which removes every match, and the model follows the
code. `Handlers.DeleteUniqueRemovesOne` proves that the
two readings agree on lists with unique ids.
`ListOps.RemoveIdDropsEveryDuplicate` shows that they differ once an id is
repeated. The row keys need distinct ids, but a create never checks its
derived ids. `Handlers.CreateUniqueIff` shows exactly when a create keeps
ids unique, and `Handlers.CreateMayDuplicate` gives a concrete duplicate.

## Model

| member | source | states |
|---|---|---|
| Users.WithId | App.tsx:63-65 | a record built as `{id, ...payload}` carries exactly that id and that payload |
| Users.Overwrite | App.tsx:88 | `{...user, ...updatedUser}` keeps the user's id and takes every non-id field from the payload |
| ListOps.OverwriteId | App.tsx:86-90 | the update's `map` keeps length and every id; records with the id take the payload; all others are unchanged |
| ListOps.OverwriteIdAbsent | App.tsx:86-90 | mapping over an id no record carries returns the list unchanged |
| ListOps.OverwriteIdIdempotent | App.tsx:86-90 | applying the update's `map` twice equals applying it once |
| ListOps.OverwriteIdCount | App.tsx:86-90 | the update's `map` leaves the number of records with any id unchanged |
| ListOps.OverwriteIdCommute | App.tsx:86-90 | overwriting two different ids gives the same list in either order |
| ListOps.OverwriteIdConcat | App.tsx:86-90 | the update's `map` works record by record: it splits over concatenation |
| ListOps.RemoveId | App.tsx:103 | `filter` leaves no record with the id and shortens the list by the number of records with the id |
| ListOps.RemoveIdKeepsOthers | App.tsx:103 | every record whose id differs survives the `filter` as many times as it occurred |
| ListOps.RemoveIdIsSubseq | App.tsx:103 | the survivors keep their original relative order |
| ListOps.RemoveIdCharacterised | App.tsx:103 | any order-preserving selection with no record of the id and every other record kept is exactly the `filter` result |
| ListOps.RemoveIdAbsent | App.tsx:103 | filtering out an id no record carries returns the list unchanged |
| ListOps.RemoveIdIdempotent | App.tsx:103 | filtering out the same id twice equals doing it once |
| ListOps.RemoveIdConcat | App.tsx:103 | the `filter` splits over concatenation |
| ListOps.RemoveIdAfterOverwrite | App.tsx:86-103 | removing an id after overwriting it equals removing it outright |
| ListOps.RemoveIdPreservesUnique | App.tsx:103 | the `filter` keeps distinct ids distinct |
| ListOps.RemoveFirstId | App.tsx:103 | removing only the first match shortens a list holding the id by one and leaves any other list unchanged |
| ListOps.RemoveFirstIdIsFirst | App.tsx:103 | first-match removal drops exactly the first record with the id and keeps the records before and after it in order |
| ListOps.RemoveIdIsRemoveFirstWhenUnique | App.tsx:103 | on a list with unique ids, removing every match equals removing the first match |
| ListOps.RemoveIdDropsEveryDuplicate | App.tsx:103 | with a repeated id, the `filter` drops both copies, where first-match removal drops one |
| Handlers.Load | App.tsx:24-33 | a successful read makes the list exactly the page, same length and order; a failed read leaves it unchanged |
| Handlers.Batch | App.tsx:38-66 | the three created records carry ids `r`, `r+1`, `r+2` and the three hardcoded payloads in order |
| Handlers.Create | App.tsx:36-72 | on success the old list is an unchanged prefix, the length grows by 3, and the tail holds ids `r`..`r+2` with the fixed payloads; on failure the list is unchanged |
| Handlers.Update | App.tsx:75-95 | on success the length and every id are kept, records with the id carry the fixed fields, and the others are unchanged; on failure the list is unchanged |
| Handlers.Delete | App.tsx:98-108 | on success no record with the id remains, survivors keep their order and count, and the length drops by the number of matches; on failure the list is unchanged |
| Handlers.LoadForgetsPrior | App.tsx:29 | the list after a successful read does not depend on the list before it |
| Handlers.UpdateAbsent | App.tsx:86-90 | updating an id no record carries leaves the list unchanged, whatever the outcome |
| Handlers.UpdateIdempotent | App.tsx:75-95 | updating the same id twice equals updating it once |
| Handlers.DeleteAbsent | App.tsx:103 | deleting an id no record carries leaves the list unchanged, whatever the outcome |
| Handlers.DeleteIdempotent | App.tsx:98-108 | deleting the same id twice equals deleting it once |
| Handlers.DeleteSurvivorsExact | App.tsx:103 | the delete contract determines the result: any list that meets it is the successful delete's list |
| Handlers.DeleteUniqueRemovesOne | App.tsx:103 | with unique ids, deleting a present id removes exactly one record, the first match |
| Handlers.UpdateDeleteSameIdConverge | App.tsx:86-103 | update-then-delete and delete-then-update of one id both equal the delete alone |
| Handlers.UpdatePreservesUnique | App.tsx:86-90 | an update keeps unique ids unique |
| Handlers.DeletePreservesUnique | App.tsx:103 | a delete keeps unique ids unique |
| Handlers.CreateUniqueIff | App.tsx:62-67 | a successful create keeps unique ids unique if and only if `r`, `r+1` and `r+2` are all absent from the list |
| Handlers.CreateUndoneByDeletes | App.tsx:62-67 | when `r`, `r+1` and `r+2` are fresh, successful deletes of those three ids undo a successful create exactly |
| Handlers.CreateMayDuplicate | App.tsx:62-67 | a concrete create whose derived id collides with an existing record, giving a list with a repeated id |
| Session.Step | App.tsx:24-108 | a completion whose call failed leaves the list unchanged |
| Session.Run | App.tsx:24-108 | completions are applied in completion order; an empty session, or one in which every call fails, leaves the list as it started |
| Session.RunSnoc | App.tsx:24-108 | a non-empty session applies its last completion to the list the earlier completions left |
| Session.StartupReadDiscardsEarlierCreate | App.tsx:22-33 | a create that completes before the start-up read adds three records, and the read's plain setter then replaces them with the page |
| Session.RunConcat | App.tsx:24-108 | running two sessions back to back equals running their concatenation |
| Session.StepPreservesUnique | App.tsx:24-108 | every completion keeps unique ids unique, given a page with unique ids and fresh create ids |
| Session.RunPreservesUnique | App.tsx:24-108 | unique ids stay unique across a whole session whose pages are unique and whose creates never reuse an id |
| Session.UpdateDeleteRace | App.tsx:75-108 | a successful update and delete of one id give the same list whichever completes last |
| Session.UpdateUpdateRace | App.tsx:75-95 | successful updates of two different ids give the same list whichever completes last |
| Session.LoadLastWins | App.tsx:24-33 | a read that completes last replaces whatever the earlier completions produced |

## Left out

- The HTTP calls and their URLs, including the `per_page=2` page size. They are network I/O. Each handler takes the call's outcome as a `Reply` parameter, and the page size is not enforced on the page a read returns.
- Runtime typing of the returned id. The code adds 1 and 2 to `response.data.id` as if it were a number. It is modelled as an unbounded `int`, so string concatenation, floating point and precision beyond 2^53 are outside the model.
- A call that resolves with a malformed body. A read whose body lacks `data` does not throw: it sets the list to `undefined`. A create whose body lacks `id` appends records with ids `undefined`, `NaN` and `NaN`. `Reply` has only a well-formed `Ok` and a thrown `Failed`, so these cases are outside the model. Update and delete never read the body.
- `Alert.alert` dialogs and `console.log` diagnostics. They are UI and logging side effects and do not touch the list. A dialog that throws after the setter has run is not modelled.
- The `useEffect` start-up read, rendering, `FlatList` with its `keyExtractor`, and the styles. They are UI. The start-up read is an ordinary `Loaded` completion. It is issued on the empty initial list (App.tsx:22), but a create can complete first; `Session.StartupReadDiscardsEarlierCreate` and `Session.LoadLastWins` show that the read then discards the created records.
- Interleaving inside a handler. Each completion is one atomic transition applied in completion order. A read's direct `setUsers(value)` and the other handlers' functional updaters behave the same under that assumption.
