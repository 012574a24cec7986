# Staff repository model

A Dafny model of `staffrepo.Repo`, the in-memory employee repository of the face-ID
attendance backend. A `Repo` keeps a map from `uint64` ids to employees and a `uint64`
sequence counter behind one mutex. It offers `Create`, `Read`, `Update`, `Delete` and
`ReadAll` (through the helper `Serialize`), and `New` builds an empty one.

The project has four modules:

- `Domain` (`domain.dfy`): Go's `uint64` as a bounded integer, the `Employee` record
  (an `ID` field plus attributes the repository never looks at), and `Next`, Go's
  `+= 1` on a `uint64`, which wraps to 0.
- `Listing` (`listing.dfy`): what `Serialize` returns. `Values` is the multiset of a
  map's values, one per key. `IsListing(m, r)` says `r` holds exactly those values in
  non-decreasing order of `ID`. `SortByID` is an in-place insertion sort that stands in
  for `sort.Slice`.
- `StaffSpec` (`staff_spec.dfy`): each operation as one atomic step on a `Store` value
  (the map and the counter) giving a new `Store` and a `Result`: `Ok(v)`, `Cancelled` or
  `NotFound(id)`. `Run` plays a whole session of calls. The lemmas cover id issuing
  across sessions, cancellation, read-after-write, and two invariants that hold only
  under conditions (`KeysIssued`, `WellKeyed`).
- `StaffRepo` (`staff_repo.dfy`): the class `Repo`. Its fields are `m` and `sequence`
  (Go's `seq`, which is a reserved word in Dafny). Each mutating method has
  `modifies this` and is proved equal to its `StaffSpec` step. `Serialize` gathers the
  map's values in a loop, in whatever order the map gives them, sorts them in place in
  an array, and is proved to return a listing.

The context argument becomes a boolean `cancelled`. Every operation checks it before it
does anything else. When it is set, the operation returns `Cancelled` and changes
nothing.

Two behaviours of the code are modelled as written:

- `Update` stores any value under any key. So a key can be larger than the counter, and
  a stored value's `ID` can differ from its key. Neither "every key has been issued" nor
  "every key equals its value's `ID`" is an invariant of the repository. The lemmas show
  that `New` establishes both and `Delete` keeps both. `Create` always keeps the second,
  and keeps the first while the counter does not wrap. When not cancelled, `Update`
  keeps each one exactly when its arguments agree with it. A key written ahead of the counter is
  overwritten by a later `Create` (`UpdateAheadIsOverwritten`).
- The counter is a 64-bit unsigned integer. `Create` at the largest value wraps it to 0
  and issues id 0 (`CreateWraps`). The uniqueness lemmas therefore assume the counter
  does not wrap during the session.

One might expect every key to equal its value's `ID` and the counter only to increase.
The code keeps neither, for the two reasons above, and the model follows the code.

## Model

| member | source | states |
|---|---|---|
| `Domain.Next` | internal/repository/staffrepo/staffrepo.go:44 | `seq += 1` on a uint64: one more, except that the largest value wraps to 0 |
| `Listing.SortByID` | internal/repository/staffrepo/staffrepo.go:29-31 | sorting in place leaves the array in non-decreasing `ID` order and a permutation of what it held |
| `Listing.ValuesRemove` | internal/repository/staffrepo/staffrepo.go:26-28 | taking any one key out of the map takes exactly that key's value out of the map's multiset of values, whatever the order of iteration |
| `StaffSpec.Create` | internal/repository/staffrepo/staffrepo.go:36-49 | cancelled: `Cancelled` and no change. Otherwise the counter becomes `Next` of its old value (one more, mod 2^64), the new counter value is returned, the entity is stored under it with its `ID` set to it, and every other key keeps its value |
| `StaffSpec.Read` | internal/repository/staffrepo/staffrepo.go:71-85 | state never changes. Cancelled: `Cancelled`. Otherwise `Ok(m[id])` exactly when `id` is present, else `NotFound(id)` |
| `StaffSpec.Update` | internal/repository/staffrepo/staffrepo.go:104-116 | cancelled: `Cancelled` and no change. Otherwise `u` is stored under `id` whether or not `id` was present and is returned. The counter and every other key are unchanged |
| `StaffSpec.Delete` | internal/repository/staffrepo/staffrepo.go:52-68 | the counter never changes. Cancelled: no change. Absent id: `NotFound(id)` and no change. Present id: exactly that key is removed and the others keep their values |
| `StaffSpec.ReadAll` | internal/repository/staffrepo/staffrepo.go:88-101 | the state never changes. Cancelled: `Cancelled`. Otherwise `Ok` of a listing with one entry per key, which is `[]` (not an error) for an empty map |
| `StaffSpec.RunIssuesConsecutiveIds` | internal/repository/staffrepo/staffrepo.go:44-48 | in any session of calls, unless the counter wraps, the non-cancelled Creates return the counter's next values one after another and the counter ends at the last one. Reads, Updates and Deletes between them do not change this |
| `StaffSpec.IssuedIdsIncrease` | internal/repository/staffrepo/staffrepo.go:44-48 | ids issued in a session are strictly increasing and above the starting counter, so none is reissued even after a Delete. The counter never decreases |
| `StaffSpec.CancelledRunChangesNothing` | internal/repository/staffrepo/staffrepo.go:39-43 | a session whose every call is cancelled leaves the map and the counter as they were and issues no id. Every method has the same check (lines 55-59, 74-78, 92-96, 107-111) |
| `StaffSpec.CreateThenRead` | internal/repository/staffrepo/staffrepo.go:44-48 | reading the id that Create returned gives the created entity with `ID` equal to that id |
| `StaffSpec.UpdateThenRead` | internal/repository/staffrepo/staffrepo.go:113 | reading an id just updated gives exactly the value written |
| `StaffSpec.DeleteThenReadOrDelete` | internal/repository/staffrepo/staffrepo.go:61-65 | after a successful Delete, Read of that id and a second Delete both give `NotFound(id)`, and the second Delete changes nothing |
| `StaffSpec.EmptyKeysIssued` | internal/repository/staffrepo/staffrepo.go:118-122 | the state `New` builds is an empty map with counter 0, so every key in it has been issued and every value carries its key as `ID` |
| `StaffSpec.CreateIsFresh` | internal/repository/staffrepo/staffrepo.go:44-46 | if every key has been issued and the counter does not wrap, Create stores under a key that was absent. It adds one entry, overwrites nothing, and keeps every key issued |
| `StaffSpec.DeleteKeepsKeysIssued` | internal/repository/staffrepo/staffrepo.go:65 | Delete keeps every key at or below the counter |
| `StaffSpec.UpdateKeysIssued` | internal/repository/staffrepo/staffrepo.go:113 | Update keeps every key at or below the counter if and only if its id has already been issued |
| `StaffSpec.UpdateAheadIsOverwritten` | internal/repository/staffrepo/staffrepo.go:113 | a value Updated under the next id to be issued is replaced by the next Create's entity and lost |
| `StaffSpec.CreateWraps` | internal/repository/staffrepo/staffrepo.go:44-45 | at the counter's largest value, Create issues id 0 and leaves the counter at 0 |
| `StaffSpec.CreateKeepsWellKeyed` | internal/repository/staffrepo/staffrepo.go:45-46 | Create stamps the entity with its key, so every stored value still carries its key as `ID` |
| `StaffSpec.DeleteKeepsWellKeyed` | internal/repository/staffrepo/staffrepo.go:65 | Delete keeps every stored value carrying its key as `ID` |
| `StaffSpec.UpdateWellKeyed` | internal/repository/staffrepo/staffrepo.go:113 | Update keeps every stored value carrying its key as `ID` if and only if the written value's `ID` is the id it is written under |
| `StaffSpec.WellKeyedValuesOnce` | internal/repository/staffrepo/staffrepo.go:26-28 | when every value carries its key as `ID`, no value appears twice among the values gathered from the map |
| `StaffSpec.ListingStrictWhenWellKeyed` | internal/repository/staffrepo/staffrepo.go:29-31 | when every value carries its key as `ID`, the sorted listing is strictly increasing by `ID` |
| `StaffSpec.ListingContents` | internal/repository/staffrepo/staffrepo.go:21-33 | a listing has one entry per key and holds exactly the stored values. It is empty exactly when the map is empty |
| `StaffRepo.Repo.constructor` | internal/repository/staffrepo/staffrepo.go:118-122 | `New` gives an empty map and a zero counter |
| `StaffRepo.Repo.Serialize` | internal/repository/staffrepo/staffrepo.go:21-33 | the result holds the map's values, one per key, in non-decreasing `ID` order. An empty map gives an empty sequence |
| `StaffRepo.Repo.Create` | internal/repository/staffrepo/staffrepo.go:36-49 | the new map, counter and result are those of `StaffSpec.Create` on the old state |
| `StaffRepo.Repo.Delete` | internal/repository/staffrepo/staffrepo.go:52-68 | the new map, counter and result are those of `StaffSpec.Delete` on the old state |
| `StaffRepo.Repo.Read` | internal/repository/staffrepo/staffrepo.go:71-85 | changes nothing and returns the result of `StaffSpec.Read` |
| `StaffRepo.Repo.ReadAll` | internal/repository/staffrepo/staffrepo.go:88-101 | changes nothing. Cancelled: `Cancelled`. Otherwise `Ok` of a listing of the map, which is `[]` for an empty map |
| `StaffRepo.Repo.Update` | internal/repository/staffrepo/staffrepo.go:104-116 | the new map, counter and result are those of `StaffSpec.Update` on the old state |

## Left out

- The mutex (`mu`) is not modelled. `Create`, `Read`, `Update`, `Delete` and `ReadAll`
  lock it and unlock it by a deferred call. Each of them is one atomic step, and
  concurrent callers are not modelled.
- StaffRepo.Repo.Serialize: modelled as one atomic read of the map. The exported Go
  method takes no lock and relies on its caller `ReadAll` holding it. A direct call that
  races with a writer is not modelled.
- The `context.Context` is reduced to a flag saying whether it is already done. Its
  error value (canceled or deadline exceeded) becomes the single result `Cancelled`.
- The messages built with `fmt.Errorf` ("employee id=N not exist" / "not found") become
  `NotFound(N)`.
- The zero values Go returns next to an error are dropped: `0` from `Create`, an empty
  `Employee` from `Read` and `Update`, an empty slice from `ReadAll`. `Result` carries
  either a value or an error.
- `sort.Slice` is replaced by an insertion sort with the same result contract: sorted by
  `ID` and a permutation. Go's sort is not stable, so the order among values that share
  an `ID` is left open in the model too.
- The compile-time assertion that `Repo` implements `staffservice.StaffRepo` has no
  runtime behaviour.
- `Employee`'s fields other than `ID` are modelled as one opaque `Attributes` string.
  The `domain` package is not part of this model.
- cmd/face_detector/main.go only wires components together: config, signals, router,
  server. The image and time-record repositories, the services and the handlers are
  not part of this model.
- StaffSpec.RunIssuesConsecutiveIds: holds only for sessions in which the counter does
  not pass 2^64 - 1. Past that point the code reissues ids from 0 (`CreateWraps`).
- StaffSpec.IssuedIdsIncrease: holds under the same condition that the counter does not
  wrap.
