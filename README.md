# Document history change tracker

A model of the change classifier and history-record builder of the
Firestore document-histories extension
(`firestore-document-histories/functions/src/change_tracker.ts`). Each time a
document is created, updated or deleted, the extension classifies the
mutation, picks the time of its history entry, and builds the history body:
the new document (or nothing, for a deletion) with the diff between the two
states written under the reserved field `__diff`.

Layout:

- `wrappers.dfy` — `Option` and `Result` (a thrown error). `None` stands both for JavaScript's `null` (the diff arguments) and for `undefined` (what `data()` gives on a missing snapshot); the model does not tell the two apart.
- `document.dfy` — module `Document`: field values, document bodies, snapshots
  (`Absent`, or `Present` with an update time in integer milliseconds and a
  body) and changes (a before/after pair; `Valid` when at least one side exists).
- `change_tracker.dfy` — module `ChangeTracker`: the `ChangeType` enum,
  `getChangeType`, `getTimestamp`, `getData`, and lemmas about them.
- `history.dfy` — module `History`: the order of the entry times of one
  document's successive changes, each change with its own pair of snapshots.
  Entry times never go down. They strictly increase when the next change after
  a deletion commits later than the deletion's entry time. That holds when a
  deletion's before side reports a time earlier than the deletion's own
  commit. It need not hold when the before side reports the deletion's own
  commit time, which is how the source's comment on bug 129264426 reads; a
  re-creation one millisecond later then ties.

Modelling choices:

- The diff engine `getHistoryDiffs` (imported from `./diff`) is not part of
  this model. `GetData` takes it as a parameter `diffs` of type
  `HistoryDiffs`, so every property of `GetData` holds for any diff engine.
- TypeScript numbers the members of `enum ChangeType` 0, 1, 2 and
  `getTimestamp` switches on that number with a default branch that throws.
  `TimestampOfCode` is that switch over the number, returning
  `Err(InvalidChangeType(code))` where the source throws; `GetTimestamp`
  proves the error branch is never taken for a classified change.
- `getData` assigns `data.__diff` in place on the object returned by
  `after.data()` (a fresh object per call) or on `{}`; the model writes it as
  a map update, and its contract states which keys change and which stay.
- Times are integer milliseconds; the Firestore `Timestamp` and JavaScript
  `Date` types are replaced by `int`.

## Model

| member | source | states |
|---|---|---|
| `Document.Snapshot.Data` | firestore-document-histories/functions/src/change_tracker.ts:57-61 | `data()` yields a body exactly when the snapshot exists, and that body is the snapshot's fields |
| `ChangeTracker.Ordinal` | firestore-document-histories/functions/src/change_tracker.ts:23-27 | the enum members are numbered below 3 |
| `ChangeTracker.OrdinalInjective` | firestore-document-histories/functions/src/change_tracker.ts:23-27 | two change types share a number only if they are the same type |
| `ChangeTracker.GetChangeType` | firestore-document-histories/functions/src/change_tracker.ts:29-37 | the truth table: DELETE exactly when the after side is missing (whatever the before side), CREATE exactly when only the after side exists, UPDATE exactly when both exist |
| `ChangeTracker.Shape` | firestore-document-histories/functions/src/change_tracker.ts:29-37 | the existence pattern of each change type has at least one existing side, and an existing after side exactly for CREATE and UPDATE |
| `ChangeTracker.ShapeOfChangeType` | firestore-document-histories/functions/src/change_tracker.ts:29-37 | on a valid change the classification determines the (before exists, after exists) pair |
| `ChangeTracker.ChangeTypeOfShape` | firestore-document-histories/functions/src/change_tracker.ts:29-37 | every change with a type's existence pattern is valid and classified as that type |
| `ChangeTracker.TimestampOfCode` | firestore-document-histories/functions/src/change_tracker.ts:41-52 | CREATE and UPDATE give the after update time, DELETE the before update time plus 1 ms, and exactly the other numbers give the invalid-change-type error carrying the number |
| `ChangeTracker.GetTimestamp` | firestore-document-histories/functions/src/change_tracker.ts:39-53 | never reaches the throw; the after update time when the after side exists, otherwise exactly the before update time plus 1 ms, which is strictly later |
| `ChangeTracker.DiffBefore` | firestore-document-histories/functions/src/change_tracker.ts:60 | the before-argument of the diff engine is null for CREATE and (on a valid change) exactly then, else the before body |
| `ChangeTracker.DiffAfter` | firestore-document-histories/functions/src/change_tracker.ts:61 | the after-argument of the diff engine is null exactly for DELETE, else the after body |
| `ChangeTracker.GetData` | firestore-document-histories/functions/src/change_tracker.ts:55-63 | `__diff` holds the diff of (type, before-argument, after-argument); on DELETE it is the only key; otherwise the keys are the after body's plus `__diff` and every other field keeps its value |
| `ChangeTracker.GetDataSplits` | firestore-document-histories/functions/src/change_tracker.ts:57-58 | without its diff field a history body is empty for DELETE and the after body (less any `__diff` of its own) otherwise |
| `ChangeTracker.ExistingDiffFieldLost` | firestore-document-histories/functions/src/change_tracker.ts:58 | an after body that already has a `__diff` field different from the diff loses that value in the history body |
| `ChangeTracker.CreateScenario` | firestore-document-histories/functions/src/change_tracker.ts:29-63 | creating `{name: "Alice"}` at T1 gives CREATE, time T1, the document plus its diff |
| `ChangeTracker.DeleteScenario` | firestore-document-histories/functions/src/change_tracker.ts:29-63 | deleting `{name: "Alice"}` last updated at T1 gives DELETE, time T1 + 1, a body holding only the diff |
| `ChangeTracker.UpdateScenario` | firestore-document-histories/functions/src/change_tracker.ts:29-63 | updating `{n: 1}` to `{n: 2}` at T2 gives UPDATE, time T2, the new document plus its diff |
| `History.HistoryTimes` | firestore-document-histories/functions/src/change_tracker.ts:39-53 | one entry time per change of a document |
| `History.HistoryTimesAt` | firestore-document-histories/functions/src/change_tracker.ts:39-53 | the `i`-th entry time is the timestamp of the `i`-th change |
| `History.EntryTime` | firestore-document-histories/functions/src/change_tracker.ts:42-48 | a creation's or update's entry is at its own commit; a deletion's is after the previous commit and at most 1 ms after its own |
| `History.HistoryTimesNonDecreasing` | firestore-document-histories/functions/src/change_tracker.ts:39-53 | entry times never go down, whatever time from the previous change's commit up to its own commit a deletion's before side reports |
| `History.HistoryTimesIncrease` | firestore-document-histories/functions/src/change_tracker.ts:39-53 | entry times strictly increase when the change after each deletion commits later than the deletion's entry time |
| `History.EarlierReportGivesGap` | firestore-document-histories/functions/src/change_tracker.ts:44-46 | if every deletion's before side reports a time earlier than the deletion's own commit, that gap holds |
| `History.DeleteRecreateTie` | firestore-document-histories/functions/src/change_tracker.ts:44-48 | a deletion whose before side reports its own commit time c, followed by a re-creation at c + 1, gives two entries at the same time |

## Left out

- The diff engine `getHistoryDiffs` (`./diff`) is not part of this model: it is a parameter, and no property of the diff itself (added, removed and changed fields) is stated.
- `ChangeTracker.GetTimestamp`: requires a valid change (at least one side exists), which the event source guarantees; on a change where neither side exists the source classifies DELETE and then reads the update time of a missing snapshot, which fails with a JavaScript TypeError that the model does not represent.
- `ChangeTracker.GetTimestamp`: does not model `Timestamp.toDate()` dropping sub-millisecond precision or the range limits of JavaScript `Date`; update times are integer milliseconds.
- `History.HistoryTimesNonDecreasing`: assumes commit times are whole milliseconds. Firestore timestamps are finer, and `toDate()` drops the sub-millisecond part. Writes within one millisecond can then give entry times that go down. Example: update at 1000.5 ms (entry 1000), delete at 1000.8 ms whose before side reports 1000.8 (entry 1001), re-create at 1000.9 ms (entry 1000).
- `History.HistoryTimesIncrease`: the same whole-millisecond assumption; the model also takes a deletion's before side to report a time between the previous commit and the deletion's own commit, covering both readings of the bug 129264426 note.
- The unused `context` parameter of `getTimestamp` and the unused `lodash` import.
- Firestore snapshot metadata other than existence, update time and body (document reference, read time, create time), and field value types other than null, boolean, number, string, array and map (timestamps, geo points, references, bytes). Numbers are exact reals, not floating point.
- `ChangeTracker.GetData`: the body is a map, so the insertion order of JavaScript object keys (where `__diff` ends up) is not modelled; the in-place assignment is a map update, which is the same since `after.data()` returns a fresh object.
- Pairing the body with the timestamp and persisting the entry happen in the caller, not in this file; trigger wiring, event delivery and concurrent invocations are outside it too.
