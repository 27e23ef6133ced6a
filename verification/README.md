# Student housing dashboard: record lists with undo

This project is a Dafny model of the list handling in a student-housing
administration dashboard. The dashboard has four CRUD pages: students, feedback,
maintenance requests and documents. Each keeps an in-memory list of records keyed
by a numeric `id` and changes it only with whole-list array operations:

- create appends a record whose id is one more than the largest id, or 1 for an empty list;
- status change maps over the list and replaces the status of matching ids;
- delete filters out an id, and the toast that follows offers an undo button;
- the students page adds a full-record edit and a case-insensitive search.

The header keeps a notification list with an unread count, mark-one-read and
mark-all-read.

Every handler is modelled as a pure function from the state visible when the
handler (or its undo closure) was created to the new state. This makes the
closure behaviour of the undo buttons explicit.

Modules:

- `Common`: `Option`, `Result` and an opaque `Date`.
- `Seqs`: order-preserving `Filter`, `Count` and the subsequence relation.
- `Collection`: the generic `Record<S, D>(id, status, data)`, `NextId`, `Create`,
  `SetStatus`, `SetAllStatus`, `ReplaceById`, `RemoveById`, the undo action and
  `SnapshotDelete`. `S` is the page's status type and `D` its other fields.
- `Text`: ASCII `toLowerCase` and `includes`.
- `Students`, `Feedback`, `Maintenance`, `Documents`: one module per page. Each
  instantiates `Record` with its own fields and validation.
- `Notifications`: the header. A notification's `read` flag sits in the record's
  status slot, so mark-as-read is a status change to `true`.

Behaviour of the code that a reader might not expect, and that the model keeps:

- The feedback, maintenance and documents pages keep no undo buffer. Their undo
  closure sets the list to the post-delete snapshot plus the deleted record, so
  anything changed between the delete and the undo is lost
  (`Feedback.UndoDropsLaterSubmission`).
- On the students page, `deletedStudent` is set on every delete, even when the id
  is absent, and it is never cleared.
- Adding a student takes the status chosen in the form (default `Pending`). The
  other pages always start at `"pending"`.
- The maintenance date picker can be cleared, and the schema's `z.date()` then
  rejects the form, so the date of the submitted values is optional.

## Model

| member | source | states |
|---|---|---|
| Seqs.Filter | components/header.tsx:42 | the result keeps exactly the elements satisfying the predicate, in their original order (a subsequence), and its length is their count |
| Seqs.CountIsIndexCount | components/header.tsx:42 | the counted length equals the number of positions whose element satisfies the predicate |
| Collection.MaxId | app/students/page.tsx:131 | `Math.max` over ids is an upper bound of every id and is itself some record's id |
| Collection.NextId | app/feedback/page.tsx:114 | a new id exceeds every existing id, so it is fresh; it is 1 on an empty list and one more than an existing id otherwise |
| Collection.Create | app/students/page.tsx:131-142 | appending a new record adds exactly one record at the end with the given status and fields, keeps earlier records, and keeps ids unique |
| Collection.SetStatus | app/feedback/page.tsx:147-150 | the mapped status change alters only the status of matching-id records; length, order, ids and other fields stay; an absent id leaves the list equal |
| Collection.SetStatusIdempotent | components/header.tsx:45 | applying the same status change twice equals applying it once |
| Collection.SetAllStatus | components/header.tsx:49 | every record gets the new status; length, order, ids and other fields stay |
| Collection.ReplaceById | app/students/page.tsx:169 | every record with the edited record's id becomes the edited record and all others stay in place; length and ids are preserved, so uniqueness is too |
| Collection.RemoveById | app/feedback/page.tsx:132 | the filter leaves no record with the id, keeps every other record in order, shrinks the list by the number of matches, and is the identity when the id is absent |
| Collection.RemoveByIdKeepsUnique | app/maintenance/page.tsx:144 | removing by id keeps ids unique |
| Collection.RemovePresentRecord | app/documents/page.tsx:142 | with unique ids, removing a present record's id takes away that record and nothing else |
| Collection.SnapshotDelete | app/maintenance/page.tsx:141-157 | delete removes the id; the undo is a fixed snapshot: the post-delete list followed by the deleted record |
| Collection.DeleteThenUndo | app/maintenance/page.tsx:144-152 | with unique ids, delete then undo yields the same records with unique ids, the restored one last, whatever the list was at click time |
| Text.LowerKeepsOccurrence | app/students/page.tsx:119-122 | a substring occurrence survives lower-casing both strings |
| Students.AddStudent | app/students/page.tsx:125-142 | add is rejected exactly when one of the five required fields is empty; otherwise one student with a fresh next id, the form's fields and the form's status is appended, earlier students unchanged |
| Students.EditStudent | app/students/page.tsx:155-169 | no current student: no change; an empty required field rejects; otherwise students with the edited id are replaced, others stay, and length and id uniqueness are kept |
| Students.Search | app/students/page.tsx:117-123 | a student is shown if and only if the lower-cased term occurs in its lower-cased name, email, room or program; the result keeps roster order and shows every matching entry, duplicates included, so its length is the number of matching students; the empty term shows everyone |
| Students.SearchIgnoresCase | app/students/page.tsx:117-123 | terms that lower-case alike show the same students |
| Students.SearchShowsVerbatimMatch | app/students/page.tsx:119-122 | a student whose field contains the term verbatim is always shown |
| Students.DeleteStudentAsWritten | app/students/page.tsx:176-195 | delete removes the id and stores the current student; the undo does nothing when no student was deleted before, and otherwise appends the previously deleted student |
| Students.DeleteStudent | app/students/page.tsx:176-195 | corrected delete: the undo appends the student this delete removed |
| Students.DeleteStudentThenUndo | app/students/page.tsx:179-189 | with the corrected undo, delete then undo gives back the same students with unique ids, the deleted one last |
| Students.StaleUndoRestoresWrongStudent | app/students/page.tsx:188-189 | as written, the first undo does not restore the deleted student, and the second restores the first-deleted student instead |
| Students.StaleUndoDuplicatesId | app/students/page.tsx:131-189 | as written, delete, add, delete, undo produces two students with the same id |
| Feedback.Submit | app/feedback/page.tsx:46-123 | rejected exactly when the title is under 2 or the comment under 10 characters, naming each failed field; otherwise one "pending" item with a fresh next id and the form's values is appended |
| Feedback.ChangeStatus | app/feedback/page.tsx:147-153 | only the status of matching-id items changes; other fields, items, length and order stay; an absent id changes nothing |
| Feedback.DeleteFeedback | app/feedback/page.tsx:129-145 | no current item: no change and no undo; otherwise the id is removed in order, and undo's snapshot is the post-delete list followed by the item |
| Feedback.DeleteFeedbackThenUndo | app/feedback/page.tsx:132-140 | delete then undo yields the same items with unique ids, the deleted one last |
| Feedback.UndoDropsLaterSubmission | app/feedback/page.tsx:139-140 | feedback submitted between a delete and its undo is lost when undo is clicked |
| Maintenance.Submit | app/maintenance/page.tsx:49-135 | rejected exactly when title is under 2, description under 10 or location under 2 characters, or no date is picked, naming each failed field; otherwise one "pending" request with a fresh next id, the form's values and the picked date is appended |
| Maintenance.ChangeStatus | app/maintenance/page.tsx:159-165 | only the status of matching-id requests changes; everything else stays |
| Maintenance.DeleteRequest | app/maintenance/page.tsx:141-157 | no current request: no change; otherwise the id is removed in order, and undo's snapshot is the post-delete list with the request at the end |
| Maintenance.DeleteRequestThenUndo | app/maintenance/page.tsx:144-152 | delete then undo yields the same requests with unique ids, the deleted one last |
| Maintenance.UndoMovesRequestToEnd | app/maintenance/page.tsx:144-152 | deleting request 2 of 1, 2, 3 leaves 1, 3, and undo gives 1, 3, 2 |
| Documents.Upload | app/documents/page.tsx:48-132 | rejected exactly when the title is under 2 characters or no file is selected, the title check first; the description is free; otherwise one "pending" document with a fresh id, the file's name and formatted size is appended |
| Documents.ChangeStatus | app/documents/page.tsx:157-163 | only the status of matching-id documents changes; everything else stays |
| Documents.DeleteDocument | app/documents/page.tsx:139-155 | no current document: no change; otherwise the id is removed in order, and undo's snapshot is the post-delete list followed by the document |
| Documents.DeleteDocumentThenUndo | app/documents/page.tsx:142-150 | delete then undo yields the same documents with unique ids, the deleted one last |
| Notifications.UnreadCount | components/header.tsx:42 | the unread count is the number of positions whose notification is unread; it is 0 exactly when all are read |
| Notifications.MarkAsRead | components/header.tsx:44-46 | notifications with the id become read; every other notification and every id, title and message stay |
| Notifications.MarkAllAsRead | components/header.tsx:48-50 | every notification is read and the unread count is 0; ids, titles, messages, length and order stay |
| Notifications.MarkAsReadCount | components/header.tsx:42-45 | marking an id read lowers the unread count by exactly the number of unread notifications with that id |
| Notifications.MarkAsReadNeverIncreases | components/header.tsx:42-45 | marking as read never raises the unread count, and lowers it when an unread notification has the id |
| Notifications.MarkAsReadIdempotent | components/header.tsx:45 | marking the same id read twice equals marking it once |

## Left out

- Rendering, dialog open and close flags, badges, icons and star ratings are presentation only.
- Toast notifications are side effects. Only the guard that aborts a handler is modelled.
- Resetting the forms after a submission is not modelled: `setNewStudent`, `form.reset` and `setSelectedFile(null)`.
- `openEditDialog`, `openDeleteDialog` and `handleFileChange` only store the record or file that a handler later receives, so that value is a parameter.
- The optional, never-set `avatar` field of a student is left out.
- zod and react-hook-form are modelled as the length predicates of each schema. zod counts UTF-16 code units, the model counts characters.
- `formatFileSize` uses logarithms, float division and `toFixed`, so it is left out. It is a parameter of `Documents.Upload`.
- `new Date()` reads the clock, so it is the `now` parameter. Dates are opaque values that are only copied.
- Text.LowerKeepsOccurrence: `toLowerCase` is modelled over ASCII letters only; locale and other Unicode case mappings are not modelled.
- Ids are JavaScript numbers. The model uses unbounded integers, which agree below 2^53.
- React batching and scheduling are left out. Each handler reads the state captured when its closure was created.
- The dashboard, sidebar and layout hold static numbers, route highlighting and page composition, with no list logic.
- Collection.UniqueIds is not proved to hold across arbitrary sequences of handlers. On the students page it can fail (`Students.StaleUndoDuplicatesId`).

## Findings

| source | as written | input that shows it | evidently intended | confidence | as-written member | corrected member |
|---|---|---|---|---|---|---|
| app/students/page.tsx:188-189 | the undo closure reads `deletedStudent` from the render before this delete stored the current student | roster Ann (1), Bob (2), nothing deleted yet: delete Ann and click undo, and Ann stays gone; then delete Bob and click undo, and Ann comes back while Bob stays gone | undo re-appends the student this delete removed, as on the other three pages | not executed; high | Students.DeleteStudentAsWritten, shown by Students.StaleUndoRestoresWrongStudent | Students.DeleteStudent, proved by Students.DeleteStudentThenUndo |
