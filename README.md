# Task board data layer

A model, in Dafny, of the data layer of a small task board. The board shows two
collections of tasks: calendar tasks, which carry a date, and open tasks, which
are kept in a user-chosen order. Both are read from CSV files. A user can mark a
task completed or open again, and can drag open tasks into a new order. After
every change both collections are written back out as CSV.

The model has four modules, one per source file:

- `TaskTypes` (`task_types.dfy`): the task record as a tagged datatype
  (`CalendarTask` | `OpenTask`), the two-valued `Status`, status normalisation
  (`ensureValidTaskStatus`) and the calendar/open discriminant (`isCalendarTask`).
  The record type is generic in its status field. `LooseTask` is a record as it
  arrives from untyped data, with any text as its status. `Task` is a normalised
  record.
- `CsvParser` (`csv_parser.dfy`): the CSV codec one level above the CSV reader
  and writer. A data row is a map from header name to cell text. A header the
  row lacks has no entry. Header validation, row decoding, row encoding and the
  row-level round trip are modelled here.
- `App` (`app.dfy`): the application state as a class `TaskStore` with two
  sequence fields. Its two commands are toggling completion and replacing the
  open-task order. A third field, `saved`, logs every export. The pure toggle
  over a collection is the function `ToggleStatus`.
- `OpenTasks` (`open_tasks.dfy`): the drag-and-drop reorder. `Moved` says where
  every element ends up. `HandleDragEnd` is proved to compute it with the two
  splices the component performs.

Facts proved about the model that are worth knowing:

- Decoding the encoder's rows returns every task in order, with its title,
  details, date and status. Each record gets a new id from the supply, and its
  priority is gone (`CalendarRoundTrip`, `OpenRoundTrip`).
- An exported empty collection is a header-only file. Reading it back fails
  with "CSV is empty" (`EmptyExportRejected`). So the round trip holds only for
  non-empty collections.
- Only the first row's keys are validated. A later row that lacks every
  column still decodes, to empty texts and status open (`OnlyFirstRowValidated`).

Two details of the code that the model keeps:

- `row.Title || ''` gives "" both for an absent cell and for an empty one
  (`TextOrEmpty`).
- `handleTaskReorder` does not check that its argument is a permutation of the
  current open tasks, and `HandleTaskReorder` does not require it. It asks only
  that the argument holds open tasks. TypeScript's structural types do not
  ensure that (`OpenTask` adds nothing to the base record, so a calendar task
  fits it too). It holds because the only caller passes a rearranged copy of
  the open tasks (`src/components/OpenTasks.tsx:15-18`), which `MovedKeepsOpen`
  shows stays all open.

## Model

| member | source | states |
|---|---|---|
| `TaskTypes.EnsureValidTaskStatus` | src/types/task.ts:30-37 | same length and order; every field other than status is copied; a status of "open" or "completed" is kept; any other status becomes open |
| `TaskTypes.EnsureValidKeepsValid` | src/types/task.ts:33-35 | records whose status is already valid come back unchanged, status included |
| `TaskTypes.EnsureValidIdempotent` | src/types/task.ts:30-37 | normalising twice gives the same as normalising once |
| `TaskTypes.IsCalendarTask` | src/types/task.ts:40-42 | true exactly when the record, seen as a JavaScript object, has a `date` property |
| `CsvParser.Join` | src/utils/csvParser.ts:15 | the result is as long as the parts together plus one separator fewer than there are parts, and starts with the first part |
| `CsvParser.JoinPlacesParts` | src/utils/csvParser.ts:15 | part k stands in the result at its start (after each earlier part and one separator per earlier part), a separator follows every part but the last, and the last part ends the result: the parts joined with one separator between neighbours |
| `CsvParser.MissingFields` | src/utils/csvParser.ts:10-12 | a name is reported exactly when it is required and absent from the keys; the report keeps the required order (a subsequence) |
| `CsvParser.MissingFieldsUnique` | src/utils/csvParser.ts:10-12 | for distinct required names, the ordered list of absent names is uniquely determined, and it is `MissingFields` |
| `CsvParser.ValidateCsv` | src/utils/csvParser.ts:5-17 | no rows fails with "CSV is empty"; otherwise it passes exactly when the first row has every required key, and fails with "Missing required fields: " and the missing names joined by ", " |
| `CsvParser.MissingHeadersMessage` | src/utils/csvParser.ts:10-16 | calendar data with only Title and Details fails with "Missing required fields: Date, Status" |
| `CsvParser.TextOrEmpty` | src/utils/csvParser.ts:29-31 | an absent cell gives ""; a present cell gives its text, and an empty cell gives "" |
| `CsvParser.DecodeStatus` | src/utils/csvParser.ts:32 | completed exactly when the cell is present and equals "completed" letter by letter ignoring ASCII case; absent or any other text gives open |
| `CsvParser.DecodeStatusExamples` | src/utils/csvParser.ts:32 | "completed" in any case decodes to completed; "Open", "done", "" and an absent cell decode to open |
| `CsvParser.DecodeStatusText` | src/utils/csvParser.ts:32 | the text written for a status decodes back to that status |
| `CsvParser.DecodeCalendarRow` | src/utils/csvParser.ts:27-33 | a calendar record with the supplied id (never a cell) and no priority; title, details and date are the cells or "" when absent; status is completed exactly when the Status cell reads "completed" in any case |
| `CsvParser.DecodeOpenRow` | src/utils/csvParser.ts:44-49 | an open record with the supplied id (never a cell) and no priority; title and details are the cells or "" when absent; status is completed exactly when the Status cell reads "completed" in any case |
| `CsvParser.DecodeRows` | src/utils/csvParser.ts:44-49 | one record per row, in row order, record i taking the i-th supplied id |
| `CsvParser.ParseCalendarTasks` | src/utils/csvParser.ts:19-34 | succeeds exactly when there is a row and the first row has Title, Details, Date and Status; otherwise fails with the validation message; on success one calendar record per row in order |
| `CsvParser.ParseOpenTasks` | src/utils/csvParser.ts:36-50 | succeeds exactly when there is a row and the first row has Title, Details and Status; otherwise fails with the validation message; on success one open record per row in order |
| `CsvParser.OnlyFirstRowValidated` | src/utils/csvParser.ts:10-12 | a second row with no cells at all still decodes, to empty texts and status open |
| `CsvParser.DecodedIdsDistinct` | src/utils/csvParser.ts:28 | given a supply of distinct ids, the decoded records have pairwise distinct ids |
| `CsvParser.EncodeCalendarRow` | src/utils/csvParser.ts:80-85 | the record's keys are exactly Date, Title, Details, Status; the Status cell is the status text, "open" or "completed"; decoding it with the task's id gives the task back without its priority |
| `CsvParser.EncodeOpenRow` | src/utils/csvParser.ts:90-94 | the record's keys are exactly Title, Details, Status; the Status cell is the status text, "open" or "completed"; for an open task, decoding it with the task's id gives the task back without its priority |
| `CsvParser.CalendarRowReencodes` | src/utils/csvParser.ts:27-33 | a calendar record with exactly the four columns and status "open" or "completed" is written back unchanged after decoding |
| `CsvParser.OpenRowReencodes` | src/utils/csvParser.ts:44-49 | an open-tasks record with exactly the three columns and status "open" or "completed" is written back unchanged after decoding |
| `CsvParser.EncodeRows` | src/utils/csvParser.ts:80-85 | one record per task, in collection order |
| `CsvParser.EncodeCalendarTasks` | src/utils/csvParser.ts:78-86 | header Date, Title, Details, Status; one row per task; each row's keys are exactly those columns, so id and priority are never written |
| `CsvParser.EncodeOpenTasks` | src/utils/csvParser.ts:88-95 | header Title, Details, Status; one row per task; each row's keys are exactly those columns, so id and priority are never written |
| `CsvParser.SaveTasks` | src/utils/csvParser.ts:77-95 | both texts carry their fixed headers and one row per task of their collection |
| `CsvParser.CalendarRoundTrip` | src/utils/csvParser.ts:27-85 | decoding the encoder's calendar rows gives each task back in order with title, details, date and status; the id is the new supplied one and the priority is dropped |
| `CsvParser.OpenRoundTrip` | src/utils/csvParser.ts:44-94 | decoding the encoder's open rows gives each task back in order with title, details and status; the id is the new supplied one and the priority is dropped |
| `CsvParser.EmptyExportRejected` | src/utils/csvParser.ts:6-8 | an exported empty collection reads back as the error "CSV is empty" |
| `App.Flip` | src/App.tsx:31 | the result is always the other status |
| `App.ToggleStatus` | src/App.tsx:29-33 | same length and order; only the status of a record may change; a record with the id has its status flipped; every other record is unchanged |
| `App.ToggleAbsentId` | src/App.tsx:29-33 | toggling an id no record carries leaves the collection equal to before |
| `App.ToggleTwice` | src/App.tsx:37-41 | toggling the same id twice restores the collection |
| `App.ToggleKeepsVariant` | src/App.tsx:29-41 | a toggled collection stays all-calendar or all-open |
| `App.TaskStore.constructor` | src/App.tsx:14-16 | the state holds the two loaded collections and nothing has been exported |
| `App.TaskStore.HandleTaskComplete` | src/App.tsx:27-45 | type open toggles the open collection, any other type toggles the calendar collection; the other collection is unchanged; the state after the change is exported |
| `App.TaskStore.HandleTaskReorder` | src/App.tsx:47-50 | the open collection becomes the argument verbatim; calendar tasks are untouched; the state after the change is exported |
| `App.TaskStore.Save` | src/App.tsx:43 | the collections are unchanged and the export of exactly the current pair, `saveTasks(calendarTasks, openTasks)`, is appended to the log |
| `OpenTasks.SpliceOut` | src/components/OpenTasks.tsx:16 | one element shorter; elements before the index stay, later ones move down one; the multiset loses exactly the removed element |
| `OpenTasks.SpliceIn` | src/components/OpenTasks.tsx:17 | one element longer; the new element sits at the index; earlier elements stay, later ones move up one; the multiset gains exactly the new element |
| `OpenTasks.Moved` | src/components/OpenTasks.tsx:15-17 | the result has the input's length and holds the source element at the destination |
| `OpenTasks.MovedBySplices` | src/components/OpenTasks.tsx:15-17 | the position-by-position description of a move equals splicing out at the source and back in at the destination |
| `OpenTasks.MovedIsPermutation` | src/components/OpenTasks.tsx:15-17 | a move keeps the length and the multiset of elements |
| `OpenTasks.MovedInPlace` | src/components/OpenTasks.tsx:16-17 | a move whose source equals its destination leaves the list unchanged |
| `OpenTasks.MovedBack` | src/components/OpenTasks.tsx:16-17 | moving from the destination back to the source undoes a move |
| `OpenTasks.MovedKeepsOpen` | src/components/OpenTasks.tsx:15-18 | a move of open tasks gives open tasks, so its result meets the reorder command's requirement |
| `OpenTasks.HandleDragEnd` | src/components/OpenTasks.tsx:13-19 | no destination gives no reorder; otherwise the copy-and-splice result is the move from source to destination |

## Left out

- The CSV text reader and writer (tokenising, quoting, skipping blank lines)
  are a third-party library. The model starts from the rows the reader yields
  and ends at the header-plus-records table given to the writer.
- ParseCalendarTasks, ParseOpenTasks, DecodeRows: the random identifier
  generator is replaced by a supply of ids passed in, which must hold at least
  one id per row; the generator it stands for never runs out.
- ValidateCsv: the guard against a missing (null) row list is not modelled,
  because the reader always returns a list.
- DecodeStatus: lower-casing covers ASCII letters only; the source's
  `toLowerCase` also folds other scripts.
- EnsureValidTaskStatus: the source returns the record type it was given; the
  model takes records with text statuses and returns records with a `Status`.
- Loading both files over the network at start-up, with its concurrent fetches
  and HTTP errors, is asynchronous I/O. `TaskStore`'s constructor stands for the
  state after a successful load.
- The download of each exported text (browser blob, link, click) is a side
  effect. The model records the pair of texts handed to it in `saved`.
- Error logging to the console, the loading flag and React's effect scheduling
  are not modelled.
- HandleDragEnd: the drag library's indexes are taken to lie within the list.
  JavaScript's `splice` with an index out of range or negative is not modelled.
- HandleDragEnd: the list is a value, so the input cannot be changed by the
  move. Modelling it as a shared mutable array is not needed for that property.
- The calendar grid, date grouping and date parsing rest on a date library and
  are rendering. The task detail dialog and the component that wires the lists
  together are presentation. None of these is part of this model.
