# Task manager: the task store, its REST handlers and the two page components

This project models the logic of a small task-management application.

- **The backend `/tasks` router.** It lists, gets, creates, updates and deletes rows of a single `task` table. Create validates the title and then the status, and normalises its input: titles and descriptions are trimmed, a blank description becomes NULL, the status defaults to `todo`, and an empty due date becomes NULL. Update first checks that the id exists and then validates the status. It then assigns only the fields whose keys are present in the body.
- **The frontend list page.** It fetches all tasks, filters them by status, labels and colours each status, and removes a task from its local list after a confirmed delete.
- **The frontend add page.** It holds the form state, validates the title on the client, and builds the create payload.

## How the model is organised

- `js_text.dfy`, module `JsText`: JavaScript's `String.prototype.trim`, written out over the ECMAScript whitespace and line-terminator code points.
- `task_entity.dfy`, module `TaskEntity`: the `TaskStatus` enum and the `Task` record. The record has nullable `description` and `dueDate`, and timestamps that are clock readings.
- `task_routes.dfy`, module `TaskRoutes`: request bodies and handler outcomes.
  - A request field is `Absent` (undefined), `Null` or `Val(string)`. JavaScript truthiness is the predicate `Truthy`.
  - The table is the class `TaskStore`, holding `tasks: map<string, Task>`. Each handler is a method that returns an `Outcome`: `Ok`, `Created`, `OkList`, `NoContent`, `BadRequest(msg)`, `NotFound` or `InternalError`.
  - The validators and the create normalisation are pure functions. The partial update is specified by the function `Merge`.
  - Module `RouteScenarios`, in the same file, chains several requests to one store. Their results are proved from the handlers' contracts alone.
- `home_page.dfy`, module `HomePage`: the list page. Its state is the class `HomePageState` (`tasks`, `loading`, `error`, `filter`).
- `add_task_page.dfy`, module `AddTaskPage`: the add page. Its state is the class `AddTaskPageState` (`form`, `loading`, `error`, and the router `location`).

## Parameters in place of the environment

Some values come from outside the code, so the model takes them as parameters:

- The generated UUID is a parameter `id`, with `requires id !in tasks`.
- The insertion or update time is a parameter `now`. The store keeps `clock`, the latest time it has written, and writing handlers require `clock <= now`: the clock does not run backwards.
- The user's answer to the confirmation dialog and the success or failure of each API call are parameters of the page handlers.

## Record invariants the update handler does not keep

A created record always has a non-blank trimmed title and a status from the enum. The update handler does not keep either property:

- The status check at backend/src/routes/tasks.ts:83 tests truthiness, so `status: ""` passes it (`StatusRejected` is false exactly for absent, null, `""` and the enum values). Lines 94-96 then store `""` verbatim (`EmptyStatusStored`, `MergeStatusValidIff`).
- Lines 88-90 trim the title without checking it again, so a whitespace-only title is stored as `""` (`MergeBlankTitle`).
- `OutOfEnumOnlyUnderAll` shows what the list page then does with a task whose status is `""`: it appears under `'all'` only.

Explicit nulls and empty values on update:

- A description sent as `null`, `""` or whitespace-only becomes NULL.
- A due date sent as `null` or `""` becomes NULL. A whitespace-only due date is truthy and is kept.
- A `null` title throws on `trim()`. A `null` status reaches the NOT NULL `status` column and the save fails. Both give a 500 and save nothing. The status check runs first, so a bad status still gives 400.

## Model

| member | source | states |
|---|---|---|
| `JsText.TrimEnd` | backend/src/routes/tasks.ts:56 | the result is the prefix of the input before a run of whitespace, and it does not end with whitespace |
| `JsText.Trim` | backend/src/routes/tasks.ts:56 | `trim()` has no whitespace at either end, and it is empty exactly when the input is all whitespace |
| `JsText.TrimmedAtShift` | backend/src/routes/tasks.ts:56 | a leading whitespace character moves the trimmed piece one place right, and the text around it stays whitespace only |
| `JsText.TrimIsSlice` | backend/src/routes/tasks.ts:56 | `trim()` returns a contiguous piece of its input with only whitespace before and after it; with `Trim`'s contract this determines the result |
| `JsText.TrimOfTrimmed` | backend/src/routes/tasks.ts:89 | trimming a string that is already trimmed returns it unchanged |
| `JsText.TrimIdempotent` | frontend/app/add/page.tsx:34 | trimming twice gives the same result as trimming once |
| `TaskEntity.IsStatusValue` | backend/src/entity/Task.ts:3-7 | a string is a status value exactly when it is in `Object.values(TaskStatus)` = todo, in_progress, done |
| `TaskEntity.ParseStatus` | backend/src/entity/Task.ts:3-7 | returns the enum member whose value is the string, or none exactly when no member has that value |
| `TaskEntity.StatusValuesDistinct` | backend/src/entity/Task.ts:3-7 | the enum has exactly three members with pairwise different values, and each value parses back to its member |
| `TaskRoutes.HttpStatus` | backend/src/routes/tasks.ts:63 | an outcome has a 2xx code exactly when it is a success (200, 201 or 204) |
| `TaskRoutes.TitleMissing` | backend/src/routes/tasks.ts:46-48 | the title is missing exactly when it is absent, null, or whitespace-only (including "") |
| `TaskRoutes.StatusRejected` | backend/src/routes/tasks.ts:50-52 | a status is rejected exactly when it is a non-empty string that no enum member has; absent, null and `""` pass |
| `TaskRoutes.DescriptionValue` | backend/src/routes/tasks.ts:57 | absent, null and blank descriptions become NULL; any other description is stored trimmed and non-empty |
| `TaskRoutes.DueDateValue` | backend/src/routes/tasks.ts:59 | the due date is NULL exactly when the field is absent, null or "" |
| `TaskRoutes.StatusOrDefault` | backend/src/routes/tasks.ts:58 | for a status that passed validation, the stored status is always an enum value: the given one, or `todo` when the field is falsy |
| `TaskRoutes.NewTask` | backend/src/routes/tasks.ts:55-60 | the created record has the given id, `createdAt = updatedAt = now`, the trimmed non-blank title, a NULL or trimmed non-blank description, a truthy status as given and `todo` otherwise, and a truthy due date as given and NULL otherwise |
| `TaskRoutes.Merge` | backend/src/routes/tasks.ts:88-99 | a field whose key is absent keeps its value; a present field takes its new value: the trimmed title, the description normalised as on create (null or blank is NULL), the status verbatim, the due date or NULL when falsy; `id` and `createdAt` never change; `updatedAt` becomes the update time |
| `TaskRoutes.NewerListedFirst` | backend/src/routes/tasks.ts:11-15 | in a listing ordered newest first, a record created strictly later comes earlier |
| `TaskRoutes.NewestExists` | backend/src/routes/tasks.ts:11-15 | every non-empty set of rows has a row with the latest `createdAt`, which is the row the ordering puts first |
| `TaskRoutes.ListStep` | backend/src/routes/tasks.ts:11-15 | appending the newest remaining row to a partial listing keeps it newest first, duplicate-free and faithful to the table |
| `TaskRoutes.AssignFields` | backend/src/routes/tasks.ts:87-99 | assigning the present fields one by one to the fetched record, then stamping `updatedAt`, gives `Merge` |
| `TaskRoutes.PutKeepsRowsValid` | backend/src/entity/Task.ts:30-34 | saving a row stamped with a clock reading no earlier than the last keeps every row under its id with `createdAt <= updatedAt <= clock` |
| `TaskRoutes.TaskStore.constructor` | backend/src/routes/tasks.ts:6 | the table starts empty and satisfies its invariant |
| `TaskRoutes.TaskStore.List` | backend/src/routes/tasks.ts:9-21 | returns 200 with every stored record exactly once, nothing else, ordered by `createdAt` descending |
| `TaskRoutes.TaskStore.Get` | backend/src/routes/tasks.ts:24-38 | returns 200 with the record stored under the id, or 404 when there is none |
| `TaskRoutes.TaskStore.Create` | backend/src/routes/tasks.ts:41-68 | a missing title gives 400 "Title is required" first; otherwise a bad status gives 400 "Invalid status value"; both leave the store unchanged; otherwise 201 with `NewTask`, added under the fresh id and nothing else changed |
| `TaskRoutes.TaskStore.Update` | backend/src/routes/tasks.ts:71-107 | an unknown id gives 404 before any validation; a bad status gives 400; a null title or status gives 500; all three leave the store unchanged; otherwise 200 with `Merge` of the stored record, and only that row changes |
| `TaskRoutes.TaskStore.Delete` | backend/src/routes/tasks.ts:110-124 | removes the row and returns 204 when it existed; otherwise returns 404 and changes nothing |
| `TaskRoutes.MergeStatusValidIff` | backend/src/routes/tasks.ts:83-96 | after an accepted update, the status is still an enum value if and only if the body's status is not "" |
| `TaskRoutes.EmptyStatusStored` | backend/src/routes/tasks.ts:83-96 | an update with `status: ""` passes the status check and stores `""`, which is not an enum value |
| `TaskRoutes.MergeBlankTitle` | backend/src/routes/tasks.ts:88-90 | update stores a whitespace-only title as "", so the record is no longer well formed |
| `TaskRoutes.MergeKeepsWellFormed` | backend/src/routes/tasks.ts:83-99 | an update with a non-blank title (if any) and a non-empty valid status (if any) keeps a well-formed record well formed |
| `TaskRoutes.MergeEchoIsNoOp` | backend/src/routes/tasks.ts:88-99 | saving a well-formed record from the edit page without changes alters nothing but `updatedAt` |
| `TaskRoutes.MergeTwice` | backend/src/routes/tasks.ts:88-99 | two updates in a row equal one update with the field-wise combination of the two bodies (last write wins per field) |
| `RouteScenarios.DeleteThenGet` | backend/src/routes/tasks.ts:110-119 | deleting an existing id gives 204; a following get and a second delete both give 404; the row is gone |
| `RouteScenarios.CreateThenGet` | backend/src/routes/tasks.ts:55-63 | create answers 201, and a following get answers 200 with the created record, which is well formed with `createdAt = updatedAt` |
| `RouteScenarios.CreateTwoThenList` | backend/src/routes/tasks.ts:11-16 | after creating A and then B at a later time, the list shows B before A |
| `HomePage.Filter` | frontend/app/page.tsx:72-74 | the filtered list is never longer than the list |
| `HomePage.FilterCounts` | frontend/app/page.tsx:72-74 | `filter` keeps exactly the elements that satisfy the predicate, each as often as it occurs |
| `HomePage.FilterConcat` | frontend/app/page.tsx:72-74 | `filter` keeps the original order: it distributes over concatenation |
| `HomePage.FilterKeepsAll` | frontend/app/page.tsx:72-74 | a filter that every element passes returns its input |
| `HomePage.VisibleTasks` | frontend/app/page.tsx:72-74 | with `'all'` the visible list is the task list; with a status it holds exactly the tasks with that status, each as often as in the list |
| `HomePage.VisibleTasksConcat` | frontend/app/page.tsx:72-74 | the visible list keeps the original order: filtering distributes over concatenation |
| `HomePage.CountWithStatus` | frontend/app/page.tsx:72-74 | counts the tasks with a given status, at most the length of the list |
| `HomePage.VisibleCount` | frontend/app/page.tsx:72-74 | a status filter shows as many tasks as have that status |
| `HomePage.StatusFiltersPartition` | frontend/app/page.tsx:72-74 | when every status is an enum value, each task appears under exactly one of the three status filters |
| `HomePage.OutOfEnumOnlyUnderAll` | frontend/app/page.tsx:72-74 | a task whose status is not an enum value is visible under `'all'` and under no status filter |
| `HomePage.WithoutId` | frontend/app/page.tsx:39 | after a delete no task with the id remains, and every other task keeps its multiplicity |
| `HomePage.WithoutIdConcat` | frontend/app/page.tsx:39 | removing an id keeps the relative order of the remaining tasks |
| `HomePage.WithoutAbsentId` | frontend/app/page.tsx:39 | removing an id that no task carries leaves the list unchanged |
| `HomePage.StatusLabel` | frontend/app/page.tsx:59-70 | todo is shown as "To Do", in_progress as "In Progress", done as "Done"; any other string is shown unchanged, and only enum values change |
| `HomePage.StatusColor` | frontend/app/page.tsx:46-57 | the gray class is given exactly to strings that are not enum values |
| `HomePage.StatusBadgesDistinct` | frontend/app/page.tsx:46-70 | different enum members get different labels and different colour classes |
| `HomePage.HomePageState.constructor` | frontend/app/page.tsx:9-12 | the page starts with no tasks, `loading` true, no error and filter `'all'` |
| `HomePage.HomePageState.SetFilter` | frontend/app/page.tsx:107 | a filter button changes the filter and nothing else |
| `HomePage.HomePageState.FetchTasks` | frontend/app/page.tsx:18-30 | on success the tasks are replaced and the error cleared; on failure the tasks are kept and the error is "Failed to fetch tasks"; `loading` is false afterwards either way |
| `HomePage.HomePageState.HandleDelete` | frontend/app/page.tsx:32-44 | without confirmation there is no request and nothing changes; after a successful delete the tasks with that id are removed; after a failed one the tasks are kept and the error is "Failed to delete task" |
| `AddTaskPage.WithField` | frontend/app/add/page.tsx:48-54 | the named input takes the new value and every other input keeps its own |
| `AddTaskPage.CreatePayload` | frontend/app/add/page.tsx:32-37 | the payload has the trimmed title and the status unchanged; the description is trimmed, or omitted when blank; the due date is omitted when "" |
| `AddTaskPage.ClientTitleCheckMatchesServer` | frontend/app/add/page.tsx:23-26 | the client rejects a title exactly when the server would reject the payload's title |
| `AddTaskPage.PayloadCreatesFormValues` | frontend/app/add/page.tsx:32-37 | a form with a non-blank title and an enum status is accepted by the server, and the record created has the trimmed title, the trimmed description or NULL, the chosen status, and the due date or NULL |
| `AddTaskPage.AddTaskPageState.constructor` | frontend/app/add/page.tsx:11-18 | the form starts with title "", description "", status `todo` and due date ""; not loading, no error |
| `AddTaskPage.AddTaskPageState.HandleChange` | frontend/app/add/page.tsx:48-54 | only the named form field changes; `loading`, `error` and navigation are untouched |
| `AddTaskPage.AddTaskPageState.HandleSubmit` | frontend/app/add/page.tsx:20-46 | a whitespace-only title sets "Title is required" and sends nothing; otherwise the payload is sent and `loading` ends false; success clears the error and navigates to "/"; failure sets "Failed to create task" |

## Left out

- The Express wiring, CORS, the body parsers, the health endpoint, the catch-all 404 and 500 middleware, and start-up and shutdown (backend/src/index.ts) are left out. They are I/O plumbing.
- The datastore configuration (backend/src/config/database.ts) and the sqlite command-line scripts (backend/scripts/) are left out. They are configuration and I/O.
- The `fetch` wrapper (frontend/services/api.ts), the layout, and all JSX rendering are left out. The page handlers receive API results as parameters.
- frontend/types/task.ts is not modelled separately. The frontend uses the same `Task` record.
- The edit page is not part of this model, with one exception. `TaskRoutes.EchoBody` is the body its submit sends for an unchanged record: frontend/app/edit/[id]/page.tsx, lines 33-38 fill the form and lines 60-65 build the body. The page's cutting of the due date to its date part (`split('T')[0]`) is not modelled, because due dates are kept as text.
- Datastore failures are modelled only where the code makes them certain: a `null` title or status in an update. Other datastore exceptions, which give 500, are not modelled.
- Request fields that are JSON numbers, booleans or objects are not modelled. Every present field is a string.
- Date parsing (`new Date(dueDate)`) is not modelled. The stored due date is the text the client sent.
- UUID generation and the ORM's timestamps are parameters, not modelled.
- Column constraints that a backing store may add are not modelled: the 255-character limit on `title`, or a check on the status values. The store keeps what the handler saves.
- TaskRoutes.TaskStore.Update: `updatedAt` is set on every accepted update, even one that changes no field. The ORM's skipping of a save that changes nothing is not modelled.
- TaskRoutes.TaskStore.List: records with equal `createdAt` may come in any order. The datastore's tie order is not modelled.
- HomePage.HomePageState.FetchTasks: the intermediate `loading = true` state while the request is in flight is not visible in the contract. Only the final state is stated.
- AddTaskPage.AddTaskPageState.HandleSubmit: the intermediate state is not visible in the contract. `loading` is true and `error` is cleared while the request is in flight; the contract shows this only as `error == None` after a success.
- AddTaskPage.AddTaskPageState.HandleChange: input names are limited to the four form inputs. `[name]: value` with any other name would add a new key, which is not modelled.
- Concurrent requests, last-write-wins races, React's asynchronous state updates and stale closures over `tasks` are left out. The model is sequential.
- The empty-list message that lower-cases the status label is not modelled, because it is rendering.
