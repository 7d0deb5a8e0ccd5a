# Download-task service core, modelled in Dafny

This project models the core of a small Go backend. Users create *tasks*, attach file links to them, and later collect the downloaded files as one zip archive. The model covers two layers:

- **The task store** (`TasksRepository`). It holds a map from task id to task record and an id counter. It hands out ids 0, 1, 2, … and never reuses one. Each operation reads, updates and re-stores one record. Each fails with `NotFound` when the id is unknown. The links, stored files and error notes of a task only grow.
- **The task service** (`TasksService`). It sits on top of the store:
  - it refuses new tasks with `Busy` once three are open (status Created or Processing);
  - it validates links and moves a task to Processing unless it is Failed;
  - it records each download outcome: one error note plus Failed for a failure, or the stored file path for a success;
  - when a task is read and it has ≥ 3 outcomes with ≥ 1 stored file, it writes Completed to the store, but returns the record it read before that write;
  - it names archives `<dir>/<id>_archive.zip` and records the path.

The network fetch, the file writes and the zip writing are not performed. Each method that depends on them takes their outcome as a parameter:

- `FetchResult`: a transport error, or a response with its status code;
- `SaveResult`: which file step failed, or saved;
- `ArchiveIo`: which archive step failed (for an entry, the index of the file), or written.

For every outcome, the contracts state exactly what the store records.

Files:

- `outcomes.dfy`: the error enum and the result types.
- `text.dfy`: the Go string operations used. These are prefix and suffix tests, `strings.Split` on one character (proved to invert a join, in both directions), and `%d` formatting (proved injective through a parse round trip).
- `repository.dfy`: the store, as a class with a `map<int, Task>` field and the counter `ptr`. Its invariant `Valid()` says the keys are exactly `0 .. ptr-1` and each record's id equals its key. That is why a fresh id is always free.
- `service.dfy`: the service, as a class over the store. Its invariant adds two facts:
  - every stored file path has the form `./backend/static/<id>_<segment>` of its own task, so every archive entry of task `id` is named `<id>_…`;
  - a task's archive path is empty until its archive is built, and then it is that task's own `./backend/archives/<id>_archive.zip`, so an archive download never serves another task's archive.
- `scenarios.dfy`: client call sequences, verified from the contracts alone.
  - `TaskLifecycle` follows one task from creation to archive.
  - `ArchivableWhilePending` builds, through service calls, a task that the status handler would archive while one of its downloads is still pending.
  - `ReopenExceedsCap` shows that the admission cap limits task *creation* only. Appending a link to a Completed task moves it back to Processing. So four tasks can be open at once: the cap of three bounds admissions, not the number of open tasks. The code is modelled as written.

Sharp edges kept as the code has them:

- `AppendLink` turns a Completed task back into Processing. It spares only Failed.
- `GetTask` returns the snapshot read before it writes Completed.
- A success after a failure leaves the status Failed.
- `strings.Split("", ",")` gives one empty extension, and every link ends with the empty string. So an empty allow-list, or an empty element in it, admits every link (`EmptyAllowListAdmitsAll`).
- The status handler decides whether to build an archive by counting links plus errors, not stored files plus errors. So it can build an archive before the completion rule holds, even while a download is pending (`ArchivableWhilePending`).

## Model

| member | source | states |
|---|---|---|
| `Repository.TasksRepository.constructor` | backend/internal/repository/tasks.go:31-34 | the store starts empty with the counter at 0, and the id invariant holds |
| `Repository.TasksRepository.CreateTask` | backend/internal/repository/tasks.go:36-53 | returns the old counter as the id and increments the counter; that id was unused; it inserts a Created task with empty lists and empty archive path; the invariant is kept |
| `Repository.TasksRepository.AppendLink` | backend/internal/repository/tasks.go:55-67 | unknown id: NotFound and nothing changes; otherwise exactly the link is appended to that task's links, and nothing else changes |
| `Repository.TasksRepository.AppendLoadedFileLink` | backend/internal/repository/tasks.go:69-81 | unknown id: NotFound and nothing changes; otherwise exactly the path is appended to that task's stored files, and nothing else changes |
| `Repository.TasksRepository.AppendError` | backend/internal/repository/tasks.go:83-93 | unknown id: NotFound and nothing changes; otherwise exactly the note is appended to that task's errors, and nothing else changes |
| `Repository.TasksRepository.UpdateTaskStatus` | backend/internal/repository/tasks.go:95-107 | unknown id: NotFound and nothing changes; otherwise only that task's status changes |
| `Repository.TasksRepository.GetTask` | backend/internal/repository/tasks.go:109-119 | returns the stored record as it is, or NotFound; it modifies nothing |
| `Repository.TasksRepository.CountActiveTasks` | backend/internal/repository/tasks.go:121-135 | returns min(number of Created or Processing tasks, 3), with the early exit once the count passes 3; it modifies nothing |
| `Repository.TasksRepository.UpdateArchiveName` | backend/internal/repository/tasks.go:137-149 | unknown id: NotFound and nothing changes; otherwise only that task's archive path changes |
| `Service.TasksService.constructor` | backend/internal/service/tasks.go:21-26 | the service wraps the given store, whose file paths and archive paths must already name their own tasks (as the empty store does), and the service invariant holds |
| `Service.TasksService.CreateTask` | backend/internal/service/tasks.go:28-33 | Busy with the store untouched when ≥ 3 tasks are open; otherwise exactly the store's creation; a creation never leaves more than 3 open tasks |
| `Service.TasksService.AppendLink` | backend/internal/service/tasks.go:35-63 | Validation, with nothing stored, for an empty link or one without an http:// or https:// prefix; NotFound for an unknown id; otherwise the link is appended and the status becomes Processing unless it was Failed |
| `Service.TasksService.HandleError` | backend/internal/service/tasks.go:137-147 | a known task gets exactly one more error note, and its status becomes Failed; an unknown id changes nothing |
| `Service.TasksService.DownloadFile` | backend/internal/service/tasks.go:65-135 | a failure (extension, transport, status ≠ 200, directory, file, copy) appends exactly one note and sets Failed, with stored files unchanged; a success appends exactly `./backend/static/<id>_<segment>`, with status and errors unchanged |
| `Service.CheckExtension` | backend/internal/service/tasks.go:70-76 | passes if and only if some comma-separated allow-list element is a suffix of the link |
| `Service.DownloadFailure` | backend/internal/service/tasks.go:70-126 | a download succeeds if and only if the extension passes, the response is 200 and the file is saved; a refused extension is reported as such whatever the fetch gave; an admitted link reports a transport error, then a status other than 200, before any file step |
| `Service.DefaultAllowList` | backend/internal/config/config.go:13 | with the default list, exactly the links ending in .pdf, .jpeg or .jpg pass |
| `Service.EmptyAllowListAdmitsAll` | backend/internal/service/tasks.go:71-72 | an empty allow-list admits every link |
| `Service.FileNameFromUrl` | backend/internal/service/tasks.go:149-155 | the result has no '/', is a suffix of the link, and is the whole link or follows a '/' |
| `Service.FileNameFromUrlUnique` | backend/internal/service/tasks.go:149-155 | those three properties determine the result: it is the text after the last '/' |
| `Service.TasksService.GetTask` | backend/internal/service/tasks.go:157-169 | NotFound for an unknown id; otherwise returns the record read before any update, and stores Completed exactly when stored files + errors ≥ 3 and stored files ≥ 1, whatever the prior status |
| `Service.CompletionIsStable` | backend/internal/service/tasks.go:162 | once a task meets the completion rule, every grown version of it still meets it |
| `Service.TasksService.MakeArchive` | backend/internal/service/tasks.go:171-197 | writes one entry per stored file, named by its base name, in order, up to a failing entry; on success it records `./backend/archives/<id>_archive.zip` in the store and in the result; on any failure the store and the record are untouched |
| `Service.ArchiveEntries` | backend/internal/service/tasks.go:185-189 | one entry per file, in order; each is a '/'-free suffix of its file path that is the whole path or follows a '/', which by `FileNameFromUrlUnique` is exactly the text after the last '/' |
| `Service.ArchiveEntriesTagged` | backend/internal/service/tasks.go:206 | in a store kept by the service, every archive entry of task `id` starts with `<id>_` |
| `Service.StoredFileEntryName` | backend/internal/service/tasks.go:95 | the base name of a stored file path of task `id` is `<id>_<segment>` |
| `Service.ArchivePathsDistinct` | backend/internal/service/tasks.go:172 | distinct tasks get distinct archive paths, and an archive path is never empty |
| `Service.TasksService.GetArchivePath` | backend/internal/service/tasks.go:219-228 | returns the recorded archive path; NotFound for an unknown id or an empty path; a path it returns is `./backend/archives/<id>_archive.zip` of the requested task; it modifies nothing |
| `Service.ValidLink` | backend/internal/service/tasks.go:36-41 | a link is accepted if and only if it starts with `http://` or `https://`; the emptiness test never decides on its own |
| `Service.ReachedCompletion` | backend/internal/service/tasks.go:162 | a task with no stored file never completes, however many errors it has; three stored files always complete it |
| `Service.ArchiveEligible` | backend/internal/routes/tasks.go:114 | a Failed or Completed task that meets the completion rule, and has no more stored files than links, always qualifies for an archive |
| `Service.StoredFilePath` | backend/internal/service/tasks.go:95 | the stored path of a download for task `id` is `./backend/static/<id>_` followed by a '/'-free name: a file of that task |
| `Service.ArchivePathFor` | backend/internal/service/tasks.go:172 | the archive path lies in `./backend/archives/` and ends with `<id>_archive.zip` |
| `Service.ErrorNoteNamesTask` | backend/internal/service/tasks.go:139 | the note `handleErr` records names its task: equal notes come from the same id |
| `Text.SplitJoin` | backend/internal/service/tasks.go:150 | splitting the join of separator-free parts gives the parts back |
| `Text.JoinSplit` | backend/internal/service/tasks.go:71 | joining the parts of a split gives the string back |
| `Text.Split` | backend/internal/service/tasks.go:150 | like Go's `strings.Split` on one character: at least one part, even for the empty string, and no part contains the separator; `JoinSplit` shows that no character is lost |
| `Text.Itoa` | backend/internal/service/tasks.go:95 | `%d` output is non-empty and made only of digits and '-' |
| `Text.ItoaParse` | backend/internal/service/tasks.go:172 | reading back what `%d` wrote gives the integer |
| `Text.ItoaInjective` | backend/internal/service/tasks.go:172 | `%d` writes distinct integers differently, and never with '/' or '_' |
| `Scenarios.TaskLifecycle` | backend/internal/service/tasks.go:28-228 | for any allow-list, one admitted and two refused links: Processing after the stored file; Failed after the two refusals; the first read returns Failed and stores Completed; the next read returns Completed; no archive path before the build, and the archive path after it; the archive holds `0_<segment>` |
| `Scenarios.ArchivableWhilePending` | backend/internal/routes/tasks.go:114 | a task with three links, one stored file and one refused download, read as the status handler reads it, is Failed and archive-eligible while the completion rule does not hold |
| `Scenarios.ReopenExceedsCap` | backend/internal/service/tasks.go:28-55 | a completed task, three admitted tasks, and one more link on the completed task leave 4 open tasks |
| `Scenarios.ExampleLinks` | backend/internal/config/config.go:13 | of three sample links, one .pdf and two .exe, all are well-formed, and under the default list only the .pdf link passes |

## Left out

- The download goroutine and the capacity-3 semaphore channel that throttles downloads. This is concurrency. `AppendLink` does not start a download; each download is a separate, sequential `DownloadFile` call.
- The store's mutex. Each Dafny method runs to completion, so each operation is atomic already. Interleavings of other calls between the three store calls of `AppendLink` are not modelled.
- `http.Get`, `os.MkdirAll`, `os.Create`, `io.Copy` and the zip writer. These are network and file I/O. They are replaced by outcome parameters. The bytes written are not modelled.
- `Service.TasksService.MakeArchive`: an entry whose copy fails midway is not counted among the entries written. The error from closing the zip writer, which the code ignores, is not modelled.
- `Service.TasksService.DownloadFile`: no wrapped error text is modelled. The code wraps an underlying error with `%w` into the transport, directory, file-create, copy and record notes (tasks.go:82, 99, 106, 115, 131). Notes are fixed English paraphrases of the Go messages. The ids and status codes they contain are written with `%d`.
- Go strings are byte strings; here a `string` is a sequence of characters. Prefix, suffix and split on the ASCII separators agree with Go only for valid UTF-8 text. A link or form value holding invalid UTF-8 cannot be represented.
- `Repository.TasksRepository.CreateTask`: `ptr` is an `int64` in the code, and it would wrap after 2^63 creations; here it is an unbounded integer.
- `Repository.TasksRepository.CountActiveTasks`: it visits the records in increasing id order, which is one of the orders Go's map range may take. The result does not depend on the order. The `int8` result is modelled as an integer in 0..3.
- The HTTP handlers, status codes, JSON encoding and routes (`routes/`). Only the archive condition of the status handler is kept, as `ArchiveEligible`.
- Server setup, CORS, middleware, shutdown cleanup (`app/main.go`) and logging (`middleware/logger`, the `slog` calls). The store errors that `handleErr` only logs are dropped.
- Loading configuration from the environment. The allow-list is a string parameter.
- The constructors in `service.go` and `repository.go`. They only wire objects together.
