/**
 * The task service: admission of new tasks against the cap, link validation
 * and the status change it makes, the bookkeeping of one download, the
 * read-time completion rule, and the naming and recording of archives.
 *
 * The network fetch, the file writes and the zip writing are not performed:
 * each method that depends on them takes their outcome as a parameter
 * (FetchResult, SaveResult, ArchiveIo), and the model states exactly what the
 * store records for every outcome.
 */
module Service {
  import opened Outcomes
  import opened Text
  import opened Repository

  const StaticDir := "./backend/static"
  const ArchiveDir := "./backend/archives"

  // ---------------------------------------------------------------- links

  /**
   * A link the service accepts: non-empty and starting with an http or https
   * scheme. The emptiness test is subsumed by the scheme test.
   */
  predicate ValidLink(link: string)
    ensures ValidLink(link) <==> HasPrefix(link, "http://") || HasPrefix(link, "https://")
  {
    link != "" && (HasPrefix(link, "http://") || HasPrefix(link, "https://"))
  }

  /**
   * The last '/'-separated segment of a link (the whole link when it has no
   * '/'): a '/'-free suffix that is the whole link or follows a '/'.
   */
  function FileNameFromUrl(link: string): (name: string)
    ensures '/' !in name
    ensures HasSuffix(link, name)
    ensures |name| == |link| || link[|link| - |name| - 1] == '/'
  {
    var parts := Split(link, '/');
    SplitLast(link, '/');
    if |parts| == 0 then "" else parts[|parts| - 1]
  }

  /** The conditions above pin the segment down: any '/'-free suffix that follows a '/' (or is everything) is it. */
  lemma FileNameFromUrlUnique(link: string, name: string)
    requires '/' !in name && HasSuffix(link, name)
    requires |name| == |link| || link[|link| - |name| - 1] == '/'
    ensures FileNameFromUrl(link) == name
  {
    AfterLastUnique(link, '/', FileNameFromUrl(link), name);
  }

  // ------------------------------------------------------ file and archive names

  /**
   * Where a successful download of `link` for task `id` is stored:
   * `<dir>/<id>_<segment>`: a path of its task's shape.
   */
  function StoredFilePath(id: int, link: string): (p: string)
    ensures IsStoredFileOf(id, p)
  {
    var p := StaticDir + "/" + Itoa(id) + "_" + FileNameFromUrl(link);
    assert p == FilePrefix(id) + FileNameFromUrl(link);
    assert p[|FilePrefix(id)|..] == FileNameFromUrl(link);
    p
  }

  /**
   * Where the archive of task `id` is written: `<dir>/<id>_archive.zip`, in the
   * archive directory and ending with the task's id.
   */
  function ArchivePathFor(id: int): (p: string)
    ensures HasPrefix(p, ArchiveDir + "/") && HasSuffix(p, Itoa(id) + "_archive.zip")
  {
    var p := ArchiveDir + "/" + Itoa(id) + "_archive.zip";
    assert p[..|ArchiveDir + "/"|] == ArchiveDir + "/";
    p
  }

  /** The part of a stored file path that fixes the owning task. */
  function FilePrefix(id: int): string {
    StaticDir + "/" + Itoa(id) + "_"
  }

  /** `p` is a stored file path of task `id`: the task's prefix and then a '/'-free name. */
  predicate IsStoredFileOf(id: int, p: string) {
    HasPrefix(p, FilePrefix(id)) && '/' !in p[|FilePrefix(id)|..]
  }

  /** An update that keeps every task, its stored files and its archive path keeps both naming invariants. */
  lemma NamesKept(before: map<int, Task>, after: map<int, Task>)
    requires FilesWellNamed(before) && ArchivesOwned(before) && after.Keys == before.Keys
    requires forall k :: k in before ==>
      after[k].loadedFiles == before[k].loadedFiles && after[k].archivePath == before[k].archivePath
    ensures FilesWellNamed(after) && ArchivesOwned(after)
  {
  }

  /** Every stored file path of every task has that task's shape. */
  ghost predicate FilesWellNamed(tasks: map<int, Task>) {
    forall k, i :: k in tasks && 0 <= i < |tasks[k].loadedFiles| ==> IsStoredFileOf(k, tasks[k].loadedFiles[i])
  }

  /** A task's recorded archive path is empty until an archive is built, and then it is that task's own path. */
  ghost predicate ArchivesOwned(tasks: map<int, Task>) {
    forall k :: k in tasks ==> tasks[k].archivePath == "" || tasks[k].archivePath == ArchivePathFor(k)
  }

  /** The archive entry name of a stored file is `<id>_<segment>`: the file keeps its owner's id. */
  lemma StoredFileEntryName(id: int, p: string)
    requires IsStoredFileOf(id, p)
    ensures FileNameFromUrl(p) == Itoa(id) + "_" + p[|FilePrefix(id)|..]
  {
    var pre := FilePrefix(id);
    var b := Itoa(id) + "_" + p[|pre|..];
    assert p == pre + p[|pre|..];
    assert p == StaticDir + "/" + b;
    assert p[|p| - |b| - 1] == '/';
    assert p[|p| - |b|..] == b;
    FileNameFromUrlUnique(p, b);
  }

  /** Distinct tasks never share an archive path. */
  lemma ArchivePathsDistinct(a: int, b: int)
    ensures ArchivePathFor(a) == ArchivePathFor(b) ==> a == b
    ensures ArchivePathFor(a) != ""
  {
    if ArchivePathFor(a) == ArchivePathFor(b) {
      var pa, pb := ArchivePathFor(a), ArchivePathFor(b);
      var lo := |ArchiveDir| + 1;
      assert pa[lo..|pa| - |"_archive.zip"|] == Itoa(a);
      assert pb[lo..|pb| - |"_archive.zip"|] == Itoa(b);
      ItoaInjective(a, b);
    }
  }

  /** The names the archive gives its entries: each stored file under its base name, in order. */
  function ArchiveEntries(files: seq<string>): (names: seq<string>)
    ensures |names| == |files|
    ensures forall i :: 0 <= i < |files| ==>
      && '/' !in names[i]
      && HasSuffix(files[i], names[i])
      && (|names[i]| == |files[i]| || files[i][|files[i]| - |names[i]| - 1] == '/')
  {
    seq(|files|, i requires 0 <= i < |files| => FileNameFromUrl(files[i]))
  }

  /** In a well-named store, every entry of a task's archive starts with that task's id and '_'. */
  lemma ArchiveEntriesTagged(tasks: map<int, Task>, id: int)
    requires FilesWellNamed(tasks) && id in tasks
    ensures forall i :: 0 <= i < |tasks[id].loadedFiles| ==>
      HasPrefix(ArchiveEntries(tasks[id].loadedFiles)[i], Itoa(id) + "_")
  {
    var files := tasks[id].loadedFiles;
    forall i | 0 <= i < |files|
      ensures HasPrefix(ArchiveEntries(files)[i], Itoa(id) + "_")
    {
      assert IsStoredFileOf(id, files[i]);
      StoredFileEntryName(id, files[i]);
    }
  }

  // ------------------------------------------------------ extension allow-list

  /** Some element of the comma-separated allow-list is a suffix of the link. */
  predicate AllowedBy(link: string, allowed: string) {
    var exts := Split(allowed, ',');
    exists i | 0 <= i < |exts| :: HasSuffix(link, exts[i])
  }

  /** The allow-list check of a download: scans the extensions and stops at the first that matches. */
  method CheckExtension(link: string, allowed: string) returns (pass: bool)
    ensures pass <==> AllowedBy(link, allowed)
  {
    var exts := Split(allowed, ',');
    pass := false;
    for i := 0 to |exts|
      invariant forall j :: 0 <= j < i ==> !HasSuffix(link, exts[j])
    {
      if HasSuffix(link, exts[i]) {
        pass := true;
        break;
      }
    }
  }

  /** With the default list, exactly the links ending in .pdf, .jpeg or .jpg pass. */
  lemma DefaultAllowList(link: string)
    ensures AllowedBy(link, ".pdf,.jpeg,.jpg") <==>
      HasSuffix(link, ".pdf") || HasSuffix(link, ".jpeg") || HasSuffix(link, ".jpg")
  {
    var exts := [".pdf", ".jpeg", ".jpg"];
    assert Join(exts, ',') == ".pdf,.jpeg,.jpg";
    SplitJoin(exts, ',');
  }

  /** An empty allow-list splits into one empty extension, which every link ends with. */
  lemma EmptyAllowListAdmitsAll(link: string)
    ensures AllowedBy(link, "")
  {
    assert Split("", ',')[0] == "";
    assert HasSuffix(link, "");
  }

  // ------------------------------------------------------ download outcomes

  /** What the network fetch gave: a transport error, or a response with a status code. */
  datatype FetchResult = TransportError | Response(statusCode: int)

  /** What persisting the body gave: which step failed, or saved. */
  datatype SaveResult = DirError | CreateError | CopyError | Saved

  /** Why one download failed. */
  datatype DownloadError =
    | BadExtension
    | FetchFailed
    | BadStatus(code: int)
    | DirFailed
    | CreateFailed
    | CopyFailed
    | RecordFailed

  /** The failure one download of `link` meets, checking the steps in the order the downloader takes them. */
  function DownloadFailure(link: string, allowed: string, fetch: FetchResult, save: SaveResult): (f: Option<DownloadError>)
    ensures f.None? <==> AllowedBy(link, allowed) && fetch == Response(200) && save == Saved
    ensures !AllowedBy(link, allowed) ==> f == Some(BadExtension)
    ensures AllowedBy(link, allowed) && fetch == TransportError ==> f == Some(FetchFailed)
    ensures AllowedBy(link, allowed) && fetch.Response? && fetch.statusCode != 200 ==> f == Some(BadStatus(fetch.statusCode))
  {
    if !AllowedBy(link, allowed) then Some(BadExtension)
    else match fetch
      case TransportError => Some(FetchFailed)
      case Response(code) =>
        if code != 200 then Some(BadStatus(code))
        else match save
          case DirError => Some(DirFailed)
          case CreateError => Some(CreateFailed)
          case CopyError => Some(CopyFailed)
          case Saved => None
  }

  function Reason(e: DownloadError): string {
    match e
    case BadExtension => "unsupported file format, only .pdf and .jpeg are accepted"
    case FetchFailed => "error while downloading the file"
    case BadStatus(code) => "file not found, status: " + Itoa(code)
    case DirFailed => "error while creating the directory"
    case CreateFailed => "error while creating the file"
    case CopyFailed => "error while saving the file"
    case RecordFailed => "could not record the downloaded file"
  }

  /** The note appended to a task's errors when one of its downloads fails. */
  function ErrorNote(id: int, e: DownloadError): string {
    "error downloading " + Itoa(id) + ": " + Reason(e) + "\n"
  }

  /** A colon-free field between a common prefix and a colon is fixed by the whole text. */
  lemma FieldBeforeColon(p: string, x: string, u: string, y: string, v: string)
    requires ':' !in x && ':' !in y
    requires p + x + ": " + u + "\n" == p + y + ": " + v + "\n"
    ensures x == y
  {
    var n := p + x + ": " + u + "\n";
    var m := p + y + ": " + v + "\n";
    assert n[|p| + |x|] == ':' && m[|p| + |y|] == ':';
    assert forall i :: 0 <= i < |x| ==> n[|p| + i] == x[i];
    assert forall i :: 0 <= i < |y| ==> m[|p| + i] == y[i];
    assert n[|p|..|p| + |x|] == x && m[|p|..|p| + |y|] == y;
  }

  /** Equal notes come from the same task: the id written in a note can be read back. */
  lemma ErrorNoteNamesTask(a: int, ea: DownloadError, b: int, eb: DownloadError)
    requires ErrorNote(a, ea) == ErrorNote(b, eb)
    ensures a == b
  {
    FieldBeforeColon("error downloading ", Itoa(a), Reason(ea), Itoa(b), Reason(eb));
    ItoaInjective(a, b);
  }

  // ------------------------------------------------------ completion and archiving rules

  /** The read-time completion rule: at least three outcomes, at least one of them a stored file. */
  predicate ReachedCompletion(t: Task)
    ensures |t.loadedFiles| == 0 ==> !ReachedCompletion(t)
    ensures |t.loadedFiles| >= 3 ==> ReachedCompletion(t)
  {
    |t.loadedFiles| + |t.errors| >= 3 && |t.loadedFiles| > 0
  }

  /** Outcomes only accumulate, so once a task meets the completion rule every later state of it does. */
  lemma CompletionIsStable(before: Task, after: Task)
    requires TaskGrows(before, after) && ReachedCompletion(before)
    ensures ReachedCompletion(after)
  {
    assert |before.loadedFiles| <= |after.loadedFiles| && |before.errors| <= |after.errors|;
  }

  /**
   * The condition under which the status handler builds an archive: it counts
   * submitted links, not stored files, together with the errors. A finished
   * task that meets the completion rule and has no more stored files than
   * links always qualifies.
   */
  predicate ArchiveEligible(t: Task)
    ensures ReachedCompletion(t) && |t.loadedFiles| <= |t.links| && (t.status == Failed || t.status == Completed) ==>
      ArchiveEligible(t)
  {
    |t.links| + |t.errors| >= 3 && |t.loadedFiles| > 0 && (t.status == Failed || t.status == Completed)
  }

  /** How an archive build went: which step failed (for an entry, the index of the file), or written. */
  datatype ArchiveIo = ArchiveDirError | ArchiveCreateError | EntryError(index: nat) | ArchiveWritten

  /** The archive is complete: no step failed, or the failing entry index lies past the last file. */
  predicate ArchiveBuilt(io: ArchiveIo, n: nat) {
    io == ArchiveWritten || (io.EntryError? && io.index >= n)
  }

  /** How many of `n` files went into the archive before the build stopped. */
  function EntriesWritten(io: ArchiveIo, n: nat): (w: nat)
    ensures w <= n
    ensures w == n <==> ArchiveBuilt(io, n) || n == 0
  {
    match io
    case ArchiveDirError => 0
    case ArchiveCreateError => 0
    case EntryError(k) => if k < n then k else n
    case ArchiveWritten => n
  }

  // ------------------------------------------------------ the service

  class TasksService {
    const repo: TasksRepository

    /** The store's invariant; every stored file path and archive path names its own task. */
    ghost predicate Valid()
      reads this, repo
    {
      repo.Valid() && FilesWellNamed(repo.tasks) && ArchivesOwned(repo.tasks)
    }

    constructor (repo: TasksRepository)
      requires repo.Valid() && FilesWellNamed(repo.tasks) && ArchivesOwned(repo.tasks)
      ensures this.repo == repo && Valid()
    {
      this.repo := repo;
    }

    /** Admission: refuses with Busy once three tasks are open, and otherwise creates a task. */
    method CreateTask() returns (r: Result<int>)
      requires Valid()
      modifies repo
      ensures Valid()
      ensures |ActiveIds(old(repo.tasks))| >= ActiveCap ==>
        r == Err(Busy) && repo.tasks == old(repo.tasks) && repo.ptr == old(repo.ptr)
      ensures |ActiveIds(old(repo.tasks))| < ActiveCap ==>
        && r == Ok(old(repo.ptr))
        && repo.ptr == old(repo.ptr) + 1
        && repo.tasks == old(repo.tasks)[old(repo.ptr) := NewTask(old(repo.ptr))]
      ensures r.Ok? ==> |ActiveIds(repo.tasks)| <= ActiveCap
    {
      var n := repo.CountActiveTasks();
      if n == ActiveCap {
        return Err(Busy);
      }
      ghost var before := repo.tasks;
      r := repo.CreateTask();
      ActiveIdsInsert(before, r.value, NewTask(r.value));
    }

    /**
     * Validates the link, appends it, and moves the task to Processing unless
     * it is Failed (so a Completed task goes back to Processing). Scheduling
     * the download is not part of this method: see DownloadFile.
     */
    method AppendLink(id: int, link: string) returns (r: Outcome)
      requires Valid()
      modifies repo
      ensures Valid() && repo.ptr == old(repo.ptr)
      ensures StoreGrows(old(repo.tasks), repo.tasks)
      ensures !ValidLink(link) ==> r == Fail(Validation) && repo.tasks == old(repo.tasks)
      ensures ValidLink(link) && id !in old(repo.tasks) ==> r == Fail(NotFound) && repo.tasks == old(repo.tasks)
      ensures ValidLink(link) && id in old(repo.tasks) ==>
        var t := old(repo.tasks)[id];
        && r == Pass
        && repo.tasks == old(repo.tasks)[id := t.(
             links := t.links + [link],
             status := if t.status == Failed then Failed else Processing)]
    {
      if link == "" {
        return Fail(Validation);
      }
      if !(HasPrefix(link, "http://") || HasPrefix(link, "https://")) {
        return Fail(Validation);
      }
      var appended := repo.AppendLink(id, link);
      if appended.Fail? {
        return Fail(NotFound);
      }
      var got := repo.GetTask(id);
      if got.Err? {
        return Fail(NotFound);
      }
      if got.value.status != Failed {
        var updated := repo.UpdateTaskStatus(id, Processing);
        if updated.Fail? {
          return Fail(NotFound);
        }
      }
      return Pass;
    }

    /** Records a failed download: one more error note, and the status set to Failed. */
    method HandleError(id: int, e: DownloadError)
      requires Valid()
      modifies repo
      ensures Valid() && repo.ptr == old(repo.ptr)
      ensures StoreGrows(old(repo.tasks), repo.tasks)
      ensures id !in old(repo.tasks) ==> repo.tasks == old(repo.tasks)
      ensures id in old(repo.tasks) ==>
        var t := old(repo.tasks)[id];
        repo.tasks == old(repo.tasks)[id := t.(errors := t.errors + [ErrorNote(id, e)], status := Failed)]
    {
      var note := ErrorNote(id, e);
      ghost var before := repo.tasks;
      var appended := repo.AppendError(id, note);
      var updated := repo.UpdateTaskStatus(id, Failed);
      if id in before {
        var t := before[id];
        assert repo.tasks == before[id := t.(errors := t.errors + [note], status := Failed)];
      }
      NamesKept(before, repo.tasks);
    }

    /**
     * One download of `link` for task `id`, with the fetch and the file writes
     * given as outcomes. A failure adds exactly one error note and sets Failed;
     * a success adds exactly the stored file path and leaves status and errors.
     */
    method DownloadFile(id: int, link: string, allowed: string, fetch: FetchResult, save: SaveResult)
      requires Valid()
      modifies repo
      ensures Valid() && repo.ptr == old(repo.ptr)
      ensures StoreGrows(old(repo.tasks), repo.tasks)
      ensures id !in old(repo.tasks) ==> repo.tasks == old(repo.tasks)
      ensures id in old(repo.tasks) ==>
        var t := old(repo.tasks)[id];
        var failure := DownloadFailure(link, allowed, fetch, save);
        repo.tasks == old(repo.tasks)[id :=
          if failure.Some? then t.(errors := t.errors + [ErrorNote(id, failure.value)], status := Failed)
          else t.(loadedFiles := t.loadedFiles + [StoredFilePath(id, link)])]
    {
      var pass := CheckExtension(link, allowed);
      var loaded := "";
      if pass {
        match fetch {
          case TransportError =>
            HandleError(id, FetchFailed);
            return;
          case Response(code) =>
            if code != 200 {
              HandleError(id, BadStatus(code));
              return;
            }
        }
        var fileName := StoredFilePath(id, link);
        match save {
          case DirError =>
            HandleError(id, DirFailed);
            return;
          case CreateError =>
            HandleError(id, CreateFailed);
            return;
          case CopyError =>
            HandleError(id, CopyFailed);
            return;
          case Saved =>
        }
        loaded := fileName;
      } else {
        HandleError(id, BadExtension);
        return;
      }
      var recorded := repo.AppendLoadedFileLink(id, loaded);
      if recorded.Fail? {
        HandleError(id, RecordFailed);
      }
    }

    /**
     * Reads a task. When the completion rule holds, the stored status becomes
     * Completed, whatever it was; the record returned is the one read before
     * that update.
     */
    method GetTask(id: int) returns (r: Result<Task>)
      requires Valid()
      modifies repo
      ensures Valid() && repo.ptr == old(repo.ptr)
      ensures StoreGrows(old(repo.tasks), repo.tasks)
      ensures id !in old(repo.tasks) ==> r == Err(NotFound) && repo.tasks == old(repo.tasks)
      ensures id in old(repo.tasks) ==>
        var t := old(repo.tasks)[id];
        && r == Ok(t)
        && repo.tasks == if ReachedCompletion(t) then old(repo.tasks)[id := t.(status := Completed)] else old(repo.tasks)
    {
      r := repo.GetTask(id);
      if r.Err? {
        return Err(NotFound);
      }
      var task := r.value;
      if ReachedCompletion(task) {
        var updated := repo.UpdateTaskStatus(id, Completed);
        if updated.Fail? {
          return Err(NotFound);
        }
      }
    }

    /**
     * Builds the archive of a task snapshot: one entry per stored file, named by
     * its base name, in order; on success the archive path is recorded in the
     * store and in the returned record. `entries` are the entries written.
     */
    method MakeArchive(task: Task, io: ArchiveIo) returns (result: Task, r: Outcome, entries: seq<string>)
      requires Valid()
      modifies repo
      ensures Valid() && repo.ptr == old(repo.ptr)
      ensures StoreGrows(old(repo.tasks), repo.tasks)
      ensures entries == ArchiveEntries(task.loadedFiles[..EntriesWritten(io, |task.loadedFiles|)])
      ensures !ArchiveBuilt(io, |task.loadedFiles|) ==>
        r == Fail(ArchiveFailed) && result == task && repo.tasks == old(repo.tasks)
      ensures ArchiveBuilt(io, |task.loadedFiles|) && task.id !in old(repo.tasks) ==>
        r == Fail(NotFound) && result == task && repo.tasks == old(repo.tasks)
      ensures ArchiveBuilt(io, |task.loadedFiles|) && task.id in old(repo.tasks) ==>
        && r == Pass
        && result == task.(archivePath := ArchivePathFor(task.id))
        && repo.tasks == old(repo.tasks)[task.id := old(repo.tasks)[task.id].(archivePath := ArchivePathFor(task.id))]
    {
      var archiveName := ArchivePathFor(task.id);
      var files := task.loadedFiles;
      entries := [];
      if io == ArchiveDirError || io == ArchiveCreateError {
        return task, Fail(ArchiveFailed), entries;
      }
      for i := 0 to |files|
        invariant entries == ArchiveEntries(files[..i])
        invariant !(io.EntryError? && io.index < i)
      {
        if io.EntryError? && io.index == i {
          return task, Fail(ArchiveFailed), entries;
        }
        assert files[..i + 1] == files[..i] + [files[i]];
        entries := entries + [FileNameFromUrl(files[i])];
      }
      assert files[..|files|] == files;
      var updated := repo.UpdateArchiveName(task.id, archiveName);
      if updated.Fail? {
        return task, Fail(NotFound), entries;
      }
      return task.(archivePath := archiveName), Pass, entries;
    }

    /**
     * The recorded archive path; NotFound for an unknown task or one without an
     * archive yet. A path it returns is the task's own archive path.
     */
    method GetArchivePath(id: int) returns (r: Result<string>)
      requires Valid()
      ensures r.Ok? <==> id in repo.tasks && repo.tasks[id].archivePath != ""
      ensures r.Ok? ==> r.value == repo.tasks[id].archivePath
      ensures r.Err? ==> r.error == NotFound
      ensures r.Ok? ==> r.value == ArchivePathFor(id)
    {
      var got := repo.GetTask(id);
      if got.Err? {
        return Err(NotFound);
      }
      if got.value.archivePath == "" {
        return Err(NotFound);
      }
      return Ok(got.value.archivePath);
    }
  }
}
