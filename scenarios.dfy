/**
 * Client call sequences on the service, verified from the contracts alone:
 * the lifecycle of one task from creation to archive, a task the status
 * handler would archive while one of its downloads is still pending, and a
 * sequence in which re-opening a completed task leaves more open tasks than
 * the admission cap.
 */
module Scenarios {
  import opened Outcomes
  import opened Text
  import opened Repository
  import opened Service

  const Allowed := ".pdf,.jpeg,.jpg"

  /** Three sample links, one .pdf and two .exe: all well-formed; under the default list only the .pdf passes. */
  lemma ExampleLinks()
    ensures ValidLink("http://h/a.pdf") && ValidLink("http://h/b.exe") && ValidLink("http://h/c.exe")
    ensures AllowedBy("http://h/a.pdf", Allowed)
    ensures !AllowedBy("http://h/b.exe", Allowed) && !AllowedBy("http://h/c.exe", Allowed)
  {
    DefaultAllowList("http://h/a.pdf");
    DefaultAllowList("http://h/b.exe");
    DefaultAllowList("http://h/c.exe");
    assert "http://h/a.pdf"[..7] == "http://";
    assert "http://h/b.exe"[..7] == "http://";
    assert "http://h/c.exe"[..7] == "http://";
    assert "http://h/a.pdf"[10..] == ".pdf";
    assert "http://h/b.exe"[10..] != ".pdf";
    assert "http://h/b.exe"[9..] != ".jpeg";
    assert "http://h/b.exe"[10..] != ".jpg";
    assert "http://h/c.exe"[10..] != ".pdf";
    assert "http://h/c.exe"[9..] != ".jpeg";
    assert "http://h/c.exe"[10..] != ".jpg";
  }

  /** A fresh service with one task, id 0, holding one admitted link, downloaded and stored. */
  method StartWithStoredFile(allowed: string, good: string) returns (service: TasksService)
    requires ValidLink(good) && AllowedBy(good, allowed)
    ensures fresh(service) && fresh(service.repo) && service.Valid() && service.repo.ptr == 1
    ensures service.repo.tasks == map[0 := Task(0, Processing, [good], [StoredFilePath(0, good)], "", [])]
  {
    var repo := new TasksRepository();
    service := new TasksService(repo);
    assert ActiveIds(repo.tasks) == {};
    var created := service.CreateTask();
    assert repo.tasks == map[0 := NewTask(0)];
    var appended := service.AppendLink(0, good);
    assert repo.tasks[0].status == Processing && repo.tasks[0].links == [good];
    service.DownloadFile(0, good, allowed, Response(200), Saved);
    assert repo.tasks[0].loadedFiles == [StoredFilePath(0, good)] && repo.tasks[0].errors == [];
  }

  /** Appending a refused link and running its download fails the task with one more note. */
  method AddRefusedLink(service: TasksService, allowed: string, bad: string, t: Task)
    requires service.Valid() && service.repo.tasks == map[0 := t] && t.id == 0
    requires ValidLink(bad) && !AllowedBy(bad, allowed)
    modifies service.repo
    ensures service.Valid() && service.repo.ptr == old(service.repo.ptr)
    ensures service.repo.tasks == map[0 := t.(
      links := t.links + [bad], errors := t.errors + [ErrorNote(0, BadExtension)], status := Failed)]
  {
    var appended := service.AppendLink(0, bad);
    service.DownloadFile(0, bad, allowed, Response(200), Saved);
  }

  /**
   * One task through its life, for any allow-list, any link it admits and any
   * two well-formed links it refuses: the admitted link is stored and the
   * task stays Processing; the two refused links fail it; the next read moves
   * it to Completed while returning the Failed snapshot, and the read after
   * that returns Completed; the archive path is
   * unknown until an archive is built and known afterwards.
   */
  method TaskLifecycle(allowed: string, good: string, bad1: string, bad2: string)
    returns (afterFirst: Status, afterFailures: Status, readStatus: Status, stored: Status,
             rereadStatus: Status, before: Result<string>, entries: seq<string>, after: Result<string>)
    requires ValidLink(good) && ValidLink(bad1) && ValidLink(bad2)
    requires AllowedBy(good, allowed) && !AllowedBy(bad1, allowed) && !AllowedBy(bad2, allowed)
    ensures afterFirst == Processing && afterFailures == Failed
    ensures readStatus == Failed && stored == Completed && rereadStatus == Completed
    ensures before == Err(NotFound)
    ensures entries == [Itoa(0) + "_" + FileNameFromUrl(good)]
    ensures after == Ok(ArchivePathFor(0))
  {
    var service := StartWithStoredFile(allowed, good);
    var repo := service.repo;
    var p := StoredFilePath(0, good);
    afterFirst := repo.tasks[0].status;

    AddRefusedLink(service, allowed, bad1, repo.tasks[0]);
    AddRefusedLink(service, allowed, bad2, repo.tasks[0]);
    assert repo.tasks[0].loadedFiles == [p] && |repo.tasks[0].errors| == 2;
    afterFailures := repo.tasks[0].status;

    var snapshot;
    snapshot, stored, rereadStatus := ReadTwice(service, repo.tasks[0]);
    readStatus := snapshot.status;

    before, entries, after := ArchiveOnce(service, repo.tasks[0], snapshot);
    StoredFileEntryName(0, p);
    assert p[|FilePrefix(0)|..] == FileNameFromUrl(good);
  }

  /**
   * Reads task 0 twice once it meets the completion rule: the first read
   * returns the record as it was and stores Completed; the second sees Completed.
   */
  method ReadTwice(service: TasksService, t: Task) returns (snapshot: Task, stored: Status, rereadStatus: Status)
    requires service.Valid() && service.repo.tasks == map[0 := t] && ReachedCompletion(t)
    modifies service.repo
    ensures service.Valid() && service.repo.tasks == map[0 := t.(status := Completed)]
    ensures snapshot == t && stored == Completed && rereadStatus == Completed
  {
    var read := service.GetTask(0);
    snapshot := read.value;
    stored := service.repo.tasks[0].status;
    var reread := service.GetTask(0);
    rereadStatus := reread.value.status;
  }

  /** Looks up the archive of task 0, builds it from a snapshot, and looks it up again. */
  method ArchiveOnce(service: TasksService, t: Task, snapshot: Task)
    returns (before: Result<string>, entries: seq<string>, after: Result<string>)
    requires service.Valid() && service.repo.tasks == map[0 := t] && t.archivePath == ""
    requires snapshot.id == 0
    modifies service.repo
    ensures before == Err(NotFound) && after == Ok(ArchivePathFor(0))
    ensures entries == ArchiveEntries(snapshot.loadedFiles)
  {
    before := service.GetArchivePath(0);
    var archived, outcome;
    archived, outcome, entries := service.MakeArchive(snapshot, ArchiveWritten);
    assert snapshot.loadedFiles[..|snapshot.loadedFiles|] == snapshot.loadedFiles;
    ArchivePathsDistinct(0, 0);
    after := service.GetArchivePath(0);
  }

  /**
   * The status handler's archive condition counts submitted links, so it can
   * hold while a download is still pending: three links, one stored file, one
   * refused download, and the read that the handler makes finds the task
   * archive-eligible although the completion rule does not hold.
   */
  method ArchivableWhilePending(allowed: string, good: string, bad: string, pending: string) returns (t: Task)
    requires ValidLink(good) && ValidLink(bad) && ValidLink(pending)
    requires AllowedBy(good, allowed) && !AllowedBy(bad, allowed)
    ensures t.id == 0 && t.status == Failed && t.links == [good, bad, pending]
    ensures t.loadedFiles == [StoredFilePath(0, good)] && |t.errors| == 1
    ensures ArchiveEligible(t) && !ReachedCompletion(t)
  {
    var service := PendingTask(allowed, good, bad, pending);
    var read := service.GetTask(0);
    t := read.value;
  }

  /** A fresh service whose task 0 has one stored file, one refused download and one link still pending. */
  method PendingTask(allowed: string, good: string, bad: string, pending: string) returns (service: TasksService)
    requires ValidLink(good) && ValidLink(bad) && ValidLink(pending)
    requires AllowedBy(good, allowed) && !AllowedBy(bad, allowed)
    ensures fresh(service.repo) && service.Valid() && service.repo.tasks.Keys == {0}
    ensures var t := service.repo.tasks[0];
      && t.id == 0 && t.status == Failed && t.links == [good, bad, pending]
      && t.loadedFiles == [StoredFilePath(0, good)] && |t.errors| == 1
  {
    service := StartWithStoredFile(allowed, good);
    var repo := service.repo;
    AddRefusedLink(service, allowed, bad, repo.tasks[0]);
    AppendToFailed(service, pending, repo.tasks[0]);
  }

  /** Appending a link to the failed task 0 records the link and leaves it Failed. */
  method AppendToFailed(service: TasksService, link: string, t: Task)
    requires service.Valid() && service.repo.tasks == map[0 := t] && t.status == Failed
    requires ValidLink(link)
    modifies service.repo
    ensures service.Valid() && service.repo.tasks == map[0 := t.(links := t.links + [link])]
  {
    var appended := service.AppendLink(0, link);
  }

  /** Creates three tasks in a service whose only task, id 0, is not open. */
  method CreateThree(service: TasksService, t: Task)
    requires service.Valid() && service.repo.tasks == map[0 := t] && t.id == 0 && !IsActive(t.status)
    requires service.repo.ptr == 1
    modifies service.repo
    ensures service.Valid()
    ensures service.repo.tasks == map[0 := t, 1 := NewTask(1), 2 := NewTask(2), 3 := NewTask(3)]
  {
    var repo := service.repo;
    assert ActiveIds(repo.tasks) == {};
    var r := service.CreateTask();
    assert repo.tasks == map[0 := t, 1 := NewTask(1)];
    assert ActiveIds(repo.tasks) == {1};
    r := service.CreateTask();
    assert repo.tasks == map[0 := t, 1 := NewTask(1), 2 := NewTask(2)];
    assert ActiveIds(repo.tasks) == {1, 2};
    r := service.CreateTask();
  }

  /** A fresh service whose only task, id 0, has one stored file, two failures and has been read: Completed. */
  method CompletedTask(allowed: string, good: string, bad1: string, bad2: string) returns (service: TasksService)
    requires ValidLink(good) && ValidLink(bad1) && ValidLink(bad2)
    requires AllowedBy(good, allowed) && !AllowedBy(bad1, allowed) && !AllowedBy(bad2, allowed)
    ensures fresh(service) && fresh(service.repo) && service.Valid() && service.repo.ptr == 1
    ensures service.repo.tasks.Keys == {0} && service.repo.tasks[0].id == 0
    ensures service.repo.tasks[0].status == Completed
  {
    service := StartWithStoredFile(allowed, good);
    var repo := service.repo;
    AddRefusedLink(service, allowed, bad1, repo.tasks[0]);
    AddRefusedLink(service, allowed, bad2, repo.tasks[0]);
    assert |repo.tasks[0].loadedFiles| == 1 && |repo.tasks[0].errors| == 2;
    var read := service.GetTask(0);
  }

  /**
   * Admission alone does not bound the open tasks: after a task completes,
   * three more are admitted, and appending a link to the completed task
   * re-opens it, leaving four open tasks.
   */
  method ReopenExceedsCap(allowed: string, good: string, bad1: string, bad2: string, more: string)
    returns (open: int)
    requires ValidLink(good) && ValidLink(bad1) && ValidLink(bad2) && ValidLink(more)
    requires AllowedBy(good, allowed) && !AllowedBy(bad1, allowed) && !AllowedBy(bad2, allowed)
    ensures open == ActiveCap + 1
  {
    var service := CompletedTask(allowed, good, bad1, bad2);
    var repo := service.repo;
    assert repo.tasks == map[0 := repo.tasks[0]];
    CreateThree(service, repo.tasks[0]);
    var appended := service.AppendLink(0, more);
    assert repo.tasks[0].status == Processing;
    assert ActiveIds(repo.tasks) == {0, 1, 2, 3};
    open := |ActiveIds(repo.tasks)|;
  }
}
