/** The install-orchestration layer: resources that name the bytes to install,
    the downloader seen from the runtime, and the installer runtime that
    registers tasks and runs them after the downloads have drained. */
module Install {
  import opened Wrappers
  import opened Host
  import JavaStrings

  // ---------------------------------------------------------------------------
  // URLs, downloads and errors

  /** A URL, reduced to its protocol and the rest of its text. */
  datatype Url = Url(protocol: string, rest: string)

  /** The regular expression `^https?` matched against the WHOLE string, as
      `String.matches` does: "http", optionally followed by one "s". */
  predicate MatchesHttpScheme(s: string)
  {
    |s| >= 4 && s[..4] == "http" && (s[4..] == "" || s[4..] == "s")
  }

  /** The whole-string match of `^https?` admits exactly "http" and "https". */
  lemma MatchesHttpSchemeExactly(s: string)
    ensures MatchesHttpScheme(s) <==> s == "http" || s == "https"
  {
    if |s| >= 4 {
      assert s == s[..4] + s[4..];
    }
    if s == "https" {
      assert s[..4] == "http" && s[4..] == "s";
    }
    if s == "http" {
      assert s[..4] == "http" && s[4..] == "";
    }
  }

  /** Whether `fetch` accepts a URL with this protocol: only "http" and
      "https", in any letter case. */
  function AcceptsProtocol(protocol: string): (ok: bool)
    ensures ok <==> JavaStrings.Lower(protocol) == "http" || JavaStrings.Lower(protocol) == "https"
  {
    var p := JavaStrings.Lower(protocol);
    MatchesHttpSchemeExactly(p);
    MatchesHttpScheme(p)
  }

  /** One fetch handed to the downloader: the directory to download into
      (`null` before `setTemporaryDir`), the URL and the expected hash. */
  datatype Download = Download(dir: Option<Path>, url: Url, hash: Option<string>)

  /** The errors the modelled operations raise. */
  datatype InstallError =
    | IllegalArgument(url: Url)    // "Not sure how to download " + url
    | FileNotFound(file: Path)     // FileInputStream on a missing file
    | NoDelegate                   // NullPointerException: HttpResource used before setInstaller

  /** An open input stream over a file. */
  datatype Stream = Stream(file: Path)

  /** The downloader as the runtime sees it: `submit` queues a fetch and at
      once names the file it will produce (`fileFor`); the transfers happen
      when the runtime drains the queue. */
  class HttpDownloader {
    var queue: seq<Download>
    const fileFor: Download -> Path

    constructor (fileFor: Download -> Path)
      ensures queue == [] && this.fileFor == fileFor
    {
      queue := [];
      this.fileFor := fileFor;
    }

    method Submit(dir: Option<Path>, url: Url, hash: Option<string>) returns (file: Path)
      modifies this
      ensures queue == old(queue) + [Download(dir, url, hash)]
      ensures file == fileFor(Download(dir, url, hash))
    {
      queue := queue + [Download(dir, url, hash)];
      file := fileFor(Download(dir, url, hash));
    }
  }

  // ---------------------------------------------------------------------------
  // Resources

  /** The files that exist after `cleanup` of a resource over `file`: the file
      is removed exactly when the delete flag is set, and nothing else changes. */
  function AfterCleanup(existing: set<Path>, file: Path, delete: bool): (after: set<Path>)
    ensures after <= existing
    ensures file in after <==> file in existing && !delete
    ensures after - {file} == existing - {file}
  {
    if delete then existing - {file} else existing
  }

  /** Cleaning up twice leaves the same files as cleaning up once. */
  lemma CleanupIdempotent(existing: set<Path>, file: Path, delete: bool)
    ensures AfterCleanup(AfterCleanup(existing, file, delete), file, delete) == AfterCleanup(existing, file, delete)
  {
  }

  /** A resource over a local file, deleted on cleanup only when asked to. */
  class FileResource {
    const file: Path
    var delete: bool

    constructor (file: Path)
      ensures this.file == file && !delete
    {
      this.file := file;
      delete := false;
    }

    method DeleteOnCleanup() returns (r: FileResource)
      modifies this`delete
      ensures delete && r == this
    {
      delete := true;
      r := this;
    }

    /** Binding a local file needs nothing from the installer. */
    method SetInstaller(installer: InstallerRuntime)
      ensures unchanged(this, installer, installer.downloader)
    {
    }

    method GetInputStream(existing: set<Path>) returns (r: Result<Stream, InstallError>)
      ensures r.Success? <==> file in existing
      ensures r == if file in existing then Success(Stream(file)) else Failure(FileNotFound(file))
    {
      if file in existing {
        r := Success(Stream(file));
      } else {
        r := Failure(FileNotFound(file));
      }
    }

    /** `file.delete()` when the flag is set; its result is ignored, so a
        missing file is no error. */
    method Cleanup(existing: set<Path>) returns (after: set<Path>)
      ensures after == AfterCleanup(existing, file, delete)
      ensures delete ==> file !in after
      ensures !delete ==> after == existing
    {
      after := existing;
      if delete {
        after := after - {file};
      }
    }
  }

  /** A resource over a URL. It is unbound until `setInstaller` submits the
      fetch and binds it to a delete-on-cleanup resource over the fetched file;
      reads and cleanup go to that delegate. */
  class HttpResource {
    const url: Url
    var resource: FileResource?
    var versionId: Option<string>

    /** Bound to a delegate that deletes the fetched file on cleanup. */
    ghost predicate Bound()
      reads this, resource
    {
      resource != null && resource.delete
    }

    constructor (url: Url)
      ensures this.url == url && resource == null && versionId == None
    {
      this.url := url;
      resource := null;
      versionId := None;
    }

    method WithId(versionId: string) returns (r: HttpResource)
      modifies this`versionId
      ensures this.versionId == Some(versionId) && r == this
    {
      this.versionId := Some(versionId);
      r := this;
    }

    /** Submits a fresh fetch, with the version id as the expected hash, and
        replaces the delegate; a refused URL leaves the delegate as it was. */
    method SetInstaller(installer: InstallerRuntime) returns (o: Outcome<InstallError>)
      modifies this`resource, installer.downloader
      ensures var d := Download(installer.downloadDir, url, versionId);
        if AcceptsProtocol(url.protocol) then
          && o == Pass
          && Bound() && fresh(resource)
          && resource.file == installer.downloader.fileFor(d)
          && installer.downloader.queue == old(installer.downloader.queue) + [d]
        else
          && o == Fail(IllegalArgument(url))
          && resource == old(resource)
          && installer.downloader.queue == old(installer.downloader.queue)
    {
      var fetched := installer.Fetch(url, versionId);
      if fetched.Failure? {
        return Fail(fetched.error);
      }
      var delegate := new FileResource(fetched.value);
      resource := delegate.DeleteOnCleanup();
      o := Pass;
    }

    method GetInputStream(existing: set<Path>) returns (r: Result<Stream, InstallError>)
      ensures resource == null ==> r == Failure(NoDelegate)
      ensures resource != null ==>
        r == if resource.file in existing then Success(Stream(resource.file)) else Failure(FileNotFound(resource.file))
    {
      if resource == null {
        return Failure(NoDelegate);
      }
      r := resource.GetInputStream(existing);
    }

    method Cleanup(existing: set<Path>) returns (r: Result<set<Path>, InstallError>)
      ensures resource == null ==> r == Failure(NoDelegate)
      ensures resource != null ==> r == Success(AfterCleanup(existing, resource.file, resource.delete))
      ensures Bound() ==> r == Success(existing - {resource.file})
    {
      if resource == null {
        return Failure(NoDelegate);
      }
      var after := resource.Cleanup(existing);
      r := Success(after);
    }
  }

  /** A `Resource`: the two implementations, told apart by a tag. */
  datatype Resource = FromFile(fileResource: FileResource) | FromHttp(httpResource: HttpResource)
  {
    /** The resource object itself, which `setInstaller` may change. */
    function Objects(): set<object>
    {
      match this
      case FromFile(f) => {f}
      case FromHttp(h) => {h}
    }
  }

  // ---------------------------------------------------------------------------
  // Tasks and what running them does

  /** The previous run's install log, whose contents the runtime only stores. */
  class InstallLog {
    constructor ()
    {
    }
  }

  /** A version cache, which the write task prunes and persists. */
  class VersionCache {
    constructor ()
    {
    }
  }

  /** The copy task `copyTo` registers and returns. */
  datatype FileCopy = FileCopy(source: Resource, destination: Path)

  /** A registered task. */
  datatype Task = Copy(copy: FileCopy) | WriteCache(cache: VersionCache, file: Path)

  /** Which of the write task's two calls throws an `IOException`, if any. */
  datatype WriteFault = NoFault | RemoveFails | PersistFails

  /** One visible step of a running task. */
  datatype Action =
    | CopyFile(copy: FileCopy)                      // the copy task's run
    | RemoveOldEntries(cache: VersionCache)          // cache.removeOldEntries()
    | PersistCache(cache: VersionCache, file: Path)  // Persistence.write(file, cache)
    | WarnWriteFailed(file: Path)                    // the caught IOException, logged

  /** The steps a task takes when it runs: a copy copies; a write prunes the
      cache, persists it unless pruning threw, and logs a warning when either
      call threw. Only `IOException`s are modelled, and the write task catches
      those, so the task always finishes. */
  function TaskActions(task: Task, fault: WriteFault): (r: seq<Action>)
    ensures task.Copy? ==> r == [CopyFile(task.copy)]
    ensures task.WriteCache? ==>
      && |r| == (if fault == PersistFails then 3 else 2)
      && r[0] == RemoveOldEntries(task.cache)
  {
    match task
    case Copy(c) => [CopyFile(c)]
    case WriteCache(cache, file) =>
      [RemoveOldEntries(cache)]
      + (if fault == RemoveFails then [] else [PersistCache(cache, file)])
      + (if fault == NoFault then [] else [WarnWriteFailed(file)])
  }

  /** The write task prunes before it persists, persists exactly when pruning
      did not throw, and reports any failure only as a warning. */
  lemma WriteTaskOrder(cache: VersionCache, file: Path, fault: WriteFault)
    ensures var acts := TaskActions(WriteCache(cache, file), fault);
      && acts[0] == RemoveOldEntries(cache)
      && (PersistCache(cache, file) in acts <==> fault != RemoveFails)
      && (fault != RemoveFails ==> acts[1] == PersistCache(cache, file))
      && (WarnWriteFailed(file) in acts <==> fault != NoFault)
  {
  }

  /** What `call` reports, in order. */
  datatype Event =
    | DownloadsDrained(downloads: seq<Download>)  // httpDownloader.call() returned
    | Ran(task: nat, actions: seq<Action>)         // task number `task` ran

  /** How `call` ended. */
  datatype CallOutcome = Completed | Interrupted(before: nat) | DownloadFailed

  /** The events of running the first `k` tasks in registration order. */
  function Applied(tasks: seq<Task>, faults: nat -> WriteFault, k: nat): (r: seq<Event>)
    requires k <= |tasks|
    ensures |r| == k
    ensures forall i :: 0 <= i < k ==> r[i].Ran? && r[i].task == i
  {
    if k == 0 then []
    else Applied(tasks, faults, k - 1) + [Ran(k - 1, TaskActions(tasks[k - 1], faults(k - 1)))]
  }

  /** The index of the first task, from `from` on, before which the
      interruption check fires; `n` when none does. */
  function FirstInterrupt(interrupted: nat -> bool, n: nat, from: nat): (k: nat)
    requires from <= n
    ensures from <= k <= n
    ensures forall i :: from <= i < k ==> !interrupted(i)
    ensures k < n ==> interrupted(k)
    decreases n - from
  {
    if from == n || interrupted(from) then from else FirstInterrupt(interrupted, n, from + 1)
  }

  /** Task `i` runs with exactly its own steps. */
  lemma {:induction false} AppliedAt(tasks: seq<Task>, faults: nat -> WriteFault, k: nat, i: nat)
    requires i < k <= |tasks|
    ensures Applied(tasks, faults, k)[i] == Ran(i, TaskActions(tasks[i], faults(i)))
  {
    if i < k - 1 {
      AppliedAt(tasks, faults, k - 1, i);
    }
  }

  /** Stopping after `j` tasks gives a prefix of any longer run. */
  lemma {:induction false} AppliedPrefix(tasks: seq<Task>, faults: nat -> WriteFault, j: nat, k: nat)
    requires j <= k <= |tasks|
    ensures Applied(tasks, faults, k)[..j] == Applied(tasks, faults, j)
    decreases k - j
  {
    if j < k {
      AppliedPrefix(tasks, faults, j, k - 1);
      assert Applied(tasks, faults, k)[..k - 1] == Applied(tasks, faults, k - 1);
    }
  }

  /** The task numbers of the `Ran` events of a trace, in order. */
  function RanTasks(trace: seq<Event>): seq<int>
  {
    if trace == [] then []
    else RanTasks(trace[..|trace| - 1]) + (if trace[|trace| - 1].Ran? then [trace[|trace| - 1].task] else [])
  }

  /** Running `k` tasks runs tasks 0, 1, ..., k-1: each exactly once, in
      registration order. */
  lemma {:induction false} AppliedRunsEachOnceInOrder(tasks: seq<Task>, faults: nat -> WriteFault, k: nat)
    requires k <= |tasks|
    ensures RanTasks(Applied(tasks, faults, k)) == seq(k, i => i)
  {
    if k > 0 {
      var r := Applied(tasks, faults, k);
      assert r[..k - 1] == Applied(tasks, faults, k - 1);
      AppliedRunsEachOnceInOrder(tasks, faults, k - 1);
      assert seq(k, i => i) == seq(k - 1, i => i) + [k - 1];
    }
  }

  /** A run interrupted before task `k` has run exactly the tasks an
      uninterrupted run would have run first, up to `k`. */
  lemma InterruptedRunIsPrefix(tasks: seq<Task>, faults: nat -> WriteFault, interrupted: nat -> bool)
    ensures var k := FirstInterrupt(interrupted, |tasks|, 0);
      Applied(tasks, faults, k) == Applied(tasks, faults, |tasks|)[..k]
  {
    AppliedPrefix(tasks, faults, FirstInterrupt(interrupted, |tasks|, 0), |tasks|);
  }

  /** Without interruption, every registered task runs. */
  lemma UninterruptedRunsAll(n: nat, interrupted: nat -> bool)
    requires forall i :: !interrupted(i)
    ensures FirstInterrupt(interrupted, n, 0) == n
  {
  }

  // ---------------------------------------------------------------------------
  // The runtime

  /** Manages an installation: collects tasks, then runs them after the
      downloads they need have been fetched. */
  class InstallerRuntime {
    const environment: Environment
    const previousLog: InstallLog
    const downloader: HttpDownloader
    var tasks: seq<Task>
    var temporaryDir: Option<Path>
    var downloadDir: Option<Path>

    /** A runtime with a new, empty previous log. */
    constructor (environment: Environment, fileFor: Download -> Path)
      ensures this.environment == environment
      ensures fresh(previousLog) && fresh(downloader)
      ensures downloader.queue == [] && downloader.fileFor == fileFor
      ensures tasks == [] && temporaryDir == None && downloadDir == None
    {
      this.environment := environment;
      previousLog := new InstallLog();
      downloader := new HttpDownloader(fileFor);
      tasks := [];
      temporaryDir := None;
      downloadDir := None;
    }

    /** A runtime over an existing install log. */
    constructor WithLog(environment: Environment, fileFor: Download -> Path, previousLog: InstallLog)
      ensures this.environment == environment && this.previousLog == previousLog
      ensures fresh(downloader)
      ensures downloader.queue == [] && downloader.fileFor == fileFor
      ensures tasks == [] && temporaryDir == None && downloadDir == None
    {
      this.environment := environment;
      this.previousLog := previousLog;
      downloader := new HttpDownloader(fileFor);
      tasks := [];
      temporaryDir := None;
      downloadDir := None;
    }

    /** The log the runtime was given, or created, at construction. */
    method GetLog() returns (log: InstallLog)
      ensures log == previousLog
    {
      log := previousLog;
    }

    method SetTemporaryDir(tempDir: Path)
      modifies this`temporaryDir, this`downloadDir
      ensures temporaryDir == Some(tempDir)
      ensures downloadDir == Some(Join(tempDir, "download"))
    {
      temporaryDir := Some(tempDir);
      downloadDir := Some(Join(tempDir, "download"));
    }

    /** Registers a copy of `source` to `file`. The resource is bound first, so
        an HTTP resource with a refused URL throws and no task is added. */
    method CopyTo(source: Resource, file: Path) returns (r: Result<FileCopy, InstallError>)
      modifies this`tasks, downloader, source.Objects()
      ensures r.Success? ==> r.value == FileCopy(source, file) && tasks == old(tasks) + [Copy(r.value)]
      ensures r.Failure? ==> tasks == old(tasks)
      ensures source.FromFile? ==>
        && r.Success?
        && downloader.queue == old(downloader.queue)
        && unchanged(source.fileResource)
      ensures source.FromHttp? ==>
        var h := source.httpResource;
        var d := Download(downloadDir, h.url, h.versionId);
        && h.versionId == old(h.versionId)
        && (r.Success? <==> AcceptsProtocol(h.url.protocol))
        && (r.Success? ==>
              && h.Bound() && fresh(h.resource)
              && h.resource.file == downloader.fileFor(d)
              && downloader.queue == old(downloader.queue) + [d])
        && (r.Failure? ==>
              && r.error == IllegalArgument(h.url)
              && h.resource == old(h.resource)
              && downloader.queue == old(downloader.queue))
    {
      var copy := FileCopy(source, file);
      match source {
        case FromFile(f) =>
          f.SetInstaller(this);
        case FromHttp(h) =>
          var o := h.SetInstaller(this);
          if o.Fail? {
            return Failure(o.error);
          }
      }
      tasks := tasks + [Copy(copy)];
      r := Success(copy);
    }

    /** Registers a deferred write of `cache` to `file` and hands the cache
        back; nothing is written now. */
    method Write(cache: VersionCache, file: Path) returns (r: VersionCache)
      modifies this`tasks
      ensures r == cache
      ensures tasks == old(tasks) + [WriteCache(cache, file)]
    {
      tasks := tasks + [WriteCache(cache, file)];
      r := cache;
    }

    /** Submits `url` to the downloader when its protocol is http or https;
        any other protocol throws at once and submits nothing. */
    method Fetch(url: Url, hash: Option<string>) returns (r: Result<Path, InstallError>)
      modifies downloader
      ensures var d := Download(downloadDir, url, hash);
        if AcceptsProtocol(url.protocol) then
          r == Success(downloader.fileFor(d)) && downloader.queue == old(downloader.queue) + [d]
        else
          r == Failure(IllegalArgument(url)) && downloader.queue == old(downloader.queue)
    {
      if MatchesHttpScheme(JavaStrings.Lower(url.protocol)) {
        var file := downloader.Submit(downloadDir, url, hash);
        r := Success(file);
      } else {
        r := Failure(IllegalArgument(url));
      }
    }

    /** `fetch(url)`: the same as a fetch with no expected hash. */
    method FetchUrl(url: Url) returns (r: Result<Path, InstallError>)
      modifies downloader
      ensures var d := Download(downloadDir, url, None);
        if AcceptsProtocol(url.protocol) then
          r == Success(downloader.fileFor(d)) && downloader.queue == old(downloader.queue) + [d]
        else
          r == Failure(IllegalArgument(url)) && downloader.queue == old(downloader.queue)
    {
      r := Fetch(url, None);
    }

    /** Drains the downloader, then runs every task in registration order,
        checking for interruption before each and advancing the apply-phase
        progress by one step after each. `downloadsSucceed` says whether the
        downloader's `call` returned normally, `interrupted(i)` whether the
        check before task `i` finds the thread interrupted, and `faults(i)`
        which call of a write task `i` throws. */
    method Call(downloadsSucceed: bool, interrupted: nat -> bool, faults: nat -> WriteFault)
      returns (outcome: CallOutcome, trace: seq<Event>, steps: nat)
      ensures !downloadsSucceed ==> outcome == DownloadFailed && trace == [] && steps == 0
      ensures downloadsSucceed ==>
        var k := FirstInterrupt(interrupted, |tasks|, 0);
        && trace == [DownloadsDrained(downloader.queue)] + Applied(tasks, faults, k)
        && steps == k
        && outcome == (if k < |tasks| then Interrupted(k) else Completed)
    {
      steps := 0;
      if !downloadsSucceed {
        return DownloadFailed, [], 0;
      }
      trace := [DownloadsDrained(downloader.queue)];
      var i := 0;
      while i < |tasks|
        invariant 0 <= i <= |tasks|
        invariant forall j :: 0 <= j < i ==> !interrupted(j)
        invariant trace == [DownloadsDrained(downloader.queue)] + Applied(tasks, faults, i)
        invariant steps == i
      {
        if interrupted(i) {
          return Interrupted(i), trace, steps;
        }
        trace := trace + [Ran(i, TaskActions(tasks[i], faults(i)))];
        steps := steps + 1;
        i := i + 1;
      }
      outcome := Completed;
    }
  }
}
