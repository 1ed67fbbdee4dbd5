// Background jobs of backend/main.py: creation, the one run of a job, its log, and
// finding a published output again.
module Jobs {
  import opened Common

  type UserId = nat
  type JobId = nat
  type UploadId = nat

  datatype JobStatus = Queued | Running | Done | Failed | Cancelled

  datatype LogEntry = LogEntry(level: int, msg: string)

  // One file of output_refs.
  datatype Output = Output(storageName: Option<string>, storagePath: Option<string>, url: Option<string>, name: string,
                           size: nat, sha256: string, mime: string)

  datatype Job = Job(id: JobId, user: UserId, moduleKey: string, files: seq<UploadId>, fromDatabase: bool,
                     status: JobStatus, outputs: seq<Output>, logs: seq<LogEntry>, progress: int, error: Option<string>)

  // ----------------------------------------------------------------- the log

  const MAX_JOB_LOG_ENTRIES: nat := 200

  function LastEntries(logs: seq<LogEntry>): seq<LogEntry> {
    if |logs| <= MAX_JOB_LOG_ENTRIES then logs else logs[|logs| - MAX_JOB_LOG_ENTRIES..]
  }

  // _append_job_log.
  function AppendJobLog(logs: seq<LogEntry>, entry: LogEntry): seq<LogEntry> {
    LastEntries(logs + [entry])
  }

  function AppendAll(logs: seq<LogEntry>, entries: seq<LogEntry>): seq<LogEntry> {
    if entries == [] then logs else AppendJobLog(AppendAll(logs, entries[..|entries| - 1]), entries[|entries| - 1])
  }

  lemma LastOfLast(a: seq<LogEntry>, entry: LogEntry)
    ensures LastEntries(LastEntries(a) + [entry]) == LastEntries(a + [entry])
  {
  }

  // Bounding at every append keeps what bounding once at the end would keep.
  lemma {:induction false} LogsAreTheLastEntries(logs: seq<LogEntry>, entries: seq<LogEntry>)
    requires |logs| <= MAX_JOB_LOG_ENTRIES
    ensures AppendAll(logs, entries) == LastEntries(logs + entries)
    decreases |entries|
  {
    if entries == [] {
      assert logs + entries == logs;
    } else {
      var front, last := entries[..|entries| - 1], entries[|entries| - 1];
      LogsAreTheLastEntries(logs, front);
      assert logs + entries == (logs + front) + [last];
      LastOfLast(logs + front, last);
    }
  }

  lemma AppendAllNext(logs: seq<LogEntry>, entries: seq<LogEntry>, entry: LogEntry)
    ensures AppendAll(logs, entries + [entry]) == AppendJobLog(AppendAll(logs, entries), entry)
  {
    assert (entries + [entry])[..|entries|] == entries;
  }

  lemma {:induction false} AppendAllJoin(logs: seq<LogEntry>, a: seq<LogEntry>, b: seq<LogEntry>)
    ensures AppendAll(logs, a + b) == AppendAll(AppendAll(logs, a), b)
    decreases |b|
  {
    if b == [] {
      assert a + b == a;
    } else {
      AppendAllJoin(logs, a, b[..|b| - 1]);
      assert (a + b)[..|a + b| - 1] == a + b[..|b| - 1];
    }
  }

  // str(e)[:2000], the message that clients see.
  const MAX_ERROR_LENGTH: nat := 2000

  function Clipped(error: string): string {
    if |error| <= MAX_ERROR_LENGTH then error else error[..MAX_ERROR_LENGTH]
  }

  // What the bounds keep: the last 200 entries, and the first 2000 characters.
  lemma BoundsKeep(logs: seq<LogEntry>, error: string)
    ensures |LastEntries(logs)| == if |logs| <= 200 then |logs| else 200
    ensures logs[|logs| - |LastEntries(logs)|..] == LastEntries(logs)
    ensures |Clipped(error)| == if |error| <= 2000 then |error| else 2000
    ensures error[..|Clipped(error)|] == Clipped(error)
  {
    assert error[..|error|] == error;
  }

  // ------------------------------------------------------------- module checks

  datatype Module = Module(id: nat, enabled: bool, hidden: bool, view: string)

  // _module_is_visible: registered under the same permission, enabled, not hidden,
  // not switched off for the user, and permitted.
  predicate ModuleIsVisible(registry: map<string, string>, key: string, row: Option<Module>, permissions: set<string>,
                            disabled: set<nat>)
  {
    && row.Some? && key in registry
    && row.value.view == registry[key] && row.value.enabled && !row.value.hidden
    && row.value.id !in disabled && row.value.view != "" && registry[key] in permissions
  }

  // ------------------------------------------------------------ storage names

  // str.split("?", 1)[0].
  function BeforeQuery(s: string): string {
    if s == "" || s[0] == '?' then "" else [s[0]] + BeforeQuery(s[1..])
  }

  function ForwardSlashes(s: string): string {
    seq(|s|, i requires 0 <= i < |s| => if s[i] == '\\' then '/' else s[i])
  }

  // The position after the last slash.
  function LastSlash(s: string): (cut: nat)
    ensures cut <= |s|
    ensures cut > 0 ==> s[cut - 1] == '/'
    ensures forall i | cut <= i < |s| :: s[i] != '/'
  {
    if s == "" then 0 else if s[|s| - 1] == '/' then |s| else LastSlash(s[..|s| - 1])
  }

  // Path(s).name: the last component that is neither empty nor a single dot.
  function PathName(s: string): string
    decreases |s|
  {
    if s == "" then ""
    else
      var cut := LastSlash(s);
      var component := s[cut..];
      if component != "" && component != "." then component
      else if cut == 0 then ""
      else PathName(s[..cut - 1])
  }

  // A name after the last slash is the path's name, unless it is empty or a dot.
  lemma {:induction false} LastSlashIsFound(dir: string, name: string)
    requires '/' !in name
    ensures LastSlash(dir + "/" + name) == |dir| + 1
    decreases |name|
  {
    var s := dir + "/" + name;
    if name != "" {
      assert s[..|s| - 1] == dir + "/" + name[..|name| - 1] && s[|s| - 1] == name[|name| - 1];
      LastSlashIsFound(dir, name[..|name| - 1]);
    }
  }

  lemma PathsEndInTheirName(dir: string, name: string)
    requires '/' !in name
    ensures PathName(dir + "/" + name) == if name in {"", "."} then PathName(dir) else name
  {
    LastSlashIsFound(dir, name);
    var s := dir + "/" + name;
    assert s[|dir| + 1..] == name && s[..|dir|] == dir;
  }

  lemma {:induction false} PathNamesHoldNoSlash(s: string)
    ensures '/' !in PathName(s)
    decreases |s|
  {
    if s != "" && LastSlash(s) > 0 {
      PathNamesHoldNoSlash(s[..LastSlash(s) - 1]);
    }
  }

  // What stands before the first question mark.
  lemma {:induction false} QueriesAreCutOff(path: string, query: string)
    requires '?' !in path
    ensures BeforeQuery(path + "?" + query) == path
    decreases |path|
  {
    if path != "" {
      assert path == [path[0]] + path[1..];
      assert (path + "?" + query)[1..] == path[1..] + "?" + query;
      QueriesAreCutOff(path[1..], query);
    }
  }

  type Unquote = string -> string

  // Percent-decoding leaves text without a percent sign alone.
  ghost predicate Decodes(unquote: Unquote) {
    forall s: string | '%' !in s :: unquote(s) == s
  }

  // storage_basename.
  function StorageBasename(unquote: Unquote, s: string): string {
    PathName(ForwardSlashes(unquote(unquote(s))))
  }

  // The names that storage generates: 32 hexadecimal digits and a short suffix.
  predicate Generated(name: string) {
    |name| >= 32 && forall c | c in name :: 'a' <= c <= 'z' || '0' <= c <= '9' || c == '.'
  }

  lemma {:induction false} NoQuery(s: string)
    requires '?' !in s
    ensures BeforeQuery(s) == s
    decreases |s|
  {
    if s != "" {
      assert s == [s[0]] + s[1..];
      NoQuery(s[1..]);
    }
  }

  lemma {:induction false} NoSlash(s: string)
    requires '/' !in s
    ensures LastSlash(s) == 0
    decreases |s|
  {
    if s != "" {
      assert s == s[..|s| - 1] + [s[|s| - 1]];
      NoSlash(s[..|s| - 1]);
    }
  }

  lemma PlainPathName(s: string)
    requires '/' !in s && |s| > 1
    ensures PathName(s) == s
  {
    NoSlash(s);
    assert s[0..] == s;
  }

  lemma NoBackslash(s: string)
    requires '\\' !in s
    ensures ForwardSlashes(s) == s
  {
    assert forall i | 0 <= i < |s| :: s[i] in s;
  }

  // A generated name comes through every step of the comparison unchanged.
  lemma GeneratedNamesAreFixed(unquote: Unquote, name: string)
    requires Decodes(unquote) && Generated(name)
    ensures StorageBasename(unquote, BeforeQuery(name)) == name
    ensures StorageBasename(unquote, name) == name
  {
    assert '?' !in name && '%' !in name && '/' !in name && '\\' !in name;
    NoQuery(name);
    NoBackslash(name);
    PlainPathName(name);
    assert unquote(name) == name;
  }

  predicate Given(field: Option<string>) {
    field.Some? && field.value != ""
  }

  // _output_entry_storage_name; `fallback` is the legacy name of entries without one.
  function EntryName(unquote: Unquote, fallback: string, entry: Output): string {
    if Given(entry.storageName) then StorageBasename(unquote, BeforeQuery(entry.storageName.value))
    else if Given(entry.storagePath) then StorageBasename(unquote, BeforeQuery(entry.storagePath.value))
    else if Given(entry.url) then StorageBasename(unquote, BeforeQuery(entry.url.value))
    else fallback
  }

  function StartMessage(job: Job): string {
    "Starting module " + job.moduleKey + " with " + Decimal(|job.files|) + " files"
  }

  function Fallback(job: Job, entry: Output): string {
    Decimal(job.user) + "_" + Decimal(job.id) + "_" + entry.name
  }

  // _owned_output_artifact's comparison: the entry's name is the one asked for, or its
  // base name.
  predicate Answers(unquote: Unquote, job: Job, o: Output, filename: string) {
    EntryName(unquote, Fallback(job, o), o) in {filename, StorageBasename(unquote, filename)}
  }

  predicate Plain(s: string) {
    '?' !in s && '%' !in s && '\\' !in s
  }

  // Backslashes separate the components of a path, too.
  lemma BackslashesSeparate(unquote: Unquote, dir: string, name: string)
    requires Decodes(unquote) && Plain(dir) && Plain(name) && '/' !in name && name !in {"", "."}
    ensures StorageBasename(unquote, dir + "\\" + name) == name
  {
    NoBackslash(dir);
    NoBackslash(name);
    assert ForwardSlashes(dir + "\\" + name) == ForwardSlashes(dir) + "/" + ForwardSlashes(name);
    PathsEndInTheirName(dir, name);
    assert unquote(unquote(dir + "\\" + name)) == dir + "\\" + name;
  }

  // An entry with nothing but a display name answers to it behind the user and job ids.
  lemma BareEntriesAnswer(unquote: Unquote, job: Job, o: Output)
    requires !Given(o.storageName) && !Given(o.storagePath) && !Given(o.url)
    ensures Answers(unquote, job, o, Decimal(job.user) + "_" + Decimal(job.id) + "_" + o.name)
  {
  }

  // An entry of an older release answers to the last component of its stored path, and
  // one with neither name nor path to that of its address, whatever query follows.
  lemma OlderEntriesAnswer(unquote: Unquote, job: Job, o: Output, dir: string, name: string, query: string)
    requires Decodes(unquote) && !Given(o.storageName)
    requires Plain(dir) && Plain(name) && '/' !in name && name !in {"", "."}
    requires || o.storagePath == Some(dir + "/" + name)
             || (!Given(o.storagePath) && o.url == Some(dir + "/" + name + "?" + query))
    ensures Answers(unquote, job, o, name)
  {
    var path := dir + "/" + name;
    PathsEndInTheirName(dir, name);
    if o.storagePath == Some(path) {
      NoQuery(path);
    } else {
      QueriesAreCutOff(path, query);
    }
    NoBackslash(path);
    assert unquote(unquote(path)) == path;
  }

  // The place of the first element that satisfies p, or the length.
  method FirstWhere<T>(s: seq<T>, p: T -> bool) returns (at: nat)
    ensures at <= |s| && (at < |s| ==> p(s[at]))
    ensures forall i | 0 <= i < at :: !p(s[i])
  {
    at := 0;
    while at < |s| && !p(s[at])
      invariant at <= |s|
      invariant forall i | 0 <= i < at :: !p(s[i])
    {
      at := at + 1;
    }
  }

  // ----------------------------------------------------------- the run's script

  // What happens while the handler runs: progress messages, and the row vanishing.
  datatype Event = Progress(progress: int, msg: string) | RowDeleted

  // How storing one returned path ends.
  datatype Persisting = PathMissing | Artifact(output: Output) | PersistRaised

  // The handler returns paths or raises.
  datatype Handling = Returned(paths: seq<Persisting>) | Raised(msg: string)

  datatype Script = Script(events: seq<Event>, handling: Handling)

  function Messages(events: seq<Event>): seq<LogEntry> {
    if events == [] then []
    else
      var front, last := Messages(events[..|events| - 1]), events[|events| - 1];
      if last.Progress? then front + [LogEntry(last.progress, last.msg)] else front
  }

  predicate Deletes(events: seq<Event>) {
    events != [] && (Deletes(events[..|events| - 1]) || events[|events| - 1].RowDeleted?)
  }

  function Artifacts(paths: seq<Persisting>): seq<Output> {
    if paths == [] then []
    else
      var front, last := Artifacts(paths[..|paths| - 1]), paths[|paths| - 1];
      if last.Artifact? then front + [last.output] else front
  }

  lemma OneAlone(event: Event, path: Persisting)
    ensures Messages([event]) == if event.Progress? then [LogEntry(event.progress, event.msg)] else []
    ensures Artifacts([path]) == if path.Artifact? then [path.output] else []
  {
    assert [event][..0] == [] && [path][..0] == [];
  }

  // Messages and artifacts come in the order of their events and paths, none but those.
  lemma {:induction false} MessagesFollow(a: seq<Event>, b: seq<Event>)
    ensures Messages(a + b) == Messages(a) + Messages(b)
    decreases |b|
  {
    if b == [] {
      assert a + b == a;
    } else {
      assert (a + b)[..|a + b| - 1] == a + b[..|b| - 1];
      MessagesFollow(a, b[..|b| - 1]);
    }
  }

  lemma {:induction false} ArtifactsFollow(a: seq<Persisting>, b: seq<Persisting>)
    ensures Artifacts(a + b) == Artifacts(a) + Artifacts(b)
    decreases |b|
  {
    if b == [] {
      assert a + b == a;
    } else {
      assert (a + b)[..|a + b| - 1] == a + b[..|b| - 1];
      ArtifactsFollow(a, b[..|b| - 1]);
    }
  }

  // A row is gone after the events exactly when one of them took it.
  lemma {:induction false} DeletesExactly(events: seq<Event>)
    ensures Deletes(events) <==> RowDeleted in events
    decreases |events|
  {
    if events != [] {
      assert events == events[..|events| - 1] + [events[|events| - 1]];
      DeletesExactly(events[..|events| - 1]);
    }
  }

  function Name(output: Output): string {
    if output.storageName.Some? then output.storageName.value else ""
  }

  function OutputNames(outputs: seq<Output>): set<string> {
    set o | o in outputs :: Name(o)
  }

  // No path raised, and none was stored under a name already taken.
  ghost predicate AllStored(paths: seq<Persisting>, taken: set<string>) {
    paths != [] ==>
      var front, last := paths[..|paths| - 1], paths[|paths| - 1];
      && AllStored(front, taken) && !last.PersistRaised?
      && (last.Artifact? ==> Name(last.output) !in taken + OutputNames(Artifacts(front)))
  }

  lemma {:induction false} AllStoredPrefix(paths: seq<Persisting>, taken: set<string>, i: nat)
    requires i <= |paths| && AllStored(paths, taken)
    ensures AllStored(paths[..i], taken)
    decreases |paths|
  {
    if i == |paths| {
      assert paths[..i] == paths;
    } else {
      assert paths[..|paths| - 1][..i] == paths[..i];
      AllStoredPrefix(paths[..|paths| - 1], taken, i);
    }
  }

  lemma {:induction false} ArtifactsAreDistinct(paths: seq<Persisting>, taken: set<string>)
    requires AllStored(paths, taken)
    ensures forall o, p | o in Artifacts(paths) && p in Artifacts(paths) && Name(o) == Name(p) :: o == p
    ensures forall o | o in Artifacts(paths) :: Name(o) !in taken
    decreases |paths|
  {
    if paths != [] {
      ArtifactsAreDistinct(paths[..|paths| - 1], taken);
    }
  }

  lemma {:induction false} ArtifactsComeFromPaths(paths: seq<Persisting>)
    ensures forall o | o in Artifacts(paths) :: exists i | 0 <= i < |paths| :: paths[i] == Artifact(o)
    decreases |paths|
  {
    if paths != [] {
      var front, last := paths[..|paths| - 1], |paths| - 1;
      ArtifactsComeFromPaths(front);
      forall o | o in Artifacts(paths) ensures exists i | 0 <= i < |paths| :: paths[i] == Artifact(o) {
        if o in Artifacts(front) {
          var i :| 0 <= i < |front| && front[i] == Artifact(o);
          assert paths[i] == Artifact(o);
        } else {
          assert paths[last] == Artifact(o);
        }
      }
    }
  }

  predicate Published(output: Output) {
    output.storageName.Some? && Generated(output.storageName.value)
  }

  // What storage hands back: generated names only.
  predicate StorageScript(script: Script) {
    script.handling.Returned? ==>
      forall i | 0 <= i < |script.handling.paths| && script.handling.paths[i].Artifact? ::
        Published(script.handling.paths[i].output)
  }

  // Who published each name, once these outputs are a job's.
  ghost function Register(publisher: map<string, (JobId, Output)>, id: JobId, outputs: seq<Output>)
    : map<string, (JobId, Output)>
  {
    if outputs == [] then publisher
    else
      var last := outputs[|outputs| - 1];
      Register(publisher, id, outputs[..|outputs| - 1])[Name(last) := (id, last)]
  }

  lemma {:induction false} Registered(publisher: map<string, (JobId, Output)>, id: JobId, outputs: seq<Output>)
    requires forall o, p | o in outputs && p in outputs && Name(o) == Name(p) :: o == p
    ensures Register(publisher, id, outputs).Keys == publisher.Keys + OutputNames(outputs)
    ensures forall o | o in outputs :: Register(publisher, id, outputs)[Name(o)] == (id, o)
    ensures forall name | name in publisher && name !in OutputNames(outputs) ::
              Register(publisher, id, outputs)[name] == publisher[name]
    decreases |outputs|
  {
    if outputs != [] {
      assert outputs == outputs[..|outputs| - 1] + [outputs[|outputs| - 1]];
      Registered(publisher, id, outputs[..|outputs| - 1]);
    }
  }

  ghost predicate RegisteredTo(publisher: map<string, (JobId, Output)>, id: JobId, o: Output) {
    Published(o) && Name(o) in publisher && publisher[Name(o)] == (id, o)
  }

  // An entry of a release that did not record storage names.
  predicate Older(o: Output) {
    Name(o) == ""
  }

  // Every other output in a row is registered to that row, under its generated name.
  ghost predicate AllRegistered(jobs: map<JobId, Job>, publisher: map<string, (JobId, Output)>) {
    forall id, o | id in jobs && o in jobs[id].outputs :: Older(o) || RegisteredTo(publisher, id, o)
  }

  lemma PublishingRegisters(jobs: map<JobId, Job>, publisher: map<string, (JobId, Output)>, id: JobId, job: Job)
    requires AllRegistered(jobs, publisher)
    requires forall o | o in job.outputs :: Published(o) && Name(o) !in publisher
    requires forall o, p | o in job.outputs && p in job.outputs && Name(o) == Name(p) :: o == p
    ensures AllRegistered(jobs[id := job], Register(publisher, id, job.outputs))
  {
    var after := Register(publisher, id, job.outputs);
    Registered(publisher, id, job.outputs);
    forall j, o | j in jobs[id := job] && o in jobs[id := job][j].outputs && !Older(o)
      ensures RegisteredTo(after, j, o)
    {
      if j != id {
        assert RegisteredTo(publisher, j, o);
        assert Name(o) !in OutputNames(job.outputs);
      }
    }
  }

  ghost predicate OthersUntouched(before: map<JobId, Job>, after: map<JobId, Job>, id: JobId) {
    forall j | j != id :: (j in after <==> j in before) && (j in before ==> after[j] == before[j])
  }

  // ------------------------------------------------------------- the life of a row

  // The statuses a row has gone through: queued, running, and done or failed.
  ghost predicate IsLife(h: seq<JobStatus>) {
    h != [] && (h <= [Queued, Running, Done] || h <= [Queued, Running, Failed])
  }

  // Each row made here has a life that ends in its present status, and a scheduled job
  // has not started.
  ghost predicate Chronicle(jobs: map<JobId, Job>, scheduled: set<JobId>, history: map<JobId, seq<JobStatus>>) {
    && (forall id | id in history :: IsLife(history[id]))
    && (forall id | id in history && id in jobs :: history[id][|history[id]| - 1] == jobs[id].status)
    && (forall id | id in scheduled :: id in history && history[id] == [Queued])
  }

  lemma FourLives(h: seq<JobStatus>)
    requires IsLife(h)
    ensures h in {[Queued], [Queued, Running], [Queued, Running, Done], [Queued, Running, Failed]}
  {
    var done, failed := [Queued, Running, Done], [Queued, Running, Failed];
    assert h == done[..|h|] || h == failed[..|h|];
    assert done[..1] == [Queued] && done[..2] == [Queued, Running] && done[..3] == done;
    assert failed[..1] == [Queued] && failed[..2] == [Queued, Running] && failed[..3] == failed;
  }

  // A row that is not scheduled moves on to the end of another life.
  lemma ChronicleMoves(jobs: map<JobId, Job>, scheduled: set<JobId>, history: map<JobId, seq<JobStatus>>,
                       id: JobId, job: Job, h: seq<JobStatus>)
    requires Chronicle(jobs, scheduled, history) && id !in scheduled
    requires IsLife(h) && h[|h| - 1] == job.status
    ensures Chronicle(jobs[id := job], scheduled, history[id := h])
  {
  }

  lemma Rewritten(history: map<JobId, seq<JobStatus>>, id: JobId, h: seq<JobStatus>, later: seq<JobStatus>)
    ensures history[id := h][id := later] == history[id := later]
  {
  }

  // A new row is scheduled.
  lemma ChronicleStarts(jobs: map<JobId, Job>, scheduled: set<JobId>, history: map<JobId, seq<JobStatus>>,
                        id: JobId, job: Job)
    requires Chronicle(jobs, scheduled, history) && job.status == Queued
    ensures Chronicle(jobs[id := job], scheduled + {id}, history[id := [Queued]])
  {
  }

  // The handler came back and every output could be stored.
  ghost predicate HandlingSucceeds(script: Script, taken: set<string>) {
    script.handling.Returned? && AllStored(script.handling.paths, taken)
  }

  lemma PublishedEntryName(unquote: Unquote, fallback: string, o: Output)
    requires Decodes(unquote) && Published(o)
    ensures EntryName(unquote, fallback, o) == Name(o)
  {
    GeneratedNamesAreFixed(unquote, Name(o));
  }

  // The name that an entry without any link falls back to holds an underscore, which no
  // generated name does.
  lemma OlderAnswersAreLinked(unquote: Unquote, job: Job, o: Output, filename: string)
    requires Decodes(unquote) && Generated(filename) && Older(o) && Answers(unquote, job, o, filename)
    ensures Given(o.storagePath) || Given(o.url)
  {
    GeneratedNamesAreFixed(unquote, filename);
    var fallback := Fallback(job, o);
    assert fallback[|Decimal(job.user)|] == '_';
    assert '_' in fallback;
    assert '_' !in filename;
  }

  // The progress entries of a run whose handler was entered.
  function RunEntries(job: Job, script: Script): seq<LogEntry> {
    [LogEntry(10, StartMessage(job))] + Messages(script.events)
  }

  lemma RunLogs(logs: seq<LogEntry>, job: Job, script: Script, last: LogEntry)
    requires |logs| <= MAX_JOB_LOG_ENTRIES
    ensures var after := AppendAll(AppendJobLog(logs, LogEntry(10, StartMessage(job))), Messages(script.events));
            && after == LastEntries(logs + RunEntries(job, script))
            && AppendJobLog(after, last) == LastEntries(logs + RunEntries(job, script) + [last])
  {
    var first := LogEntry(10, StartMessage(job));
    AppendAllNext(logs, [], first);
    assert [] + [first] == [first];
    AppendAllJoin(logs, [first], Messages(script.events));
    LogsAreTheLastEntries(logs, RunEntries(job, script));
    LastOfLast(logs + RunEntries(job, script), last);
  }

  // A row that survives its run: done exactly when the handler was entered and returned
  // and everything could be stored, with its outputs; failed otherwise, with its error.
  // Either way the log holds the last entries of all that was appended.
  ghost predicate Finished(before: Job, after: Job, ran: bool, script: Script, taken: set<string>,
                           error: string, traceback: string)
  {
    if ran && HandlingSucceeds(script, taken) then
      && after.status == Done && after.progress == 100
      && after.outputs == Artifacts(script.handling.paths)
      && after.logs == LastEntries(before.logs + RunEntries(before, script))
    else
      && after.status == Failed && after.outputs == before.outputs && after.error == Some(Clipped(error))
      && after.logs == LastEntries(before.logs + (if ran then RunEntries(before, script) else [])
                                   + [LogEntry(99, traceback)])
  }

  lemma FinishedFromRunning(before: Job, after: Job, ran: bool, script: Script, taken: set<string>,
                            error: string, traceback: string)
    requires Finished(before.(status := Running), after, ran, script, taken, error, traceback)
    ensures Finished(before, after, ran, script, taken, error, traceback)
  {
  }

  lemma RefusedRowIsFinished(before: Job, script: Script, taken: set<string>, error: string, traceback: string)
    requires |before.logs| <= MAX_JOB_LOG_ENTRIES
    ensures Finished(before, before.(status := Failed, error := Some(Clipped(error)),
                                     logs := AppendJobLog(before.logs, LogEntry(99, traceback))),
                     false, script, taken, error, traceback)
  {
    assert before.logs + [] == before.logs;
  }

  class JobStore {
    const registry: map<string, string>
    const handlers: set<string>
    const unquote: Unquote
    var users: set<UserId>
    var modules: map<string, Module>
    var permissions: map<UserId, set<string>>
    var disabled: map<UserId, set<nat>>
    var uploads: map<UploadId, UserId>
    var jobs: map<JobId, Job>
    var created: seq<JobId>
    var scheduled: set<JobId>
    var stored: set<string>
    ghost var publisher: map<string, (JobId, Output)>
    ghost var history: map<JobId, seq<JobStatus>>

    // Every row is listed by its creation, has lived a life, and holds outputs whose
    // generated names storage has given once, besides entries of older releases.
    ghost predicate Valid()
      reads this
    {
      && Decodes(unquote)
      && publisher.Keys <= stored
      && jobs.Keys <= Elements(created)
      && (forall id | id in jobs :: jobs[id].id == id && |jobs[id].logs| <= MAX_JOB_LOG_ENTRIES)
      && AllRegistered(jobs, publisher)
      && Chronicle(jobs, scheduled, history)
    }

    // A store over the rows that older releases left behind, oldest first. Nobody has an
    // account yet.
    constructor (registry: map<string, string>, handlers: set<string>, unquote: Unquote,
                 rows: map<JobId, Job>, order: seq<JobId>)
      requires Decodes(unquote) && rows.Keys <= Elements(order)
      requires forall id | id in rows :: rows[id].id == id && |rows[id].logs| <= MAX_JOB_LOG_ENTRIES
      requires forall id, o | id in rows && o in rows[id].outputs :: Older(o)
      ensures Valid() && jobs == rows && created == order && scheduled == {} && history == map[]
    {
      this.registry, this.handlers, this.unquote := registry, handlers, unquote;
      users, modules, permissions, disabled, uploads := {}, map[], map[], map[], map[];
      jobs, created, scheduled, stored := rows, order, {}, {};
      publisher, history := map[], map[];
    }

    // Accounts, modules, permissions and uploads change between any two job steps.
    method Administer(users: set<UserId>, modules: map<string, Module>, permissions: map<UserId, set<string>>,
                      disabled: map<UserId, set<nat>>, uploads: map<UploadId, UserId>)
      requires Valid()
      modifies this`users, this`modules, this`permissions, this`disabled, this`uploads
      ensures Valid()
      ensures this.users == users && this.modules == modules && this.permissions == permissions
      ensures this.disabled == disabled && this.uploads == uploads
    {
      this.users, this.modules, this.permissions := users, modules, permissions;
      this.disabled, this.uploads := disabled, uploads;
    }

    predicate Permitted(user: UserId, key: string)
      reads this`modules, this`permissions, this`disabled
    {
      ModuleIsVisible(registry, key, if key in modules then Some(modules[key]) else None,
                      if user in permissions then permissions[user] else {},
                      if user in disabled then disabled[user] else {})
    }

    predicate OwnsAll(user: UserId, files: seq<UploadId>)
      reads this`uploads
    {
      forall i | 0 <= i < |files| :: files[i] in uploads && uploads[files[i]] == user
    }

    // A module is open to a user exactly when its row is there, enabled and shown, asks
    // for the registered permission, is not switched off for the user, and the user
    // holds the permission.
    lemma PermittedExactly(user: UserId, key: string)
      ensures Permitted(user, key) <==>
                && key in modules && modules[key].enabled && !modules[key].hidden
                && key in registry && modules[key].view == registry[key] && registry[key] != ""
                && !(user in disabled && modules[key].id in disabled[user])
                && user in permissions && registry[key] in permissions[user]
    {
    }

    // What has to hold at run time before the handler may start.
    ghost predicate Admits(user: UserId, moduleKey: string, files: seq<UploadId>, fromDatabase: bool)
      reads this`users, this`modules, this`permissions, this`disabled, this`uploads
    {
      && moduleKey in handlers && user in users && Permitted(user, moduleKey)
      && OwnsAll(user, files) && (files != [] || fromDatabase)
    }

    ghost predicate Admissible(job: Job)
      reads this`users, this`modules, this`permissions, this`disabled, this`uploads
    {
      Admits(job.user, job.moduleKey, job.files, job.fromDatabase)
    }

    // Counts the files that are not the user's.
    method CountRejected(user: UserId, files: seq<UploadId>) returns (rejected: nat)
      ensures rejected == 0 <==> OwnsAll(user, files)
    {
      rejected := 0;
      for i := 0 to |files|
        invariant rejected == 0 <==> OwnsAll(user, files[..i])
      {
        assert files[..i + 1] == files[..i] + [files[i]];
        if files[i] !in uploads || uploads[files[i]] != user {
          rejected := rejected + 1;
          assert files[..i + 1][i] == files[i];
        }
      }
      assert files[..|files|] == files;
    }

    // The row of a new job, and the one background task that will run it.
    method AddRow(job: Job)
      requires Valid() && job.id !in jobs && job.status == Queued && job.outputs == [] && job.logs == []
      modifies this`jobs, this`created, this`scheduled, this`history
      ensures Valid()
      ensures jobs == old(jobs)[job.id := job] && created == old(created) + [job.id]
      ensures scheduled == old(scheduled) + {job.id} && history == old(history)[job.id := [Queued]]
    {
      ChronicleStarts(jobs, scheduled, history, job.id, job);
      assert Elements(created + [job.id]) == Elements(created) + {job.id};
      assert AllRegistered(jobs[job.id := job], publisher) by {
        forall id, o | id in jobs[job.id := job] && o in jobs[job.id := job][id].outputs && !Older(o)
          ensures RegisteredTo(publisher, id, o)
        {
          assert id in jobs && o in jobs[id].outputs;
        }
      }
      jobs := jobs[job.id := job];
      created := created + [job.id];
      scheduled := scheduled + {job.id};
      history := history[job.id := [Queued]];
    }

    // create_job, for an authenticated user: the reply code, a queued row, and its task.
    method CreateJob(user: UserId, id: JobId, moduleKey: string, files: seq<UploadId>, fromDatabase: bool)
      returns (code: int)
      requires Valid() && id !in jobs && id !in history
      modifies this`jobs, this`created, this`scheduled, this`history
      ensures Valid()
      ensures code == 200 <==> moduleKey in handlers && Permitted(user, moduleKey) && OwnsAll(user, files)
      ensures code != 200 ==>
                && jobs == old(jobs) && created == old(created)
                && scheduled == old(scheduled) && history == old(history)
      ensures code == 200 ==>
                && jobs == old(jobs)[id := Job(id, user, moduleKey, files, fromDatabase, Queued, [], [], 0, None)]
                && created == old(created) + [id] && scheduled == old(scheduled) + {id}
                && history == old(history)[id := [Queued]]
    {
      if moduleKey !in handlers { return 422; }
      if !Permitted(user, moduleKey) { return 403; }
      var rejected := CountRejected(user, files);
      if rejected > 0 { return 400; }
      AddRow(Job(id, user, moduleKey, files, fromDatabase, Queued, [], [], 0, None));
      code := 200;
    }

    function Logged(job: Job, progress: int, msg: string): Job {
      job.(progress := progress, logs := AppendJobLog(job.logs, LogEntry(progress, msg)))
    }

    // log_progress: writes to the row if it is still there.
    method LogProgress(id: JobId, progress: int, msg: string)
      requires Valid()
      modifies this`jobs
      ensures Valid()
      ensures jobs == if id in old(jobs) then old(jobs)[id := Logged(old(jobs)[id], progress, msg)] else old(jobs)
    {
      if id in jobs {
        var job := jobs[id];
        jobs := jobs[id := job.(progress := progress, logs := AppendJobLog(job.logs, LogEntry(progress, msg)))];
      }
    }

    // Everything of a row but its progress and log.
    ghost predicate SameRow(a: Job, b: Job) {
      b == a.(progress := b.progress, logs := b.logs)
    }

    method HandleEvent(id: JobId, event: Event)
      requires Valid()
      modifies this`jobs
      ensures Valid() && OthersUntouched(old(jobs), jobs, id)
      ensures id in jobs <==> id in old(jobs) && !event.RowDeleted?
      ensures id in jobs ==>
                && SameRow(old(jobs)[id], jobs[id])
                && jobs[id].logs == AppendJobLog(old(jobs)[id].logs, LogEntry(event.progress, event.msg))
    {
      match event
      case Progress(progress, msg) => LogProgress(id, progress, msg);
      case RowDeleted => jobs := jobs - {id};
    }

    method RunHandler(id: JobId, events: seq<Event>)
      requires Valid() && id in jobs
      modifies this`jobs
      ensures Valid() && OthersUntouched(old(jobs), jobs, id)
      ensures id in jobs <==> !Deletes(events)
      ensures id in jobs ==>
                && SameRow(old(jobs)[id], jobs[id])
                && jobs[id].logs == AppendAll(old(jobs)[id].logs, Messages(events))
    {
      ghost var logs := jobs[id].logs;
      for i := 0 to |events|
        invariant Valid() && OthersUntouched(old(jobs), jobs, id)
        invariant id in jobs <==> !Deletes(events[..i])
        invariant id in jobs ==>
                    && SameRow(old(jobs)[id], jobs[id])
                    && jobs[id].logs == AppendAll(logs, Messages(events[..i]))
      {
        assert events[..i + 1][..i] == events[..i];
        if events[i].Progress? {
          AppendAllNext(logs, Messages(events[..i]), LogEntry(events[i].progress, events[i].msg));
        }
        HandleEvent(id, events[i]);
      }
      assert events[..|events|] == events;
    }

    // Stores the returned paths in order; a missing one is skipped.
    method PersistOutputs(paths: seq<Persisting>) returns (ok: bool, outputs: seq<Output>)
      requires Valid()
      modifies this`stored
      ensures Valid() && old(stored) <= stored
      ensures ok <==> AllStored(paths, old(stored))
      ensures ok ==> outputs == Artifacts(paths) && stored == old(stored) + OutputNames(outputs)
    {
      outputs := [];
      for i := 0 to |paths|
        invariant AllStored(paths[..i], old(stored)) && outputs == Artifacts(paths[..i])
        invariant stored == old(stored) + OutputNames(outputs)
      {
        assert paths[..i + 1][..i] == paths[..i];
        if paths[i].PersistRaised? || (paths[i].Artifact? && Name(paths[i].output) in stored) {
          assert !AllStored(paths[..i + 1], old(stored));
          if AllStored(paths, old(stored)) {
            AllStoredPrefix(paths, old(stored), i + 1);
          }
          return false, [];
        }
        if paths[i].Artifact? {
          stored := stored + {Name(paths[i].output)};
          outputs := outputs + [paths[i].output];
        }
      }
      assert paths[..|paths|] == paths;
      ok := true;
    }

    // The job has been started, by the task scheduled for it, and has not ended.
    ghost predicate Started(id: JobId)
      reads this
    {
      id !in scheduled && id in history && history[id] == [Queued, Running]
    }

    // The head of run_job_background.
    method Start(id: JobId)
      requires Valid() && id in jobs && id !in scheduled && id in history && history[id] == [Queued]
      modifies this`jobs, this`history
      ensures Valid() && Started(id)
      ensures jobs == old(jobs)[id := old(jobs)[id].(status := Running)]
      ensures history == old(history)[id := [Queued, Running]]
    {
      assert history[id] + [Running] == [Queued, Running] <= [Queued, Running, Done];
      ChronicleMoves(jobs, scheduled, history, id, jobs[id].(status := Running), [Queued, Running]);
      jobs := jobs[id := jobs[id].(status := Running)];
      history := history[id := history[id] + [Running]];
    }

    function FailedRow(job: Job, error: string, trace: string): Job {
      job.(status := Failed, error := Some(Clipped(error)), logs := AppendJobLog(job.logs, LogEntry(99, trace)))
    }

    // The failing tail of run_job_background: a surviving row becomes failed.
    method Fail(id: JobId, error: string, trace: string)
      requires Valid() && Started(id)
      modifies this`jobs, this`history
      ensures Valid()
      ensures jobs == if id in old(jobs) then old(jobs)[id := FailedRow(old(jobs)[id], error, trace)] else old(jobs)
      ensures history == if id in jobs then old(history)[id := [Queued, Running, Failed]] else old(history)
    {
      if id in jobs {
        var job := jobs[id].(status := Failed, error := Some(Clipped(error)));
        assert history[id] + [Failed] == [Queued, Running, Failed];
        ChronicleMoves(jobs, scheduled, history, id, FailedRow(jobs[id], error, trace), [Queued, Running, Failed]);
        jobs := jobs[id := job.(logs := AppendJobLog(job.logs, LogEntry(99, trace)))];
        history := history[id := history[id] + [Failed]];
      }
    }

    // The publishing tail: a surviving row becomes done with these outputs.
    method Publish(id: JobId, outputs: seq<Output>)
      requires Valid() && id in jobs && Started(id)
      requires forall o | o in outputs :: Published(o) && Name(o) in stored && Name(o) !in publisher
      requires forall o, p | o in outputs && p in outputs && Name(o) == Name(p) :: o == p
      modifies this`jobs, this`publisher, this`history
      ensures Valid()
      ensures jobs == old(jobs)[id := old(jobs)[id].(status := Done, progress := 100, outputs := outputs)]
      ensures history == old(history)[id := [Queued, Running, Done]]
    {
      var job := jobs[id].(status := Done, progress := 100, outputs := outputs);
      PublishingRegisters(jobs, publisher, id, job);
      Registered(publisher, id, outputs);
      assert history[id] + [Done] == [Queued, Running, Done];
      ChronicleMoves(jobs, scheduled, history, id, job, [Queued, Running, Done]);
      jobs := jobs[id := job];
      publisher := Register(publisher, id, outputs);
      history := history[id := history[id] + [Done]];
    }

    // The row's history after a run: its end, if it is still there.
    ghost function Ended(id: JobId): seq<JobStatus>
      reads this
    {
      if id in jobs then [Queued, Running, jobs[id].status] else [Queued, Running]
    }

    // The part of run_job_background from the first progress message on.
    method Execute(id: JobId, script: Script, error: string, traceback: string)
      requires Valid() && StorageScript(script) && id in jobs && Started(id)
      modifies this`jobs, this`stored, this`publisher, this`history
      ensures Valid() && OthersUntouched(old(jobs), jobs, id)
      ensures history == old(history)[id := Ended(id)]
      ensures id in jobs <==> !Deletes(script.events)
      ensures id in jobs ==> Finished(old(jobs)[id], jobs[id], true, script, old(stored), error, traceback)
    {
      LogProgress(id, 10, StartMessage(jobs[id]));
      RunHandler(id, script.events);
      RunLogs(old(jobs)[id].logs, old(jobs)[id], script, LogEntry(99, traceback));
      var ok, outputs := false, [];
      if script.handling.Returned? {
        ok, outputs := PersistOutputs(script.handling.paths);
      }
      if !ok {
        Fail(id, error, traceback);
      } else if id in jobs {
        ArtifactsAreDistinct(script.handling.paths, old(stored));
        ArtifactsComeFromPaths(script.handling.paths);
        Publish(id, outputs);
      }
    }

    // The checks between starting the row and starting the handler.
    method MayStart(job: Job) returns (start: bool)
      ensures start <==> Admissible(job)
    {
      if job.moduleKey !in handlers { return false; }
      if job.user !in users || !Permitted(job.user, job.moduleKey) { return false; }
      var rejected := CountRejected(job.user, job.files);
      if rejected > 0 { return false; }
      start := job.files != [] || job.fromDatabase;
    }

    // The run-time checks failed: nothing ran.
    method Refuse(id: JobId, script: Script, error: string, traceback: string)
      requires Valid() && id in jobs && Started(id)
      modifies this`jobs, this`history
      ensures Valid() && OthersUntouched(old(jobs), jobs, id) && id in jobs
      ensures history == old(history)[id := Ended(id)]
      ensures Finished(old(jobs)[id], jobs[id], false, script, stored, error, traceback)
    {
      RefusedRowIsFinished(jobs[id], script, stored, error, traceback);
      Fail(id, error, traceback);
    }

    // run_job_background, once the row shows that it is running.
    method RunStarted(id: JobId, script: Script, error: string, traceback: string) returns (ran: bool)
      requires Valid() && StorageScript(script) && id in jobs && Started(id)
      modifies this`jobs, this`stored, this`publisher, this`history
      ensures Valid() && OthersUntouched(old(jobs), jobs, id)
      ensures history == old(history)[id := Ended(id)]
      ensures ran <==> old(Admissible(jobs[id]))
      ensures id in jobs <==> !(ran && Deletes(script.events))
      ensures id in jobs ==> Finished(old(jobs)[id], jobs[id], ran, script, old(stored), error, traceback)
    {
      ran := MayStart(jobs[id]);
      if ran {
        Execute(id, script, error, traceback);
      } else {
        Refuse(id, script, error, traceback);
      }
    }

    // run_job_background on a row that is there.
    method RunRow(id: JobId, script: Script, error: string, traceback: string) returns (ran: bool)
      requires Valid() && StorageScript(script) && id in jobs
      requires id !in scheduled && id in history && history[id] == [Queued]
      modifies this`jobs, this`stored, this`publisher, this`history
      ensures Valid() && OthersUntouched(old(jobs), jobs, id)
      ensures history == old(history)[id := Ended(id)]
      ensures ran <==> old(Admissible(jobs[id]))
      ensures id in jobs <==> !(ran && Deletes(script.events))
      ensures id in jobs ==>
                Finished(old(jobs)[id].(status := Running), jobs[id], ran, script, old(stored), error, traceback)
    {
      Start(id);
      ran := RunStarted(id, script, error, traceback);
      Rewritten(old(history), id, [Queued, Running], Ended(id));
    }

    // run_job_background, as the task that create_job scheduled. `ran` tells whether the
    // handler was entered.
    method RunJob(id: JobId, script: Script, error: string, traceback: string) returns (ran: bool)
      requires Valid() && StorageScript(script) && id in scheduled
      modifies this`jobs, this`scheduled, this`stored, this`publisher, this`history
      ensures Valid() && scheduled == old(scheduled) - {id}
      ensures OthersUntouched(old(jobs), jobs, id)
      ensures id !in old(jobs) ==> jobs == old(jobs) && !ran && history == old(history)
      // The handler runs exactly when the run-time checks pass.
      ensures id in old(jobs) ==> (ran <==> old(Admissible(jobs[id])))
      // The row was queued, has been running, and ends done or failed if it survives.
      ensures id in old(jobs) ==> old(jobs)[id].status == Queued && history == old(history)[id := Ended(id)]
      ensures id in old(jobs) ==> (id in jobs <==> !(ran && Deletes(script.events)))
      ensures id in jobs ==> Finished(old(jobs)[id], jobs[id], ran, script, old(stored), error, traceback)
    {
      scheduled := scheduled - {id};
      if id !in jobs {
        return false;
      }
      ran := RunRow(id, script, error, traceback);
      if id in jobs {
        FinishedFromRunning(old(jobs)[id], jobs[id], ran, script, old(stored), error, traceback);
      }
    }

    // In every reachable state, each job made here has gone through a prefix of queued,
    // running and one end, and its row shows the last of these.
    lemma JobsMoveForward(id: JobId)
      requires Valid() && id in history
      ensures history[id] in {[Queued], [Queued, Running], [Queued, Running, Done], [Queued, Running, Failed]}
      ensures id in jobs ==> jobs[id].status == history[id][|history[id]| - 1]
    {
      FourLives(history[id]);
    }

    // ------------------------------------------------------------- downloads

    ghost predicate Downloadable(user: UserId, id: JobId, o: Output)
      reads this
    {
      id in jobs && jobs[id].user == user && jobs[id].status == Done && o in jobs[id].outputs
    }

    // Job.user_id == user_id and Job.status == done.
    predicate Listed(user: UserId, id: JobId)
      reads this
    {
      id in jobs && jobs[id].user == user && jobs[id].status == Done
    }

    // The e-th entry of the k-th job ever created is the user's and answers.
    predicate AnswersAt(user: UserId, filename: string, k: int, e: int)
      reads this
    {
      && 0 <= k < |created| && Listed(user, created[k])
      && 0 <= e < |jobs[created[k]].outputs|
      && Answers(unquote, jobs[created[k]], jobs[created[k]].outputs[e], filename)
    }

    // The newest job that answers, and its first entry that does.
    ghost predicate FirstAnswer(user: UserId, filename: string, k: int, e: int)
      reads this
    {
      && AnswersAt(user, filename, k, e)
      && forall l, f | AnswersAt(user, filename, l, f) :: l < k || (l == k && e <= f)
    }

    // An entry of an older release that names a file by path or address.
    predicate Linked(o: Output) {
      Older(o) && (Given(o.storagePath) || Given(o.url))
    }

    // The first entry of one job that answers, or their number.
    method FirstEntry(id: JobId, filename: string) returns (at: nat)
      requires id in jobs
      ensures at <= |jobs[id].outputs|
      ensures at < |jobs[id].outputs| ==> Answers(unquote, jobs[id], jobs[id].outputs[at], filename)
      ensures forall e | 0 <= e < at :: !Answers(unquote, jobs[id], jobs[id].outputs[e], filename)
    {
      var job, decode := jobs[id], unquote;
      at := FirstWhere(job.outputs, o => Answers(decode, job, o, filename));
    }

    lemma PublishedAnswer(user: UserId, id: JobId, o: Output) returns (k: int, e: int)
      requires Valid() && Downloadable(user, id, o) && !Older(o)
      ensures AnswersAt(user, Name(o), k, e) && created[k] == id && jobs[id].outputs[e] == o
    {
      assert RegisteredTo(publisher, id, o) && id in Elements(created);
      k :| 0 <= k < |created| && created[k] == id;
      e :| 0 <= e < |jobs[id].outputs| && jobs[id].outputs[e] == o;
      PublishedEntryName(unquote, Fallback(jobs[id], o), o);
    }

    lemma NothingPublished(user: UserId, filename: string)
      requires Valid() && forall k, e :: !AnswersAt(user, filename, k, e)
      ensures forall id, o | Downloadable(user, id, o) && !Older(o) :: Name(o) != filename
    {
      forall id, o | Downloadable(user, id, o) && !Older(o) ensures Name(o) != filename {
        var k, e := PublishedAnswer(user, id, o);
      }
    }

    lemma PublishedAreFound(user: UserId, filename: string, k: int, e: int)
      requires Valid() && AnswersAt(user, filename, k, e)
      ensures var first := jobs[created[k]].outputs[e];
              forall id, o | Downloadable(user, id, o) && !Older(o) && Name(o) == filename ::
                first == o || Linked(first)
    {
      var first := jobs[created[k]].outputs[e];
      forall id, o | Downloadable(user, id, o) && !Older(o) && Name(o) == filename
        ensures first == o || Linked(first)
      {
        assert RegisteredTo(publisher, id, o) && first in jobs[created[k]].outputs;
        if Older(first) {
          OlderAnswersAreLinked(unquote, jobs[created[k]], first, filename);
        } else {
          assert RegisteredTo(publisher, created[k], first);
          PublishedEntryName(unquote, Fallback(jobs[created[k]], first), first);
          GeneratedNamesAreFixed(unquote, filename);
        }
      }
    }

    // _owned_output_artifact: the user's done jobs, newest first, and their entries.
    method OwnedOutput(user: UserId, filename: string) returns (found: Option<Output>)
      requires Valid()
      // Nothing exactly when none of the user's done jobs answers, and otherwise the first.
      ensures found.None? <==> forall k, e :: !AnswersAt(user, filename, k, e)
      ensures found.Some? ==> exists k, e ::
                FirstAnswer(user, filename, k, e) && found.value == jobs[created[k]].outputs[e]
      // Every published output of a done job is found again by its owner, under its name;
      // only an older entry that links to the very name can stand before it.
      ensures forall id, o | Downloadable(user, id, o) && !Older(o) && Name(o) == filename ::
                found == Some(o) || (found.Some? && Linked(found.value))
    {
      var k := |created|;
      while k > 0
        invariant 0 <= k <= |created|
        invariant forall l, f | k <= l :: !AnswersAt(user, filename, l, f)
      {
        k := k - 1;
        var id := created[k];
        if Listed(user, id) {
          var outputs := jobs[id].outputs;
          var at := FirstEntry(id, filename);
          if at < |outputs| {
            assert FirstAnswer(user, filename, k, at);
            PublishedAreFound(user, filename, k, at);
            return Some(outputs[at]);
          }
        }
      }
      found := None;
      NothingPublished(user, filename);
    }
  }
}
