/** The one-way migration of embedded task logs into the central log
    (src/core/migrate.ts). The state is the configuration's `logVersion`,
    the tasks document and the log file. */
module Migrate {
  import opened Wrappers
  import opened JsString
  import opened Calendar
  import opened Tasks
  import opened Parser
  import opened Log
  import opened CentralLog

  /** `MigrationResult` without the backup path. */
  datatype MigrationResult = MigrationResult(tasksMigrated: nat, entriesMigrated: nat, errors: seq<string>)

  /** The second text `needsMigration` looks for. */
  const NewlineMarker: string := "\n***\n\ntask-log\n"

  /** `needsMigration`, with the document's text if it exists. */
  predicate NeedsMigration(logVersion: Option<int>, tasksText: Option<string>) {
    logVersion != Some(2) && tasksText.Some?
    && (Contains(tasksText.value, Marker) || Contains(tasksText.value, NewlineMarker))
  }

  /** The second test is subsumed by the first: migration is needed exactly
      when the version is not 2 and the document holds the marker. */
  lemma NeedsMigrationSpec(logVersion: Option<int>, tasksText: Option<string>)
    ensures NeedsMigration(logVersion, tasksText)
      <==> logVersion != Some(2) && tasksText.Some? && Contains(tasksText.value, Marker)
  {
    if tasksText.Some? && Contains(tasksText.value, NewlineMarker) {
      var s := tasksText.value;
      var i := IndexOf(s, NewlineMarker).value;
      assert s[i + 1..i + 1 + |Marker|] == s[i..i + |NewlineMarker|][1..];
      ContainsAt(s, Marker, i + 1);
    }
  }

  // ---- what the migration writes ----

  /** A task's embedded entries as central-log entries with its id. */
  function Stamped(id: string, es: seq<LogEntry>): seq<FileLogEntry> {
    seq(|es|, k requires 0 <= k < |es| => FileLogEntry(id, es[k].timestamp, es[k].message))
  }

  /** The entries the migration writes for one task. */
  function TaskRecords(t: Task): seq<FileLogEntry> {
    Stamped(t.id, TaskLog(t.content))
  }

  /** The entries the migration writes for a sequence of tasks, in order. */
  function Pending(ts: seq<Task>): seq<FileLogEntry> {
    FlatMap(ts, TaskRecords)
  }

  predicate HasLog(t: Task) {
    TaskLog(t.content) != []
  }

  /** A task after the migration: its log section stripped if it had entries. */
  function Migrated(t: Task): Task {
    if HasLog(t) then t.(content := StripTaskLog(t.content)) else t
  }

  function MigratedAll(ts: seq<Task>): (r: seq<Task>)
    ensures |r| == |ts|
  {
    seq(|ts|, k requires 0 <= k < |ts| => Migrated(ts[k]))
  }

  /** The document after the migration. */
  function MigratedFile(file: SimblFile): SimblFile {
    SimblFile(MigratedAll(file.backlog), MigratedAll(file.done), file.preamble)
  }

  lemma MigratedAllPush(ts: seq<Task>, t: Task)
    ensures MigratedAll(ts + [t]) == MigratedAll(ts) + [Migrated(t)]
  {
  }

  lemma LoggedCountPush(ts: seq<Task>, t: Task)
    ensures LoggedCount(ts + [t]) == LoggedCount(ts) + (if HasLog(t) then 1 else 0)
  {
    assert (ts + [t])[..|ts|] == ts;
  }

  /** The number of tasks with at least one entry. */
  function LoggedCount(ts: seq<Task>): nat {
    if ts == [] then 0
    else LoggedCount(ts[..|ts| - 1]) + (if HasLog(ts[|ts| - 1]) then 1 else 0)
  }

  /** An entry whose stamp `toISOString` does not throw on. */
  predicate ValidStamp(e: FileLogEntry) {
    e.timestamp.Valid?
  }

  predicate AllValidStamps(fs: seq<FileLogEntry>) {
    forall k :: 0 <= k < |fs| ==> ValidStamp(fs[k])
  }

  predicate AllRenderableF(fs: seq<FileLogEntry>) {
    forall k :: 0 <= k < |fs| ==> Renderable(fs[k].timestamp)
  }

  /** The entries written before the first invalid stamp throws. */
  function ValidPrefix(fs: seq<FileLogEntry>): seq<FileLogEntry> {
    TakeWhile(fs, ValidStamp)
  }

  /** The log file after `appendLogToFile` of each of `fs`, in turn. */
  function AfterAppends(present: bool, text: string, fs: seq<FileLogEntry>): (bool, string) {
    Fold((present, text), fs, AppendStep)
  }

  // ---- properties ----

  /** Appending two runs of entries is appending the first, then the second
      to the file it leaves. */
  lemma AppendsConcat(present: bool, text: string, a: seq<FileLogEntry>, b: seq<FileLogEntry>)
    ensures var m := AfterAppends(present, text, a);
      AfterAppends(present, text, a + b) == AfterAppends(m.0, m.1, b)
  {
    FoldConcat((present, text), a, b, AppendStep);
  }

  /** The `task-log` test skips no task with entries. */
  lemma TaskLogNeedsTag(content: string)
    requires !Contains(content, "task-log")
    ensures TaskLog(content) == []
  {
    if content != "" && SearchMarker(content).Some? {
      var p := SearchMarker(content).value;
      if p == 0 && OccursAt(content, Marker, 0) {
        TagInMarker(content, 0);
      } else {
        TagInMarker(content, p + 1);
      }
    }
  }

  lemma TagInMarker(s: string, q: nat)
    requires OccursAt(s, Marker, q)
    ensures Contains(s, "task-log")
  {
    assert s[q + 5..q + 13] == s[q..q + 14][5..13] == Marker[5..13] == "task-log";
    ContainsAt(s, "task-log", q + 5);
  }

  /** A migrated task has no embedded log left: migrating the result again
      would write nothing. */
  lemma MigratedHasNoLog(t: Task)
    ensures TaskLog(Migrated(t).content) == []
    ensures Migrated(Migrated(t)) == Migrated(t)
  {
    if HasLog(t) {
      StripLeavesNoMarker(t.content);
      NoMarkerNoLog(StripTaskLog(t.content));
    }
  }

  lemma {:induction false} MigratedAllPending(ts: seq<Task>)
    ensures Pending(MigratedAll(ts)) == []
    ensures LoggedCount(MigratedAll(ts)) == 0
    decreases |ts|
  {
    if ts != [] {
      var init := ts[..|ts| - 1];
      var m := MigratedAll(ts);
      assert m[..|m| - 1] == MigratedAll(init);
      MigratedAllPending(init);
      MigratedHasNoLog(ts[|ts| - 1]);
    }
  }

  /** The migration's entries keep the tasks' order and each entry's order. */
  lemma PendingConcat(a: seq<Task>, b: seq<Task>)
    ensures Pending(a + b) == Pending(a) + Pending(b)
  {
    FlatMapConcat(a, b, TaskRecords);
  }

  lemma PendingPush(ts: seq<Task>, t: Task)
    ensures Pending(ts + [t]) == Pending(ts) + TaskRecords(t)
  {
    FlatMapPush(ts, t, TaskRecords);
  }

  /** Exactly the tasks with a log contribute entries. */
  lemma {:induction false} PendingCount(ts: seq<Task>)
    ensures |Pending(ts)| >= LoggedCount(ts)
    ensures Pending(ts) == [] <==> LoggedCount(ts) == 0
    decreases |ts|
  {
    if ts != [] {
      var init := ts[..|ts| - 1];
      PendingCount(init);
      SplitLast(ts);
      PendingPush(init, ts[|ts| - 1]);
    }
  }

  lemma RenderableStamped(id: string, es: seq<LogEntry>)
    requires AllRenderable(es)
    ensures AllRenderableF(Stamped(id, es))
  {
  }

  lemma {:induction false} PendingRenderable(ts: seq<Task>)
    ensures AllRenderableF(Pending(ts))
    decreases |ts|
  {
    if ts != [] {
      var init := ts[..|ts| - 1];
      var t := ts[|ts| - 1];
      PendingRenderable(init);
      SplitLast(ts);
      PendingPush(init, t);
      TaskLogRenderable(t.content);
      RenderableStamped(t.id, TaskLog(t.content));
    }
  }

  /** A file that is missing, empty or ends in a newline: every file that
      only `appendLogToFile` has written is one. */
  predicate WellEnded(present: bool, text: string) {
    !present || text == "" || text[|text| - 1] == '\n'
  }

  /** Reading the log after the appends gives the entries read before, then
      the appended ones. */
  lemma {:induction false} AppendsRead(present: bool, text: string, fs: seq<FileLogEntry>)
    requires AllValidStamps(fs) && AllRenderableF(fs)
    requires WellEnded(present, text)
    ensures var after := AfterAppends(present, text, fs);
      WellEnded(after.0, after.1)
      && CentralLog.ReadEntries(after.0, after.1) == CentralLog.ReadEntries(present, text) + fs
    decreases |fs|
  {
    if fs != [] {
      var init := fs[..|fs| - 1];
      var e := fs[|fs| - 1];
      assert AllValidStamps(init) && AllRenderableF(init) by {
        forall k | 0 <= k < |init| ensures ValidStamp(init[k]) && Renderable(init[k].timestamp) {
          assert init[k] == fs[k];
        }
      }
      AppendsRead(present, text, init);
      var prior := AfterAppends(present, text, init);
      assert ValidStamp(e) && Renderable(e.timestamp);
      SplitLast(fs);
      FoldPush((present, text), init, e, AppendStep);
      var after := AfterAppends(present, text, fs);
      assert after == Fold((present, text), init + [e], AppendStep);
      assert after == AppendStep(prior, e);
      assert after == (true, (if prior.0 then prior.1 else "") + EntryText(e).value);
      ReadAfterAppend(prior.0, prior.1, e);
      EntryTextReads(e);
      Reassociate(CentralLog.ReadEntries(present, text), init, [e]);
    }
  }

  // ---- the state ----

  class Store {
    /** `config.logVersion`, absent in configurations written before it. */
    var logVersion: Option<int>
    /** The text of `tasks.md`, `None` when the file does not exist. */
    var tasksText: Option<string>
    /** `log.ndjson` */
    const log: LogFile

    constructor(logVersion: Option<int>, tasksText: Option<string>, log: LogFile)
      ensures this.logVersion == logVersion && this.tasksText == tasksText && this.log == log
    {
      this.logVersion := logVersion;
      this.tasksText := tasksText;
      this.log := log;
    }

    /** `migrateTaskLogs`, reading the document with a tokenizer and a
        block renderer. An `appendLogToFile` that throws aborts the
        migration: the lines written so far stay, and neither the document
        nor `logVersion` is written. */
    method MigrateTaskLogs(tokenize: string -> seq<Block>, render: seq<Block> -> string)
      returns (r: Result<MigrationResult>)
      modifies this, log
      ensures old(logVersion) == Some(2) ==>
        r == Ok(MigrationResult(0, 0, [])) && unchanged(this) && unchanged(log)
      ensures old(logVersion) != Some(2) && old(tasksText).None? ==>
        r == Ok(MigrationResult(0, 0, [])) && logVersion == Some(2) && tasksText == None && unchanged(log)
      ensures old(logVersion) != Some(2) && old(tasksText).Some? ==>
        var file := ParseBlocks(render, tokenize(old(tasksText).value));
        var fs := Pending(AllTasks(file));
        var written := ValidPrefix(fs);
        (log.present, log.text) == AfterAppends(old(log.present), old(log.text), written)
        && (r.Ok? <==> written == fs)
        && (r.Err? ==> r.error == RangeError && logVersion == old(logVersion) && tasksText == old(tasksText))
        && (r.Ok? ==>
              r.value == MigrationResult(LoggedCount(AllTasks(file)), |fs|, [])
              && logVersion == Some(2)
              && tasksText == if LoggedCount(AllTasks(file)) > 0 then Some(SerializedText(MigratedFile(file))) else old(tasksText))
    {
      r := Ok(MigrationResult(0, 0, []));
      if logVersion == Some(2) {
        return;
      }
      if tasksText.None? {
        logVersion := Some(2);
        return;
      }
      var file := ParseSimblFile(render, tokenize(tasksText.value));
      var allTasks := file.backlog + file.done;
      var tasksModified, migrated;
      r, tasksModified, migrated := MigrateTasks(allTasks);
      if r.Err? {
        return;
      }
      if tasksModified {
        MigratedAllConcat(file.backlog, file.done);
        assert migrated[..|file.backlog|] == MigratedAll(file.backlog);
        assert migrated[|file.backlog|..] == MigratedAll(file.done);
        var updatedContent := SerializeSimblFile(SimblFile(migrated[..|file.backlog|], migrated[|file.backlog|..], file.preamble));
        tasksText := Some(updatedContent);
      }
      logVersion := Some(2);
    }

    /** The loop of `migrateTaskLogs` over the tasks, backlog then done:
        `migrated` holds the tasks as the loop leaves them. */
    method MigrateTasks(allTasks: seq<Task>) returns (r: Result<MigrationResult>, tasksModified: bool, migrated: seq<Task>)
      modifies log
      ensures var fs := Pending(allTasks);
        var written := ValidPrefix(fs);
        (log.present, log.text) == AfterAppends(old(log.present), old(log.text), written)
        && (r.Ok? <==> written == fs)
        && (r.Err? ==> r.error == RangeError)
        && (r.Ok? ==>
              r.value == MigrationResult(LoggedCount(allTasks), |fs|, [])
              && (tasksModified <==> LoggedCount(allTasks) > 0)
              && migrated == MigratedAll(allTasks))
    {
      tasksModified := false;
      var tasksMigrated, entriesMigrated := 0, 0;
      migrated := [];
      for i := 0 to |allTasks|
        invariant AllValidStamps(Pending(allTasks[..i]))
        invariant (log.present, log.text) == AfterAppends(old(log.present), old(log.text), Pending(allTasks[..i]))
        invariant entriesMigrated == |Pending(allTasks[..i])|
        invariant tasksMigrated == LoggedCount(allTasks[..i])
        invariant tasksModified <==> tasksMigrated > 0
        invariant migrated == MigratedAll(allTasks[..i])
      {
        var before := Pending(allTasks[..i]);
        MigrateStep(allTasks, i);
        var appended, task := MigrateTask(allTasks[i]);
        AppendsConcat(old(log.present), old(log.text), before, ValidPrefix(TaskRecords(allTasks[i])));
        if appended.Err? {
          MigrateStops(allTasks, i);
          return Err(appended.error), tasksModified, migrated;
        }
        ValidAppend(before, TaskRecords(allTasks[i]));
        entriesMigrated := entriesMigrated + appended.value;
        if appended.value > 0 {
          tasksModified := true;
          tasksMigrated := tasksMigrated + 1;
        }
        migrated := migrated + [task];
      }
      WholePrefix(allTasks);
      AllValidPrefix(Pending(allTasks));
      r := Ok(MigrationResult(tasksMigrated, entriesMigrated, []));
    }

    /** The body of the loop of `migrateTaskLogs` for one task: a task
        without `task-log` in its content or without entries is skipped;
        otherwise its entries are written and its log section stripped.
        `r` holds the number of entries written. */
    method MigrateTask(task: Task) returns (r: Result<nat>, updated: Task)
      modifies log
      ensures var written := ValidPrefix(TaskRecords(task));
        (log.present, log.text) == AfterAppends(old(log.present), old(log.text), written)
        && (r.Ok? <==> written == TaskRecords(task))
        && (r.Err? ==> r.error == RangeError)
        && (r.Ok? ==> r.value == |TaskRecords(task)| && (r.value > 0 <==> HasLog(task)) && updated == Migrated(task))
    {
      updated := task;
      r := Ok(0);
      if !Contains(task.content, "task-log") {
        TaskLogNeedsTag(task.content);
        return;
      }
      var logEntries := ParseTaskLog(task.content);
      if |logEntries| == 0 {
        return;
      }
      TaskLogRenderable(task.content);
      var appended := WriteEntries(task.id, logEntries);
      if appended.Err? {
        return Err(appended.error), updated;
      }
      updated := task.(content := StripTaskLog(task.content));
      r := Ok(|logEntries|);
    }

    /** The inner loop of `migrateTaskLogs`: each entry written with the
        task's id, until one throws. */
    method WriteEntries(id: string, logEntries: seq<LogEntry>) returns (r: Result<()>)
      requires AllRenderable(logEntries)
      modifies log
      ensures var written := ValidPrefix(Stamped(id, logEntries));
        (log.present, log.text) == AfterAppends(old(log.present), old(log.text), written)
        && (r.Ok? <==> written == Stamped(id, logEntries))
        && (r.Err? ==> r.error == RangeError)
    {
      var fs := Stamped(id, logEntries);
      for j := 0 to |logEntries|
        invariant AllValidStamps(fs[..j])
        invariant (log.present, log.text) == AfterAppends(old(log.present), old(log.text), fs[..j])
      {
        var entry := logEntries[j];
        var fileEntry := FileLogEntry(id, entry.timestamp, entry.message);
        assert fileEntry == fs[j] && Renderable(fileEntry.timestamp);
        var ok := log.AppendLogToFile(fileEntry);
        if ok.Err? {
          StopsAt(fs, j);
          return ok;
        }
        ValidPush(fs, j);
        FoldPush((old(log.present), old(log.text)), fs[..j], fs[j], AppendStep);
      }
      WholePrefix(fs);
      AllValidPrefix(fs);
      r := Ok(());
    }
  }

  lemma ValidPush(fs: seq<FileLogEntry>, j: nat)
    requires j < |fs| && AllValidStamps(fs[..j]) && ValidStamp(fs[j])
    ensures fs[..j + 1] == fs[..j] + [fs[j]] && AllValidStamps(fs[..j + 1])
  {
    PrefixPush(fs, j);
  }

  lemma AllValidPrefix(fs: seq<FileLogEntry>)
    requires AllValidStamps(fs)
    ensures ValidPrefix(fs) == fs
  {
    TakeWhileConcat(fs, [], ValidStamp);
    assert fs + [] == fs;
  }

  /** The writes stop at the first invalid stamp. */
  lemma StopsAt(fs: seq<FileLogEntry>, j: nat)
    requires j < |fs| && AllValidStamps(fs[..j]) && !ValidStamp(fs[j])
    ensures ValidPrefix(fs) == fs[..j] != fs
  {
    assert fs == fs[..j] + fs[j..];
    TakeWhileConcat(fs[..j], fs[j..], ValidStamp);
  }

  /** One task of the loop of `migrateTaskLogs`: the prefix one task longer. */
  lemma MigrateStep(ts: seq<Task>, i: nat)
    requires i < |ts|
    ensures Pending(ts[..i + 1]) == Pending(ts[..i]) + TaskRecords(ts[i])
    ensures MigratedAll(ts[..i + 1]) == MigratedAll(ts[..i]) + [Migrated(ts[i])]
    ensures LoggedCount(ts[..i + 1]) == LoggedCount(ts[..i]) + (if HasLog(ts[i]) then 1 else 0)
    ensures !HasLog(ts[i]) ==> Pending(ts[..i + 1]) == Pending(ts[..i]) && Migrated(ts[i]) == ts[i]
  {
    assert ts[..i + 1] == ts[..i] + [ts[i]];
    PendingPush(ts[..i], ts[i]);
    MigratedAllPush(ts[..i], ts[i]);
    LoggedCountPush(ts[..i], ts[i]);
    assert Pending(ts[..i]) + [] == Pending(ts[..i]);
  }

  lemma ValidAppend(a: seq<FileLogEntry>, b: seq<FileLogEntry>)
    requires AllValidStamps(a) && ValidPrefix(b) == b
    ensures AllValidStamps(a + b)
  {
    forall k | 0 <= k < |a + b| ensures ValidStamp((a + b)[k]) {
      if k >= |a| {
        assert (a + b)[k] == b[k - |a|];
      }
    }
  }

  lemma MigratedAllConcat(a: seq<Task>, b: seq<Task>)
    ensures MigratedAll(a + b) == MigratedAll(a) + MigratedAll(b)
  {
  }

  /** When the writes for task `i` stop early, nothing after it is written. */
  lemma MigrateStops(ts: seq<Task>, i: nat)
    requires i < |ts| && AllValidStamps(Pending(ts[..i]))
    requires ValidPrefix(TaskRecords(ts[i])) != TaskRecords(ts[i])
    ensures ValidPrefix(Pending(ts)) == Pending(ts[..i]) + ValidPrefix(TaskRecords(ts[i]))
    ensures ValidPrefix(Pending(ts)) != Pending(ts)
  {
    MigrateStep(ts, i);
    PrefixSuffix(ts, i + 1);
    PendingConcat(ts[..i + 1], ts[i + 1..]);
    StopsWithin(Pending(ts[..i]), TaskRecords(ts[i]), Pending(ts[i + 1..]));
  }

  /** Writes that stop within `b`, after a fully written `a`. */
  lemma StopsWithin(a: seq<FileLogEntry>, b: seq<FileLogEntry>, c: seq<FileLogEntry>)
    requires AllValidStamps(a) && ValidPrefix(b) != b
    ensures ValidPrefix(a + b + c) == a + ValidPrefix(b) != a + b + c
  {
    Reassociate(a, b, c);
    TakeWhileConcat(a, b + c, ValidStamp);
    TakeWhileStops(b, c, ValidStamp);
    assert |TakeWhile(b, ValidStamp)| < |b|;
  }
}
