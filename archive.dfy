/** The archive flow of the terminal interface (src/cli/tui/archive.ts):
    the done tasks the user selects move to the front of the done section of
    `tasks-archive.md`, and the rest stay in `tasks.md`. The two prompts are
    parameters: the selection (`None` when it is cancelled) and the answer
    to the confirmation. Reading and writing the two files are not part of
    this model; the documents are the state. */
module Archive {
  import opened Wrappers
  import opened Tasks
  import opened Commands

  /** `new Set(selected)`. */
  function Ids(selected: seq<string>): set<string> {
    set id | id in selected
  }

  /** `file.done.filter((t) => selectedIds.has(t.id))`. */
  function ToArchive(done: seq<Task>, ids: set<string>): (r: seq<Task>)
    ensures |r| <= |done|
    decreases |done|
  {
    if done == [] then []
    else ToArchive(done[..|done| - 1], ids) + if done[|done| - 1].id in ids then [done[|done| - 1]] else []
  }

  /** `file.done.filter((t) => !selectedIds.has(t.id))`. */
  function ToKeep(done: seq<Task>, ids: set<string>): (r: seq<Task>)
    ensures |r| <= |done|
    decreases |done|
  {
    if done == [] then []
    else ToKeep(done[..|done| - 1], ids) + if done[|done| - 1].id !in ids then [done[|done| - 1]] else []
  }

  /** The archive document the flow edits: the parsed `tasks-archive.md` when
      it exists, otherwise an empty one. */
  function ArchiveDocument(existing: Option<SimblFile>): (r: SimblFile)
    ensures existing.Some? ==> r == existing.value
    ensures existing.None? ==> r.backlog == [] && r.done == [] && r.preamble.None?
  {
    if existing.Some? then existing.value else SimblFile([], [], None)
  }

  /** Whether the flow gets as far as writing: there are done tasks, the
      selection was neither cancelled nor empty, and the user confirmed. */
  predicate Proceeds(done: seq<Task>, selected: Option<seq<string>>, confirmed: bool) {
    done != [] && selected.Some? && selected.value != [] && confirmed
  }

  /** `runArchiveFlow` from the parse of both files to their writing:
      `archiveFile.done = [...tasksToArchive, ...archiveFile.done]` and
      `file.done = tasksToKeep`, or nothing at all on any early return. */
  method RunArchiveFlow(doc: TasksFile, archive: TasksFile, selected: Option<seq<string>>, confirmed: bool)
    returns (written: bool)
    requires doc != archive
    modifies doc, archive
    ensures written <==> Proceeds(old(doc.done), selected, confirmed)
    ensures !written ==> doc.File() == old(doc.File()) && archive.File() == old(archive.File())
    ensures written ==>
      var ids := Ids(selected.value);
      doc.File() == old(doc.File()).(done := ToKeep(old(doc.done), ids))
      && archive.File() == old(archive.File()).(done := ToArchive(old(doc.done), ids) + old(archive.done))
  {
    if |doc.done| == 0 {
      return false;
    }
    if selected.None? || |selected.value| == 0 {
      return false;
    }
    var ids := Ids(selected.value);
    var tasksToArchive := ToArchive(doc.done, ids);
    var tasksToKeep := ToKeep(doc.done, ids);
    if !confirmed {
      return false;
    }
    archive.done := tasksToArchive + archive.done;
    doc.done := tasksToKeep;
    written := true;
  }

  // ---- properties ----

  /** The two filters split the done section: a task goes to the archive
      exactly when its id was selected and stays exactly when it was not,
      and no task is lost or duplicated. */
  lemma {:induction false} Partition(done: seq<Task>, ids: set<string>)
    ensures |ToArchive(done, ids)| + |ToKeep(done, ids)| == |done|
    ensures multiset(ToArchive(done, ids)) + multiset(ToKeep(done, ids)) == multiset(done)
    ensures forall t :: t in ToArchive(done, ids) <==> t in done && t.id in ids
    ensures forall t :: t in ToKeep(done, ids) <==> t in done && t.id !in ids
    decreases |done|
  {
    if done != [] {
      var init, t := done[..|done| - 1], done[|done| - 1];
      Partition(init, ids);
      SplitLast(done);
      assert multiset(done) == multiset(init) + multiset{t};
    }
  }

  /** Both filters work task by task, so each keeps the relative order of
      the done section. */
  lemma {:induction false} SplitConcat(a: seq<Task>, b: seq<Task>, ids: set<string>)
    ensures ToArchive(a + b, ids) == ToArchive(a, ids) + ToArchive(b, ids)
    ensures ToKeep(a + b, ids) == ToKeep(a, ids) + ToKeep(b, ids)
    decreases |b|
  {
    if b == [] {
      AppendEmpty(a);
      AppendEmpty(ToArchive(a, ids));
      AppendEmpty(ToKeep(a, ids));
    } else {
      var init, x := b[..|b| - 1], b[|b| - 1];
      SplitConcat(a, init, ids);
      SnocSplit(a, b);
      Reassociate(ToArchive(a, ids), ToArchive(init, ids), if x.id in ids then [x] else []);
      Reassociate(ToKeep(a, ids), ToKeep(init, ids), if x.id !in ids then [x] else []);
    }
  }

  /** A selection naming no done task archives nothing and keeps the whole
      section. */
  lemma {:induction false} NoneSelected(done: seq<Task>, ids: set<string>)
    requires forall k :: 0 <= k < |done| ==> done[k].id !in ids
    ensures ToArchive(done, ids) == [] && ToKeep(done, ids) == done
    decreases |done|
  {
    if done != [] {
      NoneSelected(done[..|done| - 1], ids);
      SplitLast(done);
    }
  }

  /** A selection naming every done task archives the whole section. */
  lemma {:induction false} AllSelected(done: seq<Task>, ids: set<string>)
    requires forall k :: 0 <= k < |done| ==> done[k].id in ids
    ensures ToArchive(done, ids) == done && ToKeep(done, ids) == []
    decreases |done|
  {
    if done != [] {
      AllSelected(done[..|done| - 1], ids);
      SplitLast(done);
    }
  }

  /** The move neither creates nor loses a task: the done sections of the
      two documents hold, together, what they held before. */
  lemma Conserved(done: seq<Task>, archived: seq<Task>, ids: set<string>)
    ensures multiset(ToKeep(done, ids)) + multiset(ToArchive(done, ids) + archived)
      == multiset(done) + multiset(archived)
  {
    Partition(done, ids);
  }
}
