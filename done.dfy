/** `simbl done`: moving a backlog task to the front of the done section
    (src/cli/commands/done.ts). */
module DoneCommand {
  import opened Wrappers
  import opened Calendar
  import opened Tasks
  import opened Parser
  import opened TaskGraph
  import opened Log
  import opened CentralLog
  import opened Commands

  /** The task as it lands in done: section and status set to done, every
      `in-progress` tag dropped and the flag cleared. */
  function Completed(t: Task): Task {
    t.(section := DoneSection, status := Done, tags := Without(t.tags, "in-progress"),
       reserved := t.reserved.(inProgress := false))
  }

  /** What `run` does to the document, or the message it exits with. */
  function Completion(file: SimblFile, id: string): Result<SimblFile> {
    match FirstWithId(file.backlog, id)
    case None =>
      if id in Ids(file.done) then Err("Task \"" + id + "\" is already done.")
      else Err("Task \"" + id + "\" not found in backlog.")
    case Some(k) => Ok(Moved(file, k, Completed(file.backlog[k])))
  }

  const DoneMessage := "Moved to Done"

  /** `run`, with the clock reading `now`: the document is written before
      the centralised log line, so a throwing append leaves the move done. */
  method Run(doc: TasksFile, log: LogFile, id: string, now: Stamp) returns (r: Result<()>)
    requires Renderable(now)
    modifies doc, log
    ensures Completion(old(doc.File()), id).Err? ==>
      r == Err(Completion(old(doc.File()), id).error) && doc.File() == old(doc.File())
      && log.present == old(log.present) && log.text == old(log.text)
    ensures Completion(old(doc.File()), id).Ok? ==> doc.File() == Completion(old(doc.File()), id).value
    ensures Completion(old(doc.File()), id).Ok? ==>
      (log.present, log.text) == AppendStep((old(log.present), old(log.text)), FileLogEntry(id, now, DoneMessage))
      && r == (if now.Valid? then Ok(()) else Err(RangeError))
  {
    var taskIndex := FirstWithId(doc.backlog, id);
    if taskIndex.None? {
      var inDone := id in Ids(doc.done);
      if inDone {
        return Err("Task \"" + id + "\" is already done.");
      }
      return Err("Task \"" + id + "\" not found in backlog.");
    }
    var k := taskIndex.value;
    var task := doc.backlog[k];
    doc.backlog := doc.backlog[..k] + doc.backlog[k + 1..];
    task := task.(section := DoneSection, status := Done);
    task := task.(tags := Without(task.tags, "in-progress"));
    task := task.(reserved := task.reserved.(inProgress := false));
    doc.done := [task] + doc.done;
    r := log.AppendLogToFile(FileLogEntry(id, now, DoneMessage));
  }

  // ---- properties ----

  /** Only a task of the backlog can be completed. */
  lemma CompletionAccepts(file: SimblFile, id: string)
    ensures Completion(file, id).Ok? <==> id in Ids(file.backlog)
  {
    if id in Ids(file.backlog) {
      var k :| 0 <= k < |file.backlog| && file.backlog[k].id == id;
    }
  }

  /** The first backlog task with the id moves to the front of done; the
      others keep their order and no task is lost. */
  lemma CompletionMoves(file: SimblFile, id: string)
    requires id in Ids(file.backlog)
    ensures var k := FirstWithId(file.backlog, id).value;
      var r := Completion(file, id).value;
      file.backlog[k].id == id
      && r.backlog == file.backlog[..k] + file.backlog[k + 1..]
      && r.done == [Completed(file.backlog[k])] + file.done
      && multiset(AllTasks(r)) == multiset(AllTasks(file)) - multiset{file.backlog[k]} + multiset{Completed(file.backlog[k])}
  {
    CompletionAccepts(file, id);
    var k := FirstWithId(file.backlog, id).value;
    MovedTasks(file, k, Completed(file.backlog[k]));
  }

  /** The completed task carries no `in-progress` tag, its reserved record
      still reads back from its tags, and its status is what its tags give
      for the done section unless it carries `canceled`, for which
      `deriveStatus` would say canceled. */
  lemma CompletedTask(t: Task)
    requires t.reserved == ReservedOf(t.tags)
    ensures var t' := Completed(t);
      "in-progress" !in t'.tags && (forall u :: u in t'.tags <==> u in t.tags && u != "in-progress")
      && t'.reserved == ReservedOf(t'.tags) && !t'.reserved.inProgress
      && t'.section == DoneSection && t'.status == Done
      && (Consistent(t') <==> !t.reserved.canceled)
  {
    WithoutMembers(t.tags, "in-progress");
    WithoutInProgressReserved(t.tags);
  }
}
