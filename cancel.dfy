/** `simbl cancel`: moving a backlog task to the front of the done section
    as canceled (src/cli/commands/cancel.ts). */
module CancelCommand {
  import opened Wrappers
  import opened Calendar
  import opened Tasks
  import opened Parser
  import opened TaskGraph
  import opened Log
  import opened CentralLog
  import opened Commands

  /** The task as it lands in done: `canceled` pushed, whether or not it is
      there already, every `in-progress` tag dropped, the flags set and the
      status canceled. */
  function CanceledTask(t: Task): Task {
    t.(tags := Without(t.tags + ["canceled"], "in-progress"),
       reserved := t.reserved.(canceled := true, inProgress := false),
       status := Canceled, section := DoneSection)
  }

  /** What `run` does to the document, or the message it exits with. */
  function Cancellation(file: SimblFile, id: string): Result<SimblFile> {
    if id in Ids(file.done) then Err("Task \"" + id + "\" is already done and cannot be canceled.")
    else match FirstWithId(file.backlog, id)
      case None => Err("Task \"" + id + "\" not found in backlog.")
      case Some(k) => Ok(Moved(file, k, CanceledTask(file.backlog[k])))
  }

  const CancelMessage := "Marked as canceled"

  /** `run`, with the clock reading `now`: the document is written before
      the centralised log line. */
  method Run(doc: TasksFile, log: LogFile, id: string, now: Stamp) returns (r: Result<()>)
    requires Renderable(now)
    modifies doc, log
    ensures Cancellation(old(doc.File()), id).Err? ==>
      r == Err(Cancellation(old(doc.File()), id).error) && doc.File() == old(doc.File())
      && log.present == old(log.present) && log.text == old(log.text)
    ensures Cancellation(old(doc.File()), id).Ok? ==> doc.File() == Cancellation(old(doc.File()), id).value
    ensures Cancellation(old(doc.File()), id).Ok? ==>
      (log.present, log.text) == AppendStep((old(log.present), old(log.text)), FileLogEntry(id, now, CancelMessage))
      && r == (if now.Valid? then Ok(()) else Err(RangeError))
  {
    var inDone := id in Ids(doc.done);
    if inDone {
      return Err("Task \"" + id + "\" is already done and cannot be canceled.");
    }
    var taskIndex := FirstWithId(doc.backlog, id);
    if taskIndex.None? {
      return Err("Task \"" + id + "\" not found in backlog.");
    }
    var k := taskIndex.value;
    var task := doc.backlog[k];
    doc.backlog := doc.backlog[..k] + doc.backlog[k + 1..];
    task := task.(tags := task.tags + ["canceled"]);
    task := task.(reserved := task.reserved.(canceled := true), status := Canceled);
    task := task.(section := DoneSection);
    task := task.(tags := Without(task.tags, "in-progress"));
    task := task.(reserved := task.reserved.(inProgress := false));
    doc.done := [task] + doc.done;
    r := log.AppendLogToFile(FileLogEntry(id, now, CancelMessage));
  }

  // ---- properties ----

  /** Only a task of the backlog, with no task of that id in done, can be
      canceled. */
  lemma CancellationAccepts(file: SimblFile, id: string)
    ensures Cancellation(file, id).Ok? <==> id !in Ids(file.done) && id in Ids(file.backlog)
  {
    if id in Ids(file.backlog) {
      var k :| 0 <= k < |file.backlog| && file.backlog[k].id == id;
    }
  }

  /** The first backlog task with the id moves to the front of done; the
      others keep their order and no task is lost. */
  lemma CancellationMoves(file: SimblFile, id: string)
    requires id !in Ids(file.done) && id in Ids(file.backlog)
    ensures var k := FirstWithId(file.backlog, id).value;
      var r := Cancellation(file, id).value;
      file.backlog[k].id == id
      && r.backlog == file.backlog[..k] + file.backlog[k + 1..]
      && r.done == [CanceledTask(file.backlog[k])] + file.done
      && multiset(AllTasks(r)) == multiset(AllTasks(file)) - multiset{file.backlog[k]} + multiset{CanceledTask(file.backlog[k])}
  {
    CancellationAccepts(file, id);
    var k := FirstWithId(file.backlog, id).value;
    MovedTasks(file, k, CanceledTask(file.backlog[k]));
  }

  /** The canceled task's tags are the old ones without `in-progress`, then
      `canceled`, so an existing `canceled` is doubled; its reserved record
      still reads back from the tags, and its status is what they give. */
  lemma CanceledTaskReads(t: Task)
    requires t.reserved == ReservedOf(t.tags)
    ensures var t' := CanceledTask(t);
      t'.tags == Without(t.tags, "in-progress") + ["canceled"]
      && multiset(t'.tags)["canceled"] == multiset(t.tags)["canceled"] + 1
      && Consistent(t') && t'.status == Canceled && t'.section == DoneSection
  {
    WithoutPush(t.tags, "canceled", "in-progress");
    WithoutInProgressReserved(t.tags);
    var kept := Without(t.tags, "in-progress");
    ReservedOfAppend(kept, "canceled");
    LiteralTags("canceled");
    WithoutCount(t.tags, "in-progress", "canceled");
  }
}
