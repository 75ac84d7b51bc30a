/** `simbl update`: a task's title and content rewritten in place
    (src/cli/commands/update.ts). */
module UpdateCommand {
  import opened Wrappers
  import opened JsString
  import opened Tasks
  import opened Parser
  import opened TaskGraph
  import opened Commands
  import opened Headings

  /** The content after `--content`, then `--append`: appending to empty
      content adds no separator. */
  function NewContent(before: string, content: Option<string>, append: Option<string>): string {
    var replaced := if Given(content) then NormalizeHeadings(content.value) else before;
    if !Given(append) then replaced
    else if replaced != "" then replaced + "\n\n" + NormalizeHeadings(append.value)
    else NormalizeHeadings(append.value)
  }

  /** The task with the flags that were given applied. */
  function Edited(t: Task, title: Option<string>, content: Option<string>, append: Option<string>): Task {
    t.(title := if Given(title) then title.value else t.title, content := NewContent(t.content, content, append))
  }

  /** What `run` does to the document, or the message it exits with. */
  function Updated(file: SimblFile, id: string, title: Option<string>, content: Option<string>, append: Option<string>)
    : Result<SimblFile>
  {
    if !Given(title) && !Given(content) && !Given(append) then
      Err("Provide --title, --content, or --append to update.")
    else match FirstWithId(AllTasks(file), id)
      case None => Err("Task \"" + id + "\" not found.")
      case Some(k) => Ok(Replaced(file, k, Edited(AllTasks(file)[k], title, content, append)))
  }

  /** `run`: on a refusal the process exits before writing. */
  method Run(doc: TasksFile, id: string, title: Option<string>, content: Option<string>, append: Option<string>)
    returns (r: Result<()>)
    modifies doc
    ensures var outcome := Updated(old(doc.File()), id, title, content, append);
      r == (if outcome.Ok? then Ok(()) else Err(outcome.error))
      && doc.File() == (if outcome.Ok? then outcome.value else old(doc.File()))
  {
    if !Given(title) && !Given(content) && !Given(append) {
      return Err("Provide --title, --content, or --append to update.");
    }
    var file := doc.File();
    var allTasks := AllTasks(file);
    var position := FirstWithId(allTasks, id);
    if position.None? {
      return Err("Task \"" + id + "\" not found.");
    }
    var task := allTasks[position.value];
    if Given(title) {
      task := task.(title := title.value);
    }
    if Given(content) {
      task := task.(content := NormalizeHeadings(content.value));
    }
    if Given(append) {
      var normalizedAppend := NormalizeHeadings(append.value);
      if task.content != "" {
        task := task.(content := task.content + "\n\n" + normalizedAppend);
      } else {
        task := task.(content := normalizedAppend);
      }
    }
    doc.SetTask(position.value, task);
    r := Ok(());
  }

  // ---- properties ----

  /** `update` accepts exactly when some flag was given and a task has the
      id; it then edits the first such task and no other. */
  lemma UpdatedAccepts(file: SimblFile, id: string, title: Option<string>, content: Option<string>, append: Option<string>)
    ensures Updated(file, id, title, content, append).Ok? <==>
      (Given(title) || Given(content) || Given(append)) && id in Ids(AllTasks(file))
    ensures Updated(file, id, title, content, append).Ok? ==>
      var k := FirstWithId(AllTasks(file), id).value;
      AllTasks(Updated(file, id, title, content, append).value) ==
        AllTasks(file)[k := Edited(AllTasks(file)[k], title, content, append)]
  {
    if id in Ids(AllTasks(file)) {
      var k :| 0 <= k < |AllTasks(file)| && AllTasks(file)[k].id == id;
    }
  }

  /** The edit never touches the id, tags, reserved record, status or
      section, so a task consistent with its tags stays so. */
  lemma EditedKeeps(t: Task, title: Option<string>, content: Option<string>, append: Option<string>)
    ensures var t' := Edited(t, title, content, append);
      t'.id == t.id && t'.tags == t.tags && t'.reserved == t.reserved && t'.status == t.status
      && t'.section == t.section && (Consistent(t) <==> Consistent(t'))
      && (!Given(title) ==> t'.title == t.title) && (!Given(content) && !Given(append) ==> t'.content == t.content)
  {
  }

  /** The id graph is left as it was. */
  lemma UpdatedEdges(file: SimblFile, id: string, title: Option<string>, content: Option<string>, append: Option<string>)
    requires Updated(file, id, title, content, append).Ok?
    ensures Edges(AllTasks(Updated(file, id, title, content, append).value)) == Edges(AllTasks(file))
  {
    var all := AllTasks(file);
    var k := FirstWithId(all, id).value;
    var t' := Edited(all[k], title, content, append);
    forall x ensures Succ(all[k := t'], x) == Succ(all, x) {
      LookupReplaced(all, k, t', x);
    }
    assert Ids(all[k := t']) == Ids(all) by {
      forall x | x in Ids(all) ensures x in Ids(all[k := t']) {
        var j :| 0 <= j < |all| && all[j].id == x;
        assert all[k := t'][j].id == x;
      }
      forall x | x in Ids(all[k := t']) ensures x in Ids(all) {
        var j :| 0 <= j < |all| && all[k := t'][j].id == x;
        assert all[j].id == x;
      }
    }
  }

  /** `--append` writes the normalised text after the content, separated
      by a blank line unless the content is empty; with `--content` as
      well, it appends to the replacement. */
  lemma AppendedContent(before: string, content: Option<string>, append: Option<string>)
    requires Given(append)
    ensures var base := if Given(content) then NormalizeHeadings(content.value) else before;
      var c := NewContent(before, content, append);
      EndsWith(c, NormalizeHeadings(append.value))
      && (base != "" ==> StartsWith(c, base + "\n\n") && |c| == |base| + 2 + |NormalizeHeadings(append.value)|)
      && (base == "" ==> c == NormalizeHeadings(append.value))
  {
    var base := if Given(content) then NormalizeHeadings(content.value) else before;
    var a := NormalizeHeadings(append.value);
    var c := NewContent(before, content, append);
    if base != "" {
      assert c == (base + "\n\n") + a;
      assert c[..|base| + 2] == base + "\n\n";
      assert c[|c| - |a|..] == a;
    } else {
      assert c[|c| - |a|..] == a;
    }
  }

  /** Text without headings is appended as it is. */
  lemma PlainAppend(before: string, a: string)
    requires before != "" && a != ""
    requires forall i :: 0 <= i < |a| && LineStart(a, i) ==> !HeadingAt(a[i..])
    ensures NewContent(before, None, Some(a)) == before + "\n\n" + a
  {
    NoHeadingUnchanged(a);
  }
}
