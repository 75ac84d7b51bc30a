/** `simbl tag add` and `simbl tag remove` (src/cli/commands/tag.ts). */
module TagCommand {
  import opened Wrappers
  import opened JsString
  import opened Calendar
  import opened Tasks
  import opened Parser
  import opened Log
  import opened Commands

  /** `arg.replace(/^\[|\]$/g, '')`: one leading `[` and one trailing `]`
      are dropped. */
  function StripBrackets(arg: string): (tag: string)
    ensures |tag| <= |arg|
  {
    var rest := if StartsWith(arg, "[") then arg[1..] else arg;
    if EndsWith(rest, "]") then rest[..|rest| - 1] else rest
  }

  /** `tags.find(isPriorityTag)`: the first priority tag. */
  function FirstPriority(tags: seq<string>): (r: Option<string>)
    ensures r.Some? ==> r.value in tags && IsPriorityTag(r.value)
    ensures r.None? <==> forall k :: 0 <= k < |tags| ==> !IsPriorityTag(tags[k])
  {
    if tags == [] then None
    else if IsPriorityTag(tags[0]) then Some(tags[0])
    else
      var r := FirstPriority(tags[1..]);
      assert forall k :: 1 <= k < |tags| ==> tags[k] == tags[1..][k - 1];
      r
  }

  /** The tags after adding `tag`, and the priority tag it replaced. */
  function AddTags(tags: seq<string>, tag: string): (seq<string>, Option<string>) {
    var existing := if IsPriorityTag(tag) then FirstPriority(tags) else None;
    var kept := if existing.Some? then Without(tags, existing.value) else tags;
    (kept + [tag], existing)
  }

  /** The log message of `tag add`. */
  function AddMessage(tag: string, removed: Option<string>): string {
    if removed.Some? then "Priority changed from [" + removed.value + "] to [" + tag + "]"
    else "Added tag [" + tag + "]"
  }

  function RemoveMessage(tag: string): string {
    "Removed tag [" + tag + "]"
  }

  /** What `tag add` does to the document, or the message it exits with.
      An existing tag leaves the document as it was; a log entry that
      cannot be formatted throws before anything is written. */
  function TagAdded(file: SimblFile, id: string, arg: string, now: Stamp): Result<SimblFile>
    requires Renderable(now)
  {
    var all := AllTasks(file);
    match FirstWithId(all, id)
    case None => Err("Task \"" + id + "\" not found.")
    case Some(k) =>
      var task, tag := all[k], StripBrackets(arg);
      if tag in task.tags then Ok(file)
      else
        var (tags, removed) := AddTags(task.tags, tag);
        match AppendedText(task.content, AddMessage(tag, removed), now)
        case Err(e) => Err(e)
        case Ok(content) => Ok(Replaced(file, k, Retagged(task, tags).(content := content)))
  }

  /** What `tag remove` does to the document, or the message it exits with. */
  function TagRemoved(file: SimblFile, id: string, arg: string, now: Stamp): Result<SimblFile>
    requires Renderable(now)
  {
    var all := AllTasks(file);
    match FirstWithId(all, id)
    case None => Err("Task \"" + id + "\" not found.")
    case Some(k) =>
      var task, tag := all[k], StripBrackets(arg);
      if tag !in task.tags then Ok(file)
      else
        match AppendedText(task.content, RemoveMessage(tag), now)
        case Err(e) => Err(e)
        case Ok(content) => Ok(Replaced(file, k, Retagged(task, Without(task.tags, tag)).(content := content)))
  }

  /** `tag add`'s `run`, with the clock reading `now`. */
  method AddRun(doc: TasksFile, id: string, arg: string, now: Stamp) returns (r: Result<()>)
    requires Renderable(now)
    modifies doc
    ensures var outcome := TagAdded(old(doc.File()), id, arg, now);
      r == (if outcome.Ok? then Ok(()) else Err(outcome.error))
      && doc.File() == (if outcome.Ok? then outcome.value else old(doc.File()))
  {
    var file := doc.File();
    var allTasks := AllTasks(file);
    var position := FirstWithId(allTasks, id);
    if position.None? {
      return Err("Task \"" + id + "\" not found.");
    }
    var task := allTasks[position.value];
    var tag := StripBrackets(arg);
    if tag in task.tags {
      return Ok(());
    }
    var removedPriority: Option<string> := None;
    if IsPriorityTag(tag) {
      var existingPriority := FirstPriority(task.tags);
      if existingPriority.Some? {
        task := task.(tags := Without(task.tags, existingPriority.value));
        removedPriority := existingPriority;
      }
    }
    task := task.(tags := task.tags + [tag]);
    var reserved := ParseReservedTags(task.tags);
    task := task.(reserved := reserved, status := DeriveStatus(task.section, reserved));
    var content := AppendLogEntry(task.content, AddMessage(tag, removedPriority), now);
    if content.Err? {
      return Err(content.error);
    }
    task := task.(content := content.value);
    doc.SetTask(position.value, task);
    r := Ok(());
  }

  /** `tag remove`'s `run`, with the clock reading `now`. */
  method RemoveRun(doc: TasksFile, id: string, arg: string, now: Stamp) returns (r: Result<()>)
    requires Renderable(now)
    modifies doc
    ensures var outcome := TagRemoved(old(doc.File()), id, arg, now);
      r == (if outcome.Ok? then Ok(()) else Err(outcome.error))
      && doc.File() == (if outcome.Ok? then outcome.value else old(doc.File()))
  {
    var file := doc.File();
    var allTasks := AllTasks(file);
    var position := FirstWithId(allTasks, id);
    if position.None? {
      return Err("Task \"" + id + "\" not found.");
    }
    var task := allTasks[position.value];
    var tag := StripBrackets(arg);
    if tag !in task.tags {
      return Ok(());
    }
    task := task.(tags := Without(task.tags, tag));
    var reserved := ParseReservedTags(task.tags);
    task := task.(reserved := reserved, status := DeriveStatus(task.section, reserved));
    var content := AppendLogEntry(task.content, RemoveMessage(tag), now);
    if content.Err? {
      return Err(content.error);
    }
    task := task.(content := content.value);
    doc.SetTask(position.value, task);
    r := Ok(());
  }

  // ---- properties ----

  /** Brackets around a tag are dropped, and a tag without them is kept. */
  lemma StripBracketsOf(t: string)
    ensures StripBrackets("[" + t + "]") == t
    ensures !StartsWith(t, "[") && !EndsWith(t, "]") ==> StripBrackets(t) == t
  {
    var a := "[" + t + "]";
    assert a[1..] == t + "]";
    assert (t + "]")[..|t|] == t;
  }

  /** A tag other than a priority is appended and nothing is removed. */
  lemma AddOther(tags: seq<string>, tag: string)
    requires !IsPriorityTag(tag)
    ensures AddTags(tags, tag) == (tags + [tag], None)
  {
  }

  /** Adding a priority tag to tags with at most one priority leaves exactly
      one, the new one, which the reserved record then holds. */
  lemma AddPriority(tags: seq<string>, tag: string)
    requires IsPriorityTag(tag) && |Filter(tags, IsPriorityTag)| <= 1
    ensures var tags' := AddTags(tags, tag).0;
      Filter(tags', IsPriorityTag) == [tag]
      && ReservedOf(tags').priority == Some(DigitValue(tag[1]))
  {
    var existing := FirstPriority(tags);
    var kept := if existing.Some? then Without(tags, existing.value) else tags;
    forall k | 0 <= k < |kept| ensures !IsPriorityTag(kept[k]) {
      if existing.Some? {
        NoOtherPriority(tags, existing.value, kept[k]);
      }
    }
    FilterNone(kept, IsPriorityTag);
    FilterPush(kept, tag, IsPriorityTag);
    ReservedOfAppend(kept, tag);
    ParseTagOrder(tag);
  }

  /** With at most one priority among the tags, a priority tag kept after
      removing every copy of the one found is impossible. */
  lemma NoOtherPriority(tags: seq<string>, e: string, y: string)
    requires |Filter(tags, IsPriorityTag)| <= 1 && e in tags && IsPriorityTag(e)
    requires y in Without(tags, e)
    ensures !IsPriorityTag(y)
  {
    WithoutMembers(tags, e);
    if IsPriorityTag(y) {
      var i, j := FirstIndex(tags, y), FirstIndex(tags, e);
      if i < j {
        FilterOfPair(tags, IsPriorityTag, i, j);
      } else {
        FilterOfPair(tags, IsPriorityTag, j, i);
      }
    }
  }

  /** A priority tag replaces the first priority tag found, every copy of
      it, and the other tags keep their order. */
  lemma AddReplaces(tags: seq<string>, tag: string)
    requires IsPriorityTag(tag)
    ensures var (tags', removed) := AddTags(tags, tag);
      (removed.None? <==> forall k :: 0 <= k < |tags| ==> !IsPriorityTag(tags[k]))
      && (removed.Some? ==> forall u :: u in tags' <==> u == tag || (u in tags && u != removed.value))
  {
    var removed := FirstPriority(tags);
    if removed.Some? {
      WithoutMembers(tags, removed.value);
    }
  }

  /** Removing a tag drops every copy of it and keeps the others in their
      order. */
  lemma RemoveMembers(tags: seq<string>, tag: string, a: seq<string>, b: seq<string>)
    ensures forall u :: u in Without(tags, tag) <==> u in tags && u != tag
    ensures Without(a + b, tag) == Without(a, tag) + Without(b, tag)
  {
    WithoutMembers(tags, tag);
    WithoutConcat(a, b, tag);
  }

  /** Removing a tag that was just added, other than a priority, gives the
      tags back. */
  lemma AddThenRemove(tags: seq<string>, tag: string)
    requires !IsPriorityTag(tag) && tag !in tags
    ensures Without(AddTags(tags, tag).0, tag) == tags
  {
    WithoutPush(tags, tag, tag);
    WithoutAbsent(tags, tag);
    AppendEmpty(tags);
  }

  /** An existing tag, or a missing one for `remove`, changes nothing; a
      missing task is refused. */
  lemma NoOpCases(file: SimblFile, id: string, arg: string, now: Stamp)
    requires Renderable(now)
    ensures FirstWithId(AllTasks(file), id).None? ==>
      TagAdded(file, id, arg, now) == Err("Task \"" + id + "\" not found.")
      && TagRemoved(file, id, arg, now) == Err("Task \"" + id + "\" not found.")
    ensures FirstWithId(AllTasks(file), id).Some? ==>
      var t := AllTasks(file)[FirstWithId(AllTasks(file), id).value];
      (StripBrackets(arg) in t.tags ==> TagAdded(file, id, arg, now) == Ok(file))
      && (StripBrackets(arg) !in t.tags ==> TagRemoved(file, id, arg, now) == Ok(file))
  {
  }

  /** An accepted `tag add` rewrites only the task found: its tags as the
      edit gives them, its reserved record and status recomputed from them,
      and its log headed by the new entry; the other tasks are untouched. */
  lemma AddedTask(file: SimblFile, id: string, arg: string, now: Stamp)
    requires FirstWithId(AllTasks(file), id).Some?
    requires var t, tag := AllTasks(file)[FirstWithId(AllTasks(file), id).value], StripBrackets(arg);
      tag !in t.tags && Writable(LogEntry(now, AddMessage(tag, AddTags(t.tags, tag).1)))
      && AllValid(TaskLog(t.content)) && !EndsWith(StripTaskLog(t.content), Marker[..13])
    ensures Renderable(now) && TagAdded(file, id, arg, now).Ok?
    ensures var all, k := AllTasks(file), FirstWithId(AllTasks(file), id).value;
      var tag, all' := StripBrackets(arg), AllTasks(TagAdded(file, id, arg, now).value);
      var (tags', removed) := AddTags(all[k].tags, tag);
      |all'| == |all| && (forall j :: 0 <= j < |all| && j != k ==> all'[j] == all[j])
      && all'[k].tags == tags' && Consistent(all'[k]) && all'[k].id == id
      && TaskLog(all'[k].content) == [AtSecond(LogEntry(now, AddMessage(tag, removed)))] + TaskLog(all[k].content)
  {
    var all, k := AllTasks(file), FirstWithId(AllTasks(file), id).value;
    var tag := StripBrackets(arg);
    var (tags', removed) := AddTags(all[k].tags, tag);
    AppendRoundTrip(all[k].content, AddMessage(tag, removed), now);
    var t' := Retagged(all[k], tags').(content := AppendedText(all[k].content, AddMessage(tag, removed), now).value);
    assert TagAdded(file, id, arg, now) == Ok(Replaced(file, k, t'));
    RewriteOne(file, k, t');
  }

  /** An accepted `tag remove` rewrites only the task found, in the same
      way. */
  lemma RemovedTask(file: SimblFile, id: string, arg: string, now: Stamp)
    requires FirstWithId(AllTasks(file), id).Some?
    requires var t, tag := AllTasks(file)[FirstWithId(AllTasks(file), id).value], StripBrackets(arg);
      tag in t.tags && Writable(LogEntry(now, RemoveMessage(tag)))
      && AllValid(TaskLog(t.content)) && !EndsWith(StripTaskLog(t.content), Marker[..13])
    ensures Renderable(now) && TagRemoved(file, id, arg, now).Ok?
    ensures var all, k := AllTasks(file), FirstWithId(AllTasks(file), id).value;
      var tag, all' := StripBrackets(arg), AllTasks(TagRemoved(file, id, arg, now).value);
      |all'| == |all| && (forall j :: 0 <= j < |all| && j != k ==> all'[j] == all[j])
      && all'[k].tags == Without(all[k].tags, tag) && tag !in all'[k].tags && Consistent(all'[k]) && all'[k].id == id
      && TaskLog(all'[k].content) == [AtSecond(LogEntry(now, RemoveMessage(tag)))] + TaskLog(all[k].content)
  {
    var all, k := AllTasks(file), FirstWithId(AllTasks(file), id).value;
    var tag := StripBrackets(arg);
    AppendRoundTrip(all[k].content, RemoveMessage(tag), now);
    WithoutMembers(all[k].tags, tag);
    var t' := Retagged(all[k], Without(all[k].tags, tag)).(content := AppendedText(all[k].content, RemoveMessage(tag), now).value);
    assert TagRemoved(file, id, arg, now) == Ok(Replaced(file, k, t'));
    RewriteOne(file, k, t');
  }
}
