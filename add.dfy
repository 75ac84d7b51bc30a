/** `simbl add`: a new task at the end of the backlog
    (src/cli/commands/add.ts). */
module AddCommand {
  import opened Wrappers
  import opened JsString
  import opened Calendar
  import opened Tasks
  import opened Parser
  import opened Log
  import opened TaskGraph
  import opened TaskIds
  import opened Commands
  import opened Headings

  /** The test `t => !/^p[1-9]$/.test(t)` of the priority filter. */
  predicate NotPriority(tag: string) {
    !IsPriorityTag(tag)
  }

  predicate IsProjectTag(tag: string) {
    StartsWith(tag, "project:")
  }

  /** The test `t => !t.startsWith('project:')` of the project filter. */
  predicate NotProject(tag: string) {
    !IsProjectTag(tag)
  }

  /** The level a truthy `--priority` names: `parseInt(_, 10)` in 1..9;
      anything else is ignored. */
  function PriorityLevel(priority: Option<string>): (r: Option<nat>)
    ensures r.Some? ==> Given(priority) && 1 <= r.value <= 9
  {
    if !Given(priority) then None
    else match ParseIntJs(priority.value)
      case Some(p) => if 1 <= p <= 9 then Some(p as nat) else None
      case None => None
  }

  /** The tags after `--priority`: every priority tag dropped and the new
      one put first. */
  function WithPriority(tags: seq<string>, priority: Option<string>): seq<string> {
    match PriorityLevel(priority)
    case None => tags
    case Some(p) => ["p" + NatToString(p)] + Filter(tags, NotPriority)
  }

  /** The tags after `--project`: every `project:` tag dropped and the new
      one put last. */
  function WithProject(tags: seq<string>, project: Option<string>): seq<string> {
    if Given(project) then Filter(tags, NotProject) + ["project:" + project.value] else tags
  }

  /** The tags of the new task: those of `--tags`, then the two flags. */
  function InitialTags(tagsArg: Option<string>, priority: Option<string>, project: Option<string>): seq<string> {
    WithProject(WithPriority(if Given(tagsArg) then TagsIn(tagsArg.value) else [], priority), project)
  }

  /** The content before the log: a description section when `--content`
      is given, its headings pushed below the task's. */
  function Description(content: Option<string>): string {
    if Given(content) then "### Description\n\n" + NormalizeHeadings(content.value) else ""
  }

  const CreatedMessage := "Task created"

  /** A backlog task with `reserved` and `status` derived from its tags. */
  function NewTask(id: string, title: string, tags: seq<string>, content: string): Task {
    var reserved := ReservedOf(tags);
    Task(id, title, tags, reserved, DeriveStatus(BacklogSection, reserved), content, BacklogSection)
  }

  /** What `run` does to the document, given the id it generated, or the
      error appending the first log entry throws. */
  function Added(file: SimblFile, id: string, title: string, tagsArg: Option<string>, content: Option<string>,
                 priority: Option<string>, project: Option<string>, now: Stamp): Result<SimblFile>
    requires Renderable(now)
  {
    match AppendedText(Description(content), CreatedMessage, now)
    case Err(e) => Err(e)
    case Ok(text) =>
      Ok(file.(backlog := file.backlog + [NewTask(id, title, InitialTags(tagsArg, priority, project), text)]))
  }

  /** `run`, with `tasks.md` already read into `doc`, the archive's text if
      it exists, and the clock reading `now`; it answers the new id. */
  method Run(doc: TasksFile, archive: Option<string>, prefix: string, title: string, tagsArg: Option<string>,
             content: Option<string>, priority: Option<string>, project: Option<string>, now: Stamp)
    returns (r: Result<string>)
    requires Renderable(now)
    modifies doc
    ensures r.Ok? <==> AppendedText(Description(content), CreatedMessage, now).Ok?
    ensures r.Err? ==>
      doc.File() == old(doc.File()) && r.error == AppendedText(Description(content), CreatedMessage, now).error
    ensures r.Ok? ==> doc.File() == Added(old(doc.File()), r.value, title, tagsArg, content, priority, project, now).value
    ensures r.Ok? ==> PrefixFormat(r.value, prefix) && r.value !in Ids(AllTasks(old(doc.File())))
    ensures r.Ok? ==> IsNextId(r.value, prefix, AllIds(Some(old(doc.File())), archive))
  {
    var file := doc.File();
    var id := GenerateNextId(prefix, Some(file), archive);
    var tags := BuildTags(tagsArg, priority, project);
    var taskContent := "";
    if Given(content) {
      var normalizedContent := NormalizeHeadings(content.value);
      taskContent := "### Description\n\n" + normalizedContent;
    }
    var pushed := Push(doc, id, title, tags, taskContent, now);
    r := if pushed.Ok? then Ok(id) else Err(pushed.error);
    FreshId(file, archive, id);
  }

  /** The end of `run`: the first log entry, then the task pushed onto the
      backlog; a throwing append writes nothing. */
  method Push(doc: TasksFile, id: string, title: string, tags: seq<string>, taskContent: string, now: Stamp)
    returns (r: Result<()>)
    requires Renderable(now)
    modifies doc
    ensures r.Ok? <==> AppendedText(taskContent, CreatedMessage, now).Ok?
    ensures r.Err? ==>
      doc.File() == old(doc.File()) && r.error == AppendedText(taskContent, CreatedMessage, now).error
    ensures r.Ok? ==> doc.File() == old(doc.File()).(backlog := old(doc.backlog)
      + [NewTask(id, title, tags, AppendedText(taskContent, CreatedMessage, now).value)])
  {
    var withLog := AppendLogEntry(taskContent, CreatedMessage, now);
    if withLog.Err? {
      return Err(withLog.error);
    }
    var reserved := ParseReservedTags(tags);
    var task := Task(id, title, tags, reserved, DeriveStatus(BacklogSection, reserved), withLog.value, BacklogSection);
    doc.backlog := doc.backlog + [task];
    r := Ok(());
  }

  /** An id unlike every collected one is unlike every task's id. */
  lemma FreshId(file: SimblFile, archive: Option<string>, id: string)
    requires forall x :: x in AllIds(Some(file), archive) ==> x != id
    ensures id !in Ids(AllTasks(file))
  {
    forall k | 0 <= k < |AllTasks(file)| ensures AllTasks(file)[k].id != id {
      var ids := AllIds(Some(file), archive);
      assert AllTasks(file)[k].id == ids[k];
      assert ids[k] in ids;
    }
  }

  /** The tag building of `run`. */
  method BuildTags(tagsArg: Option<string>, priority: Option<string>, project: Option<string>)
    returns (tags: seq<string>)
    ensures tags == InitialTags(tagsArg, priority, project)
  {
    tags := [];
    if Given(tagsArg) {
      tags := ParseTagLine(tagsArg.value);
    }
    if Given(priority) {
      var p := ParseIntJs(priority.value);
      if p.Some? && 1 <= p.value <= 9 {
        tags := Filter(tags, NotPriority);
        tags := ["p" + NatToString(p.value as nat)] + tags;
      }
    }
    if Given(project) {
      tags := Filter(tags, NotProject);
      tags := tags + ["project:" + project.value];
    }
  }

  // ---- properties ----

  /** `add` fails only where appending the first log entry throws: on an
      invalid clock, or on a description whose text holds a log with an
      invalid stamp. */
  lemma AddedAccepts(file: SimblFile, id: string, title: string, tagsArg: Option<string>, content: Option<string>,
                     priority: Option<string>, project: Option<string>, now: Stamp)
    requires Renderable(now)
    ensures Added(file, id, title, tagsArg, content, priority, project, now).Ok?
      <==> now.Valid? && AllValid(TaskLog(Description(content)))
  {
    AppendedOk(Description(content), CreatedMessage, now);
  }

  /** The new task goes last in the backlog and nothing else changes; it
      is consistent, in the backlog section, and its log begins with the
      creation entry. */
  lemma AddedTask(file: SimblFile, id: string, title: string, tagsArg: Option<string>, content: Option<string>,
                  priority: Option<string>, project: Option<string>, now: Stamp)
    requires Writable(LogEntry(now, CreatedMessage))
    requires AllValid(TaskLog(Description(content)))
    requires !EndsWith(StripTaskLog(Description(content)), Marker[..13])
    ensures Renderable(now) && Added(file, id, title, tagsArg, content, priority, project, now).Ok?
    ensures var r := Added(file, id, title, tagsArg, content, priority, project, now).value;
      var t := r.backlog[|r.backlog| - 1];
      r.backlog[..|file.backlog|] == file.backlog && |r.backlog| == |file.backlog| + 1
      && r.done == file.done && r.preamble == file.preamble
      && t.id == id && t.title == title && t.tags == InitialTags(tagsArg, priority, project)
      && Consistent(t) && t.section == BacklogSection && t.status != Done
      && TaskLog(t.content) == [AtSecond(LogEntry(now, CreatedMessage))] + TaskLog(Description(content))
      && StripTaskLog(t.content) == TrimEnd(StripTaskLog(Description(content)))
  {
    AppendRoundTrip(Description(content), CreatedMessage, now);
    var r := Added(file, id, title, tagsArg, content, priority, project, now).value;
    assert r.backlog[..|file.backlog|] == file.backlog;
  }

  /** Without `--content` the content is the log alone, holding just the
      creation entry. */
  lemma CreatedLogOnly(now: Stamp)
    requires Writable(LogEntry(now, CreatedMessage))
    ensures var text := AppendedText(Description(None), CreatedMessage, now);
      text.Ok? && TaskLog(text.value) == [AtSecond(LogEntry(now, CreatedMessage))]
      && StripTaskLog(text.value) == "" && StartsWith(text.value, "***")
  {
    assert forall i :: !MarkerAt("", i);
    NoMarkerNoLog("");
    AppendRoundTrip("", CreatedMessage, now);
  }

  /** A valid `--priority` leaves exactly one priority tag, the new one,
      first; the other tags stay in order. */
  lemma PriorityChosen(tags: seq<string>, priority: Option<string>)
    requires PriorityLevel(priority).Some?
    ensures var p := PriorityLevel(priority).value; var tags' := WithPriority(tags, priority);
      tags'[0] == "p" + NatToString(p) && IsPriorityTag(tags'[0])
      && tags'[1..] == Filter(tags, NotPriority)
      && (forall u :: u in tags' <==> u == tags'[0] || (u in tags && !IsPriorityTag(u)))
      && Filter(tags', IsPriorityTag) == [tags'[0]]
  {
    var p := PriorityLevel(priority).value;
    var kept := Filter(tags, NotPriority);
    FilterMembers(tags, NotPriority);
    forall k | 0 <= k < |kept| ensures !IsPriorityTag(kept[k]) {
      assert kept[k] in kept;
    }
    FilterNone(kept, IsPriorityTag);
    assert NatToString(p) == [DigitChar(p)];
    var head := "p" + NatToString(p);
    assert IsPriorityTag(head);
    FilterConcat([head], kept, IsPriorityTag);
    assert Filter([head], IsPriorityTag) == [head] by {
      assert [head][..0] == [];
    }
  }

  /** A `--priority` of white space, digits and then anything but a digit
      names the digits' value, which counts only in 1..9: `" 7x"` names 7,
      and `"0"` and `"10"` are ignored. */
  lemma PriorityOfDigits(ws: string, d: string, rest: string)
    requires AllWhitespace(ws) && d != "" && AllDigits(d) && (rest == [] || !IsDigit(rest[0]))
    ensures PriorityLevel(Some(ws + d + rest)) == if 1 <= DigitsValue(d) <= 9 then Some(DigitsValue(d)) else None
  {
    ParseOfDigits(ws, d, rest);
  }

  /** parseInt of white space, digits and then anything but a digit. */
  lemma ParseOfDigits(ws: string, d: string, rest: string)
    requires AllWhitespace(ws) && d != "" && AllDigits(d) && (rest == [] || !IsDigit(rest[0]))
    ensures ParseIntJs(ws + d + rest) == Some(DigitsValue(d))
  {
    assert ws + d + rest == ws + (d + rest);
    assert (d + rest)[0] == d[0];
    DigitNotSpace(d[0]);
    ParseSkipsSpace(ws, d + rest);
    ParseDigitsHere(d, rest);
  }

  /** parseInt skips leading white space. */
  lemma ParseSkipsSpace(ws: string, s: string)
    requires AllWhitespace(ws) && (s == [] || !IsWhitespace(s[0]))
    ensures ParseIntJs(ws + s) == ParseIntJs(s)
  {
    TrimStartSkip(ws, s);
    TrimStartKeeps(s);
  }

  /** parseInt of digits followed by anything but a digit. */
  lemma ParseDigitsHere(d: string, rest: string)
    requires d != "" && AllDigits(d) && (rest == [] || !IsDigit(rest[0]))
    ensures ParseIntJs(d + rest) == Some(DigitsValue(d))
  {
    var s := d + rest;
    assert s[0] == d[0];
    DigitNotSpace(d[0]);
    TrimStartKeeps(s);
    ParseTrimmedDigits(d, rest);
  }

  /** A `--priority` with a minus sign is never a level, and one that does
      not start with a sign or a digit, such as `"high"`, is no number. */
  lemma PriorityNotNumeric(tags: seq<string>, s: string)
    requires var t := TrimStart(s); t == [] || t[0] == '-' || (t[0] != '+' && !IsDigit(t[0]))
    ensures WithPriority(tags, Some(s)) == tags
  {
    ParseTrimmedNotPositive(TrimStart(s));
  }

  /** `--project` leaves exactly one `project:` tag, the new one, last; the
      other tags stay in order. */
  lemma ProjectChosen(tags: seq<string>, project: Option<string>)
    requires Given(project)
    ensures var tags' := WithProject(tags, project);
      tags'[|tags'| - 1] == "project:" + project.value
      && tags'[..|tags'| - 1] == Filter(tags, NotProject)
      && (forall u :: u in tags' <==> u == "project:" + project.value || (u in tags && !IsProjectTag(u)))
      && Filter(tags', IsProjectTag) == ["project:" + project.value]
  {
    var kept := Filter(tags, NotProject);
    var tag := "project:" + project.value;
    FilterMembers(tags, NotProject);
    forall k | 0 <= k < |kept| ensures !IsProjectTag(kept[k]) {
      assert kept[k] in kept;
    }
    FilterNone(kept, IsProjectTag);
    assert tag[..8] == "project:";
    FilterPush(kept, tag, IsProjectTag);
    assert (kept + [tag])[..|kept|] == kept;
  }

  /** The reserved record of the new task reads the chosen priority and
      project back. */
  lemma InitialReserved(tagsArg: Option<string>, priority: Option<string>, project: Option<string>)
    ensures var r := ReservedOf(InitialTags(tagsArg, priority, project));
      (PriorityLevel(priority).Some? ==> r.priority == PriorityLevel(priority))
      && (Given(project) && DotPlus(project.value) ==> r.project == Some(project.value))
  {
    var tags := if Given(tagsArg) then TagsIn(tagsArg.value) else [];
    var mid := WithPriority(tags, priority);
    var all := InitialTags(tagsArg, priority, project);
    if PriorityLevel(priority).Some? {
      PriorityChosen(tags, priority);
      ChosenPriorityKept(mid, project, PriorityLevel(priority).value);
    }
    if Given(project) && DotPlus(project.value) {
      ProjectChosen(mid, project);
      ChosenProjectLast(all, project.value);
    }
  }

  /** The one priority tag survives `--project` and is the priority read. */
  lemma ChosenPriorityKept(mid: seq<string>, project: Option<string>, p: nat)
    requires 1 <= p <= 9 && |mid| > 0 && mid[0] == "p" + NatToString(p)
    requires forall u :: u in mid && IsPriorityTag(u) ==> u == mid[0]
    ensures ReservedOf(WithProject(mid, project)).priority == Some(p)
  {
    var all := WithProject(mid, project);
    var head := mid[0];
    assert NatToString(p) == [DigitChar(p)];
    assert ParseTag(head) == Priority(p);
    assert !IsProjectTag(head);
    FilterMembers(mid, NotProject);
    assert forall u :: u in all ==> u in mid || (Given(project) && u == "project:" + project.value);
    assert head in all;
    PriorityIsLast(all);
    var i :| 0 <= i < |all| && all[i] == head;
    assert ParseTag(all[i]).Priority?;
    var j :| 0 <= j < |all| && ParseTag(all[j]) == Priority(ReservedOf(all).priority.value);
    PriorityKind(all[j]);
    assert all[j] in all;
  }

  /** Only a priority tag parses as a priority. */
  lemma PriorityKind(t: string)
    requires ParseTag(t).Priority?
    ensures IsPriorityTag(t)
  {
    ParseTagOrder(t);
  }

  /** The last tag, a `project:` tag, gives the project read. */
  lemma ChosenProjectLast(all: seq<string>, name: string)
    requires DotPlus(name) && |all| > 0 && all[|all| - 1] == "project:" + name
    ensures ReservedOf(all).project == Some(name)
  {
    var tag := "project:" + name;
    assert !IsPriorityTag(tag);
    assert tag[..8] == "project:" && tag[8..] == name;
    assert ParseTag(tag) == Project(name);
    ProjectIsLast(all);
    var n := |all| - 1;
    assert ParseTag(all[n]).Project?;
    var j :| 0 <= j < |all| && ParseTag(all[j]) == Project(ReservedOf(all).project.value)
               && forall i :: j < i < |all| ==> !ParseTag(all[i]).Project?;
    assert j == n;
  }
}
