/** The SIMBL document: tasks read from, and written back to, the block
    sequence of a Markdown file (src/core/parser.ts). The Markdown tokenizer
    itself is not part of this model: a document is the sequence of its
    top-level blocks, and turning blocks back into text is a parameter. */
module Parser {
  import opened Wrappers
  import opened JsString
  import opened Tasks

  /** A top-level Markdown block. A heading carries its depth, the text of
      its text and inline-code children (what `getHeadingText` reads), and
      the text of its text children alone; a paragraph carries the value of
      its first child when that child is a text node, and the text of all its
      text children. */
  datatype Block =
    | Heading(depth: nat, text: string, plain: string)
    | Paragraph(lead: Option<string>, text: string)
    | Other(raw: string)

  /** The tasks found in each section, in document order. */
  datatype Sections = Sections(backlog: seq<Task>, done: seq<Task>)

  // ---- parseTaskHeading ----

  /** `parseTaskHeading`: the id is the trimmed text up to the first space,
      the title the trimmed remainder, and `""` when there is no space. */
  function ParseTaskHeading(text: string): (r: (string, string))
    ensures ' ' !in r.0
    ensures |r.0| <= |Trim(text)| && r.0 == Trim(text)[..|r.0|]
    ensures ' ' !in Trim(text) ==> r == (Trim(text), "")
    ensures ' ' in Trim(text) ==> Trim(text)[|r.0|] == ' ' && r.1 == Trim(Trim(text)[|r.0| + 1..])
  {
    var trimmed := Trim(text);
    match IndexOf(trimmed, " ")
    case None =>
      SpaceNowhere(trimmed);
      (trimmed, "")
    case Some(i) =>
      SpaceFirst(trimmed, i);
      (trimmed[..i], Trim(trimmed[i + 1..]))
  }

  /** The first space `indexOf` finds: a space with none before it. */
  lemma SpaceFirst(s: string, i: nat)
    requires IndexOf(s, " ") == Some(i)
    ensures i < |s| && s[i] == ' ' && ' ' !in s[..i] && |s[..i]| == i && s[..i] == s[..|s[..i]|]
  {
    assert s[i..i + 1] == " ";
    forall k | 0 <= k < i ensures s[..i][k] != ' ' {
      assert !OccursAt(s, " ", k);
      assert s[k..k + 1] == [s[k]];
    }
  }

  lemma SpaceNowhere(s: string)
    requires IndexOf(s, " ") == None
    ensures ' ' !in s && s[..|s|] == s
  {
    forall k | 0 <= k < |s| ensures s[k] != ' ' {
      assert !OccursAt(s, " ", k);
      assert s[k..k + 1] == [s[k]];
    }
  }

  /** The heading text `serializeSimblFile` writes: the id, then a space and
      the title when the title is not empty. */
  function HeaderText(id: string, title: string): string {
    id + (if title != "" then " " + title else "")
  }

  /** An id `parseTaskHeading` gives back: non-empty, no space, and no white
      space at either end. */
  predicate GoodId(id: string) {
    id != [] && ' ' !in id && !IsWhitespace(id[0]) && !IsWhitespace(id[|id| - 1])
  }

  /** A title `parseTaskHeading` gives back: already trimmed. */
  predicate GoodTitle(title: string) {
    title == [] || (!IsWhitespace(title[0]) && !IsWhitespace(title[|title| - 1]))
  }

  lemma TrimOfTrimmed(s: string)
    requires s == [] || (!IsWhitespace(s[0]) && !IsWhitespace(s[|s| - 1]))
    ensures Trim(s) == s
  {
    assert TrimStart(s) == s;
  }

  lemma FirstSpace(id: string, rest: string)
    requires ' ' !in id
    ensures IndexOf(id + " " + rest, " ") == Some(|id|)
  {
    var h := id + " " + rest;
    assert h[|id|..|id| + 1] == " ";
    assert OccursAt(h, " ", |id|);
    forall k | 0 <= k < |id|
      ensures !OccursAt(h, " ", k)
    {
      assert h[k..k + 1] == [id[k]];
    }
  }

  lemma NoSpace(id: string)
    requires ' ' !in id
    ensures IndexOf(id, " ") == None
  {
    forall k | 0 <= k < |id|
      ensures !OccursAt(id, " ", k)
    {
      assert id[k..k + 1] == [id[k]];
    }
  }

  /** The heading written for a task is read back as its id and title. */
  lemma HeadingRoundTrip(id: string, title: string)
    requires GoodId(id) && GoodTitle(title)
    ensures ParseTaskHeading(HeaderText(id, title)) == (id, title)
  {
    var h := HeaderText(id, title);
    if title == "" {
      assert h == id;
      TrimOfTrimmed(id);
      NoSpace(id);
    } else {
      assert h == id + " " + title;
      TrimOfTrimmed(h);
      FirstSpace(id, title);
      assert h[..|id|] == id;
      assert h[|id| + 1..] == title;
      TrimOfTrimmed(title);
    }
  }

  // ---- blocks ----

  /** `isTagLine`: a paragraph whose first child is text that, after leading
      white space, starts with `[`. */
  predicate IsTagLine(b: Block) {
    b.Paragraph? && b.lead.Some? && StartsWith(TrimStart(b.lead.value), "[")
  }

  /** The section a depth-1 heading opens: its text, ASCII lower-cased, must
      be `backlog` or `done`. */
  function SectionOf(text: string): (r: Option<Section>)
    ensures r == Some(BacklogSection) <==> Lower(text) == "backlog"
    ensures r == Some(DoneSection) <==> Lower(text) == "done"
  {
    if Lower(text) == "backlog" then Some(BacklogSection)
    else if Lower(text) == "done" then Some(DoneSection)
    else None
  }

  lemma LowerIdempotent(s: string)
    ensures Lower(Lower(s)) == Lower(s)
  {
  }

  /** Section headings match case-insensitively. */
  lemma SectionIgnoresCase(text: string)
    ensures SectionOf(Lower(text)) == SectionOf(text)
  {
    LowerIdempotent(text);
  }

  lemma LowerIs(s: string, t: string)
    requires |s| == |t| && forall k :: 0 <= k < |s| ==> LowerChar(s[k]) == t[k]
    ensures Lower(s) == t
  {
  }

  /** The section headings that are written are read back as their sections. */
  lemma SectionNames()
    ensures SectionOf("Backlog") == Some(BacklogSection) && SectionOf("Done") == Some(DoneSection)
  {
    LowerIs("Backlog", "backlog");
    LowerIs("Done", "done");
  }

  /** Any capitalisation of a section name opens that section. */
  lemma SectionCapitals()
    ensures SectionOf("DONE") == Some(DoneSection) && SectionOf("BackLog") == Some(BacklogSection)
  {
    LowerIs("DONE", "done");
    LowerIs("BackLog", "backlog");
  }


  /** A heading that ends a task's content. */
  predicate Ends(b: Block, maxDepth: nat) {
    b.Heading? && b.depth <= maxDepth
  }

  /** The index `findNextHeadingIndex` returns: the first heading of depth at
      most `maxDepth` at or after `start`, or the length. */
  function NextHeading(nodes: seq<Block>, start: nat, maxDepth: nat): (r: nat)
    requires start <= |nodes|
    decreases |nodes| - start
    ensures start <= r <= |nodes|
    ensures r < |nodes| ==> Ends(nodes[r], maxDepth)
    ensures forall k :: start <= k < r ==> !Ends(nodes[k], maxDepth)
  {
    if start == |nodes| then start
    else if Ends(nodes[start], maxDepth) then start
    else NextHeading(nodes, start + 1, maxDepth)
  }

  /** `findNextHeadingIndex` */
  method FindNextHeadingIndex(nodes: seq<Block>, startIndex: nat, maxDepth: nat) returns (r: nat)
    requires startIndex <= |nodes|
    ensures r == NextHeading(nodes, startIndex, maxDepth)
  {
    var i := startIndex;
    while i < |nodes|
      invariant startIndex <= i <= |nodes|
      invariant NextHeading(nodes, i, maxDepth) == NextHeading(nodes, startIndex, maxDepth)
    {
      if nodes[i].Heading? && nodes[i].depth <= maxDepth {
        return i;
      }
      i := i + 1;
    }
    return |nodes|;
  }

  /** `nodesToMarkdown`: no blocks give the empty string, otherwise the
      blocks are rendered (the stringifier and its trimming are `render`). */
  function NodesToMarkdown(render: seq<Block> -> string, nodes: seq<Block>): string {
    if nodes == [] then "" else render(nodes)
  }

  /** The index of the first depth-1 heading, as `findIndex` finds it. */
  function FirstH1(nodes: seq<Block>): (r: Option<nat>)
    ensures r.Some? ==> r.value < |nodes| && nodes[r.value].Heading? && nodes[r.value].depth == 1
    ensures r.Some? ==> forall k :: 0 <= k < r.value ==> !(nodes[k].Heading? && nodes[k].depth == 1)
    ensures r.None? ==> forall k :: 0 <= k < |nodes| ==> !(nodes[k].Heading? && nodes[k].depth == 1)
  {
    if nodes == [] then None
    else if nodes[0].Heading? && nodes[0].depth == 1 then Some(0)
    else match FirstH1(nodes[1..])
      case None => None
      case Some(k) => Some(k + 1)
  }

  /** The preamble: the rendered blocks before the first depth-1 heading,
      present only when there is at least one such block. */
  function Preamble(render: seq<Block> -> string, nodes: seq<Block>): Option<string> {
    match FirstH1(nodes)
    case Some(k) => if k > 0 then Some(NodesToMarkdown(render, nodes[..k])) else None
    case None => None
  }

  // ---- parseSimblFile ----

  /** Where a task's content starts: after the tag line if the block after
      the heading is one. */
  function ContentStart(nodes: seq<Block>, i: nat): (r: nat)
    requires i < |nodes|
    ensures i + 1 <= r <= |nodes| && r <= i + 2
  {
    if i + 1 < |nodes| && IsTagLine(nodes[i + 1]) then i + 2 else i + 1
  }

  /** The tags of the task whose heading is at `i`. */
  function TagsAt(nodes: seq<Block>, i: nat): seq<string>
    requires i < |nodes|
  {
    if i + 1 < |nodes| && IsTagLine(nodes[i + 1]) then TagsIn(nodes[i + 1].text) else []
  }

  /** The task that the depth-2 heading at `i` opens in section `sec`; its
      content is every block up to the next heading of depth 1 or 2. */
  function TaskAt(render: seq<Block> -> string, nodes: seq<Block>, i: nat, sec: Section): Task
    requires i < |nodes| && nodes[i].Heading?
  {
    var (id, title) := ParseTaskHeading(nodes[i].text);
    var tags := TagsAt(nodes, i);
    var start := ContentStart(nodes, i);
    var reserved := ReservedOf(tags);
    Task(id, title, tags, reserved, DeriveStatus(sec, reserved),
         NodesToMarkdown(render, nodes[start..NextHeading(nodes, start, 2)]), sec)
  }

  /** Index after the task whose heading is at `i`. */
  function TaskEnd(nodes: seq<Block>, i: nat): (r: nat)
    requires i < |nodes|
    ensures i < r <= |nodes|
  {
    NextHeading(nodes, ContentStart(nodes, i), 2)
  }

  function Add(s: Sections, t: Task): Sections {
    if t.section == BacklogSection then s.(backlog := s.backlog + [t]) else s.(done := s.done + [t])
  }

  function Prepend(t: Task, s: Sections): Sections {
    if t.section == BacklogSection then s.(backlog := [t] + s.backlog) else s.(done := [t] + s.done)
  }

  function Concat(a: Sections, b: Sections): Sections {
    Sections(a.backlog + b.backlog, a.done + b.done)
  }

  /** The tasks the main loop of `parseSimblFile` collects from index `i` on,
      with `sec` the section in force. */
  function Scan(render: seq<Block> -> string, nodes: seq<Block>, i: nat, sec: Option<Section>): Sections
    requires i <= |nodes|
    decreases |nodes| - i
  {
    if i == |nodes| then Sections([], [])
    else if nodes[i].Heading? && nodes[i].depth == 1 then Scan(render, nodes, i + 1, SectionOf(nodes[i].text))
    else if nodes[i].Heading? && nodes[i].depth == 2 && sec.Some? then
      Prepend(TaskAt(render, nodes, i, sec.value), Scan(render, nodes, TaskEnd(nodes, i), sec))
    else Scan(render, nodes, i + 1, sec)
  }

  /** What `parseSimblFile` returns for a block sequence. */
  function ParseBlocks(render: seq<Block> -> string, nodes: seq<Block>): SimblFile {
    var s := Scan(render, nodes, 0, None);
    SimblFile(s.backlog, s.done, Preamble(render, nodes))
  }

  lemma ScanHeading1(render: seq<Block> -> string, nodes: seq<Block>, i: nat, sec: Option<Section>)
    requires i < |nodes| && nodes[i].Heading? && nodes[i].depth == 1
    ensures Scan(render, nodes, i, sec) == Scan(render, nodes, i + 1, SectionOf(nodes[i].text))
  {
  }

  lemma ScanTask(render: seq<Block> -> string, nodes: seq<Block>, i: nat, sec: Section)
    requires i < |nodes| && nodes[i].Heading? && nodes[i].depth == 2
    ensures Scan(render, nodes, i, Some(sec))
            == Prepend(TaskAt(render, nodes, i, sec), Scan(render, nodes, TaskEnd(nodes, i), Some(sec)))
  {
  }

  lemma ScanOther(render: seq<Block> -> string, nodes: seq<Block>, i: nat, sec: Option<Section>)
    requires i < |nodes| && !(nodes[i].Heading? && nodes[i].depth == 1)
    requires !(nodes[i].Heading? && nodes[i].depth == 2 && sec.Some?)
    ensures Scan(render, nodes, i, sec) == Scan(render, nodes, i + 1, sec)
  {
  }

  lemma ConcatPrepend(r: Sections, t: Task, rest: Sections)
    ensures Concat(r, Prepend(t, rest)) == Concat(Add(r, t), rest)
  {
  }

  /** `parseSimblFile` */
  method ParseSimblFile(render: seq<Block> -> string, nodes: seq<Block>) returns (result: SimblFile)
    ensures result == ParseBlocks(render, nodes)
  {
    result := SimblFile([], [], None);
    var currentSection: Option<Section> := None;
    var i := 0;
    var firstH1Index := FirstH1(nodes);
    if firstH1Index.Some? && firstH1Index.value > 0 {
      result := result.(preamble := Some(NodesToMarkdown(render, nodes[..firstH1Index.value])));
    }
    while i < |nodes|
      invariant i <= |nodes|
      invariant result.preamble == Preamble(render, nodes)
      invariant Concat(Sections(result.backlog, result.done), Scan(render, nodes, i, currentSection))
                == Scan(render, nodes, 0, None)
      decreases |nodes| - i
    {
      var node := nodes[i];
      if node.Heading? && node.depth == 1 {
        ScanHeading1(render, nodes, i, currentSection);
        currentSection := SectionOf(node.text);
        i := i + 1;
        continue;
      }
      if node.Heading? && node.depth == 2 && currentSection.Some? {
        var task := NextTask(render, nodes, i, currentSection.value);
        ScanTask(render, nodes, i, currentSection.value);
        ConcatPrepend(Sections(result.backlog, result.done), task,
                      Scan(render, nodes, TaskEnd(nodes, i), currentSection));
        if currentSection.value == BacklogSection {
          result := result.(backlog := result.backlog + [task]);
        } else {
          result := result.(done := result.done + [task]);
        }
        i := TaskEnd(nodes, i);
        continue;
      }
      ScanOther(render, nodes, i, currentSection);
      i := i + 1;
    }
  }

  /** The body of the depth-2 branch of `parseSimblFile`: the task a heading
      opens. */
  method NextTask(render: seq<Block> -> string, nodes: seq<Block>, i: nat, currentSection: Section)
    returns (task: Task)
    requires i < |nodes| && nodes[i].Heading?
    ensures task == TaskAt(render, nodes, i, currentSection)
  {
    var (id, title) := ParseTaskHeading(nodes[i].text);
    var tags: seq<string> := [];
    var contentStartIndex := i + 1;
    if i + 1 < |nodes| && IsTagLine(nodes[i + 1]) {
      tags := ParseTagLine(nodes[i + 1].text);
      contentStartIndex := i + 2;
    }
    assert tags == TagsAt(nodes, i) && contentStartIndex == ContentStart(nodes, i);
    var contentEndIndex := FindNextHeadingIndex(nodes, contentStartIndex, 2);
    var taskContent := NodesToMarkdown(render, nodes[contentStartIndex..contentEndIndex]);
    var reserved := ParseReservedTags(tags);
    var status := DeriveStatus(currentSection, reserved);
    task := Task(id, title, tags, reserved, status, taskContent, currentSection);
  }

  // ---- what a parsed document satisfies ----

  /** Every task of `ts` is consistent and belongs to section `sec`. */
  predicate AllIn(ts: seq<Task>, sec: Section) {
    forall k :: 0 <= k < |ts| ==> Consistent(ts[k]) && ts[k].section == sec
  }

  predicate AllConsistent(s: Sections) {
    AllIn(s.backlog, BacklogSection) && AllIn(s.done, DoneSection)
  }

  lemma ConsistentCons(t: Task, ts: seq<Task>, sec: Section)
    requires Consistent(t) && t.section == sec && AllIn(ts, sec)
    ensures AllIn([t] + ts, sec)
  {
    forall k | 0 <= k < |[t] + ts|
      ensures Consistent(([t] + ts)[k]) && ([t] + ts)[k].section == sec
    {
      if k > 0 {
        assert ([t] + ts)[k] == ts[k - 1];
      }
    }
  }

  lemma PrependConsistent(t: Task, s: Sections)
    requires Consistent(t) && AllConsistent(s)
    ensures AllConsistent(Prepend(t, s))
  {
    if t.section == BacklogSection {
      ConsistentCons(t, s.backlog, BacklogSection);
    } else {
      ConsistentCons(t, s.done, DoneSection);
    }
  }

  lemma TaskAtConsistent(render: seq<Block> -> string, nodes: seq<Block>, i: nat, sec: Section)
    requires i < |nodes| && nodes[i].Heading?
    ensures Consistent(TaskAt(render, nodes, i, sec)) && TaskAt(render, nodes, i, sec).section == sec
  {
  }

  lemma {:induction false} ScanConsistent(render: seq<Block> -> string, nodes: seq<Block>, i: nat, sec: Option<Section>)
    requires i <= |nodes|
    decreases |nodes| - i
    ensures AllConsistent(Scan(render, nodes, i, sec))
  {
    if i < |nodes| {
      if nodes[i].Heading? && nodes[i].depth == 1 {
        ScanHeading1(render, nodes, i, sec);
        ScanConsistent(render, nodes, i + 1, SectionOf(nodes[i].text));
      } else if nodes[i].Heading? && nodes[i].depth == 2 && sec.Some? {
        ScanTask(render, nodes, i, sec.value);
        ScanConsistent(render, nodes, TaskEnd(nodes, i), sec);
        TaskAtConsistent(render, nodes, i, sec.value);
        PrependConsistent(TaskAt(render, nodes, i, sec.value), Scan(render, nodes, TaskEnd(nodes, i), sec));
      } else {
        ScanOther(render, nodes, i, sec);
        ScanConsistent(render, nodes, i + 1, sec);
      }
    } else {
      assert Scan(render, nodes, i, sec) == Sections([], []);
    }
  }

  /** Every task of a parsed document agrees with its tags and section, and
      sits in the list of its section. */
  lemma ParsedTasksConsistent(render: seq<Block> -> string, nodes: seq<Block>)
    ensures forall k :: 0 <= k < |ParseBlocks(render, nodes).backlog| ==>
      Consistent(ParseBlocks(render, nodes).backlog[k]) && ParseBlocks(render, nodes).backlog[k].section == BacklogSection
    ensures forall k :: 0 <= k < |ParseBlocks(render, nodes).done| ==>
      Consistent(ParseBlocks(render, nodes).done[k]) && ParseBlocks(render, nodes).done[k].section == DoneSection
  {
    ScanConsistent(render, nodes, 0, None);
  }

  /** Blocks outside any recognised section produce no task: scanning with no
      section in force skips everything up to the next depth-1 heading. */
  lemma {:induction false} Unsectioned(render: seq<Block> -> string, nodes: seq<Block>, i: nat, j: nat)
    requires i <= j <= |nodes|
    requires forall k :: i <= k < j ==> !(nodes[k].Heading? && nodes[k].depth == 1)
    decreases j - i
    ensures Scan(render, nodes, i, None) == Scan(render, nodes, j, None)
  {
    if i < j {
      Unsectioned(render, nodes, i + 1, j);
    }
  }

  /** A document with no depth-1 heading has no tasks. */
  lemma NoSectionNoTasks(render: seq<Block> -> string, nodes: seq<Block>)
    requires forall k :: 0 <= k < |nodes| ==> !(nodes[k].Heading? && nodes[k].depth == 1)
    ensures ParseBlocks(render, nodes).backlog == [] && ParseBlocks(render, nodes).done == []
  {
    Unsectioned(render, nodes, 0, |nodes|);
  }

  /** The task a heading opens: a tag-line paragraph right after it gives the
      tags and is not content; otherwise the tags are empty and that block is
      content. The content runs up to the next heading of depth 1 or 2, so
      deeper headings stay inside it. */
  lemma TaskShape(render: seq<Block> -> string, nodes: seq<Block>, i: nat, sec: Section)
    requires i < |nodes| && nodes[i].Heading?
    ensures var t := TaskAt(render, nodes, i, sec);
      var e := TaskEnd(nodes, i);
      (i + 1 < |nodes| && IsTagLine(nodes[i + 1]) ==>
         t.tags == TagsIn(nodes[i + 1].text) && i + 2 <= e
         && t.content == NodesToMarkdown(render, nodes[i + 2..e]))
      && (!(i + 1 < |nodes| && IsTagLine(nodes[i + 1])) ==>
         t.tags == [] && t.content == NodesToMarkdown(render, nodes[i + 1..e]))
      && (e < |nodes| ==> nodes[e].Heading? && nodes[e].depth <= 2)
      && (forall k :: ContentStart(nodes, i) <= k < e ==> !(nodes[k].Heading? && nodes[k].depth <= 2))
  {
  }

  // ---- serializeSimblFile ----

  /** The lines written for one task. */
  function EntryLines(t: Task): seq<string> {
    ["## " + HeaderText(t.id, t.title), ""]
    + (if |t.tags| > 0 then [FormatTagLine(t.tags), ""] else [])
    + (if t.content != "" then [t.content, ""] else [])
  }

  /** Each task is written as its heading line and a blank line, then the
      tag line when there are tags, then the content when it is non-empty,
      each of these followed by a blank line. */
  lemma EntryLinesShape(t: Task)
    ensures var r := EntryLines(t);
      |r| == 2 + (if |t.tags| > 0 then 2 else 0) + (if t.content != "" then 2 else 0)
      && r[0] == "## " + HeaderText(t.id, t.title) && r[1] == ""
      && (|t.tags| > 0 <==> |r| > 2 && r[2] == FormatTagLine(t.tags))
      && (t.content != "" <==> |r| > 2 && r[|r| - 2] == t.content)
      && (forall k :: 0 <= k < |r| && k % 2 == 1 ==> r[k] == "")
  {
    var r := EntryLines(t);
    var h := ["## " + HeaderText(t.id, t.title), ""];
    var x := if |t.tags| > 0 then [FormatTagLine(t.tags), ""] else [];
    var y := if t.content != "" then [t.content, ""] else [];
    assert r == h + x + y;
    assert h[0] != "";
    if |t.tags| > 0 {
      assert FormatTagLine(t.tags) != "";
    } else {
      assert FormatTagLine(t.tags) == "";
    }
  }

  /** The lines written for a sequence of tasks, in order. */
  function TaskLines(ts: seq<Task>): seq<string> {
    if ts == [] then [] else TaskLines(ts[..|ts| - 1]) + EntryLines(ts[|ts| - 1])
  }

  /** The lines `serializeSimblFile` collects: the preamble if it is a
      non-empty string, `# Backlog`, the backlog tasks, `# Done`, the done
      tasks, each followed by an empty line. */
  function Lines(file: SimblFile): seq<string> {
    PreambleLines(file) + ["# Backlog", ""] + TaskLines(file.backlog) + ["# Done", ""] + TaskLines(file.done)
  }

  /** The preamble and a blank line, when there is a non-empty preamble. */
  function PreambleLines(file: SimblFile): seq<string> {
    if file.preamble.Some? && file.preamble.value != "" then [file.preamble.value, ""] else []
  }

  /** What `serializeSimblFile` returns. */
  function SerializedText(file: SimblFile): string {
    TrimEnd(Join(Lines(file), "\n")) + "\n"
  }

  /** One of the two `for` loops of `serializeSimblFile`: the lines of each
      task pushed in order. */
  method PushTaskLines(lines0: seq<string>, tasks: seq<Task>) returns (lines: seq<string>)
    ensures lines == lines0 + TaskLines(tasks)
  {
    lines := lines0;
    assert tasks[..0] == [];
    assert lines0 + [] == lines0;
    for i := 0 to |tasks|
      invariant lines == lines0 + TaskLines(tasks[..i])
    {
      var task := tasks[i];
      ghost var before := lines;
      lines := lines + ["## " + HeaderText(task.id, task.title), ""];
      if |task.tags| > 0 {
        lines := lines + [FormatTagLine(task.tags), ""];
      }
      if task.content != "" {
        lines := lines + [task.content, ""];
      }
      EntryPushed(before, task, lines);
      TaskLinesSnoc(tasks, i);
      Reassociate(lines0, TaskLines(tasks[..i]), EntryLines(task));
    }
    WholePrefix(tasks);
  }

  /** The pushes of one loop iteration append the task's lines. */
  lemma EntryPushed(before: seq<string>, t: Task, lines: seq<string>)
    requires var h := before + ["## " + HeaderText(t.id, t.title), ""];
      var g := if |t.tags| > 0 then h + [FormatTagLine(t.tags), ""] else h;
      lines == if t.content != "" then g + [t.content, ""] else g
    ensures lines == before + EntryLines(t)
  {
    var h := ["## " + HeaderText(t.id, t.title), ""];
    var x := if |t.tags| > 0 then [FormatTagLine(t.tags), ""] else [];
    var y := if t.content != "" then [t.content, ""] else [];
    assert EntryLines(t) == h + x + y;
    assert before + h + x + y == before + (h + x + y);
  }

  lemma TaskLinesSnoc(tasks: seq<Task>, i: nat)
    requires i < |tasks|
    ensures TaskLines(tasks[..i + 1]) == TaskLines(tasks[..i]) + EntryLines(tasks[i])
  {
    assert tasks[..i + 1][..i] == tasks[..i];
  }

  /** `serializeSimblFile` */
  method SerializeSimblFile(file: SimblFile) returns (text: string)
    ensures text == SerializedText(file)
  {
    var lines: seq<string> := [];
    if file.preamble.Some? && file.preamble.value != "" {
      lines := lines + [file.preamble.value, ""];
    }
    assert lines == PreambleLines(file);
    lines := lines + ["# Backlog", ""];
    lines := PushTaskLines(lines, file.backlog);
    lines := lines + ["# Done", ""];
    lines := PushTaskLines(lines, file.done);
    text := TrimEnd(Join(lines, "\n")) + "\n";
  }

  lemma {:induction false} JoinHas(parts: seq<string>, sep: string, k: nat, c: char)
    requires k < |parts| && c in parts[k]
    ensures c in Join(parts, sep)
  {
    if k > 0 {
      JoinHas(parts[1..], sep, k - 1, c);
    }
  }

  lemma TrimEndKeeps(s: string, c: char)
    requires c in s && !IsWhitespace(c)
    ensures TrimEnd(s) != []
  {
    assert s[|TrimEnd(s)|..] == s ==> AllWhitespace(s);
  }

  /** The serialized text ends in exactly one newline. */
  lemma SerializedEnding(file: SimblFile)
    ensures var s := SerializedText(file);
      |s| >= 2 && s[|s| - 1] == '\n' && !IsWhitespace(s[|s| - 2])
  {
    var ls := Lines(file);
    var p := PreambleLines(file);
    BacklogHeadingAt(p, TaskLines(file.backlog), TaskLines(file.done));
    JoinHas(ls, "\n", |p|, '#');
    TrimEndKeeps(Join(ls, "\n"), '#');
    OneNewline(TrimEnd(Join(ls, "\n")));
  }

  lemma BacklogHeadingAt(p: seq<string>, x: seq<string>, y: seq<string>)
    ensures var ls := p + ["# Backlog", ""] + x + ["# Done", ""] + y;
      |p| < |ls| && '#' in ls[|p|]
  {
    var ls := p + ["# Backlog", ""] + x + ["# Done", ""] + y;
    assert ls[|p|] == "# Backlog";
    assert "# Backlog"[0] == '#';
  }

  lemma OneNewline(t: string)
    requires t != [] && !IsWhitespace(t[|t| - 1])
    ensures var s := t + "\n"; |s| >= 2 && s[|s| - 1] == '\n' && !IsWhitespace(s[|s| - 2])
  {
  }

  // ---- getAllTasks / findTaskById ----

  /** `getAllTasks`: backlog, then done. */
  function AllTasks(file: SimblFile): seq<Task> {
    file.backlog + file.done
  }

  /** The position of the first task with id `id`. */
  function FirstWithId(ts: seq<Task>, id: string): (r: Option<nat>)
    ensures r.Some? ==> r.value < |ts| && ts[r.value].id == id
    ensures r.Some? ==> forall k :: 0 <= k < r.value ==> ts[k].id != id
    ensures r.None? ==> forall k :: 0 <= k < |ts| ==> ts[k].id != id
  {
    if ts == [] then None
    else if ts[0].id == id then Some(0)
    else match FirstWithId(ts[1..], id)
      case None => None
      case Some(k) => Some(k + 1)
  }

  /** `findTaskById`: the first task with that id, backlog before done. */
  function FindTaskById(file: SimblFile, id: string): (r: Option<Task>)
    ensures r.Some? ==> r.value.id == id && r.value in AllTasks(file)
    ensures r.None? <==> forall t :: t in AllTasks(file) ==> t.id != id
  {
    var all := AllTasks(file);
    match FirstWithId(all, id)
    case None => None
    case Some(k) => Some(all[k])
  }

  /** A backlog task shadows a done task with the same id, and among tasks of
      one section the earliest wins. */
  lemma FindPrefersFirst(file: SimblFile, id: string, j: nat)
    requires j < |AllTasks(file)| && AllTasks(file)[j].id == id
    ensures FindTaskById(file, id).Some?
    ensures exists k :: 0 <= k <= j && FindTaskById(file, id) == Some(AllTasks(file)[k])
    ensures j < |file.backlog| ==> FindTaskById(file, id).value in file.backlog
  {
    var k := FirstWithId(AllTasks(file), id).value;
    assert k <= j;
  }

  // ---- reading back what was written ----

  /** The tag-line paragraph written for a non-empty tag list. */
  function TagBlocks(tags: seq<string>): seq<Block> {
    if tags == [] then [] else [Paragraph(Some(FormatTagLine(tags)), FormatTagLine(tags))]
  }

  /** The blocks of one task as written: its heading, its tag line, and the
      blocks `cb` its content reads as. */
  function EntryBlocks(t: Task, cb: seq<Block>): seq<Block> {
    [Heading(2, HeaderText(t.id, t.title), HeaderText(t.id, t.title))] + TagBlocks(t.tags) + cb
  }

  function TaskBlocks(ts: seq<Task>, cbs: seq<seq<Block>>): seq<Block>
    requires |cbs| == |ts|
  {
    if ts == [] then [] else EntryBlocks(ts[0], cbs[0]) + TaskBlocks(ts[1..], cbs[1..])
  }

  /** The block sequence of the serialized document, given the blocks `pb`
      the preamble reads as and the blocks each task's content reads as. */
  function Layout(file: SimblFile, pb: seq<Block>, bcs: seq<seq<Block>>, dcs: seq<seq<Block>>): seq<Block>
    requires |bcs| == |file.backlog| && |dcs| == |file.done|
  {
    pb + [Heading(1, "Backlog", "Backlog")] + TaskBlocks(file.backlog, bcs) + [Heading(1, "Done", "Done")] + TaskBlocks(file.done, dcs)
  }

  /** A task that a reading of its written form gives back: consistent tags,
      a well-formed heading, tags that survive the tag line, and content
      that reads as blocks `cb` holding no heading of depth 1 or 2 and not
      starting with a tag-line paragraph when there are no tags. */
  predicate Restorable(render: seq<Block> -> string, t: Task, sec: Section, cb: seq<Block>) {
    t.section == sec && Consistent(t) && GoodId(t.id) && GoodTitle(t.title)
    && (forall k :: 0 <= k < |t.tags| ==> Formattable(t.tags[k]))
    && t.content == NodesToMarkdown(render, cb)
    && (forall k :: 0 <= k < |cb| ==> !Ends(cb[k], 2))
    && (t.tags == [] && cb != [] ==> !IsTagLine(cb[0]))
  }

  /** Every task of `ts` is restorable from the blocks at the same index of `cbs`. */
  predicate AllRestorable(render: seq<Block> -> string, ts: seq<Task>, sec: Section, cbs: seq<seq<Block>>)
    decreases |ts|
  {
    |cbs| == |ts| && (ts != [] ==> Restorable(render, ts[0], sec, cbs[0]) && AllRestorable(render, ts[1..], sec, cbs[1..]))
  }

  lemma SliceSplit(s: seq<Block>, i: nat, m: nat, e: nat, a: seq<Block>, b: seq<Block>)
    requires m == i + |a| && e == m + |b| && e <= |s| && s[i..e] == a + b
    ensures s[i..m] == a && s[m..e] == b
  {
    assert s[i..m] == s[i..e][..|a|];
    assert s[m..e] == s[i..e][|a|..];
  }

  /** The written tag line is read as a tag line. */
  lemma TagLineBlock(tags: seq<string>)
    requires tags != []
    ensures IsTagLine(TagBlocks(tags)[0])
  {
    var line := FormatTagLine(tags);
    assert StartsWith(TrimStart(line), "[");
  }

  lemma TaggedStart(nodes: seq<Block>, i: nat, tags: seq<string>)
    requires tags != [] && forall k :: 0 <= k < |tags| ==> Formattable(tags[k])
    requires i + 1 < |nodes| && nodes[i + 1] == TagBlocks(tags)[0]
    ensures ContentStart(nodes, i) == i + 2 && TagsAt(nodes, i) == tags
  {
    TagLineBlock(tags);
    TagLineRoundTrip(tags);
  }

  lemma UntaggedStart(nodes: seq<Block>, i: nat)
    requires i < |nodes| && (i + 1 < |nodes| ==> !IsTagLine(nodes[i + 1]))
    ensures ContentStart(nodes, i) == i + 1 && TagsAt(nodes, i) == []
  {
  }

  /** What follows a run of written tasks ends the task before it. */
  lemma RunFollows(nodes: seq<Block>, j: nat, rest: seq<Block>, e: nat)
    requires e == j + |rest| && e <= |nodes| && nodes[j..e] == rest
    requires e == |nodes| || Ends(nodes[e], 2)
    requires rest != [] ==> Ends(rest[0], 2)
    ensures j == |nodes| || Ends(nodes[j], 2)
  {
    if rest != [] {
      assert nodes[j] == nodes[j..e][0];
    }
  }

  /** Where the content of a written task starts, and the tags read there. */
  lemma EntryStart(nodes: seq<Block>, i: nat, t: Task, cb: seq<Block>, s: nat, e: nat)
    requires forall k :: 0 <= k < |t.tags| ==> Formattable(t.tags[k])
    requires t.tags == [] && cb != [] ==> !IsTagLine(cb[0])
    requires s == i + 1 + |TagBlocks(t.tags)| && e == s + |cb| && e <= |nodes|
    requires nodes[i..s] == [Heading(2, HeaderText(t.id, t.title), HeaderText(t.id, t.title))] + TagBlocks(t.tags) && nodes[s..e] == cb
    requires e == |nodes| || Ends(nodes[e], 2)
    ensures nodes[i] == Heading(2, HeaderText(t.id, t.title), HeaderText(t.id, t.title))
    ensures ContentStart(nodes, i) == s
    ensures TagsAt(nodes, i) == t.tags
  {
    var head := [Heading(2, HeaderText(t.id, t.title), HeaderText(t.id, t.title))] + TagBlocks(t.tags);
    assert nodes[i] == nodes[i..s][0] == head[0];
    if t.tags != [] {
      assert nodes[i + 1] == nodes[i..s][1] == TagBlocks(t.tags)[0];
      TaggedStart(nodes, i, t.tags);
    } else {
      if cb != [] {
        assert nodes[i + 1] == nodes[s..e][0] == cb[0];
      } else if i + 1 < |nodes| {
        assert Ends(nodes[i + 1], 2);
      }
      UntaggedStart(nodes, i);
    }
  }

  /** A run of blocks without headings of depth 1 or 2, followed by the end
      or by such a heading, is exactly what `findNextHeadingIndex` skips. */
  lemma RunEnd(nodes: seq<Block>, s: nat, e: nat, cb: seq<Block>)
    requires e == s + |cb| && e <= |nodes| && nodes[s..e] == cb
    requires forall k :: 0 <= k < |cb| ==> !Ends(cb[k], 2)
    requires e == |nodes| || Ends(nodes[e], 2)
    ensures NextHeading(nodes, s, 2) == e
  {
    forall k | s <= k < e
      ensures !Ends(nodes[k], 2)
    {
      assert nodes[k] == nodes[s..e][k - s] == cb[k - s];
    }
  }

  /** `TaskAt` gives back a consistent task whose heading, tags and content
      are found at `i`. */
  lemma TaskAtParts(render: seq<Block> -> string, nodes: seq<Block>, i: nat, sec: Section, t: Task)
    requires i < |nodes| && nodes[i] == Heading(2, HeaderText(t.id, t.title), HeaderText(t.id, t.title))
    requires GoodId(t.id) && GoodTitle(t.title)
    requires Consistent(t) && t.section == sec && TagsAt(nodes, i) == t.tags
    requires t.content == NodesToMarkdown(render, nodes[ContentStart(nodes, i)..TaskEnd(nodes, i)])
    ensures TaskAt(render, nodes, i, sec) == t
  {
    HeadingRoundTrip(t.id, t.title);
  }

  /** The blocks of one written task, ending at `e`, are read as heading,
      tags and content. */
  lemma EntryBounds(nodes: seq<Block>, i: nat, t: Task, cb: seq<Block>, e: nat)
    requires forall k :: 0 <= k < |t.tags| ==> Formattable(t.tags[k])
    requires forall k :: 0 <= k < |cb| ==> !Ends(cb[k], 2)
    requires t.tags == [] && cb != [] ==> !IsTagLine(cb[0])
    requires e == i + |EntryBlocks(t, cb)| && e <= |nodes| && nodes[i..e] == EntryBlocks(t, cb)
    requires e == |nodes| || Ends(nodes[e], 2)
    ensures nodes[i] == Heading(2, HeaderText(t.id, t.title), HeaderText(t.id, t.title))
    ensures TagsAt(nodes, i) == t.tags
    ensures TaskEnd(nodes, i) == e
    ensures nodes[ContentStart(nodes, i)..TaskEnd(nodes, i)] == cb
  {
    var head := [Heading(2, HeaderText(t.id, t.title), HeaderText(t.id, t.title))] + TagBlocks(t.tags);
    var s := i + 1 + |TagBlocks(t.tags)|;
    assert EntryBlocks(t, cb) == head + cb;
    SliceSplit(nodes, i, s, e, head, cb);
    EntryStart(nodes, i, t, cb, s, e);
    RunEnd(nodes, s, e, cb);
  }

  /** Reading one written task, which ends at `e`. */
  lemma ReadEntry(render: seq<Block> -> string, nodes: seq<Block>, i: nat, t: Task, sec: Section, cb: seq<Block>, e: nat)
    requires Restorable(render, t, sec, cb)
    requires e == i + |EntryBlocks(t, cb)| && e <= |nodes| && nodes[i..e] == EntryBlocks(t, cb)
    requires e == |nodes| || Ends(nodes[e], 2)
    ensures nodes[i] == Heading(2, HeaderText(t.id, t.title), HeaderText(t.id, t.title))
    ensures TaskEnd(nodes, i) == e
    ensures TaskAt(render, nodes, i, sec) == t
  {
    EntryBounds(nodes, i, t, cb, e);
    TaskAtParts(render, nodes, i, sec, t);
  }

  function Single(sec: Section, ts: seq<Task>): Sections {
    if sec == BacklogSection then Sections(ts, []) else Sections([], ts)
  }

  lemma PrependSingle(t: Task, sec: Section, ts: seq<Task>, rest: Sections)
    requires t.section == sec
    ensures Prepend(t, Concat(Single(sec, ts), rest)) == Concat(Single(sec, [t] + ts), rest)
  {
  }

  lemma HeadTail(ts: seq<Task>)
    requires ts != []
    ensures [ts[0]] + ts[1..] == ts
  {
  }

  lemma TaskBlocksSplit(ts: seq<Task>, cbs: seq<seq<Block>>)
    requires |cbs| == |ts| && ts != []
    ensures TaskBlocks(ts, cbs) == EntryBlocks(ts[0], cbs[0]) + TaskBlocks(ts[1..], cbs[1..])
    ensures TaskBlocks(ts[1..], cbs[1..]) != [] ==> TaskBlocks(ts[1..], cbs[1..])[0] == Heading(2, HeaderText(ts[1].id, ts[1].title), HeaderText(ts[1].id, ts[1].title))
  {
  }

  lemma ScanAt(render: seq<Block> -> string, nodes: seq<Block>, i: nat, sec: Section, t: Task, e: nat)
    requires i < |nodes| && nodes[i].Heading? && nodes[i].depth == 2
    requires TaskAt(render, nodes, i, sec) == t && TaskEnd(nodes, i) == e
    ensures Scan(render, nodes, i, Some(sec)) == Prepend(t, Scan(render, nodes, e, Some(sec)))
  {
    ScanTask(render, nodes, i, sec);
  }

  /** Reading the first of a run of written tasks, which ends at `j`, leaves
      the rest of the run. */
  lemma ReadFirst(render: seq<Block> -> string, nodes: seq<Block>, i: nat, ts: seq<Task>,
                  cbs: seq<seq<Block>>, sec: Section, j: nat, e: nat)
    requires ts != [] && AllRestorable(render, ts, sec, cbs)
    requires e == i + |TaskBlocks(ts, cbs)| && e <= |nodes| && nodes[i..e] == TaskBlocks(ts, cbs)
    requires e == |nodes| || Ends(nodes[e], 2)
    requires j == i + |EntryBlocks(ts[0], cbs[0])|
    ensures e == j + |TaskBlocks(ts[1..], cbs[1..])| && j <= e
    ensures nodes[j..e] == TaskBlocks(ts[1..], cbs[1..])
    ensures Scan(render, nodes, i, Some(sec)) == Prepend(ts[0], Scan(render, nodes, j, Some(sec)))
  {
    var eb := EntryBlocks(ts[0], cbs[0]);
    var rest := TaskBlocks(ts[1..], cbs[1..]);
    TaskBlocksSplit(ts, cbs);
    assert e == j + |rest|;
    SliceSplit(nodes, i, j, e, eb, rest);
    assert rest != [] ==> Ends(rest[0], 2);
    RunFollows(nodes, j, rest, e);
    ReadEntry(render, nodes, i, ts[0], sec, cbs[0], j);
    ScanAt(render, nodes, i, sec, ts[0], j);
  }

  /** Reading a run of written tasks, ending at `e`, followed by the end of
      the document or a heading of depth 1 or 2. */
  lemma {:induction false} ReadEntries(render: seq<Block> -> string, nodes: seq<Block>, i: nat, ts: seq<Task>,
                                       cbs: seq<seq<Block>>, sec: Section, e: nat)
    requires AllRestorable(render, ts, sec, cbs)
    requires e == i + |TaskBlocks(ts, cbs)| && e <= |nodes| && nodes[i..e] == TaskBlocks(ts, cbs)
    requires e == |nodes| || Ends(nodes[e], 2)
    decreases |ts|
    ensures Scan(render, nodes, i, Some(sec)) == Concat(Single(sec, ts), Scan(render, nodes, e, Some(sec)))
  {
    if ts != [] {
      var j := i + |EntryBlocks(ts[0], cbs[0])|;
      ReadFirst(render, nodes, i, ts, cbs, sec, j, e);
      ReadEntries(render, nodes, j, ts[1..], cbs[1..], sec, e);
      PrependSingle(ts[0], sec, ts[1..], Scan(render, nodes, e, Some(sec)));
      HeadTail(ts);
    } else {
      assert Concat(Single(sec, []), Scan(render, nodes, i, Some(sec))) == Scan(render, nodes, i, Some(sec));
    }
  }

  /** A file whose every task can be restored from its written form. */
  predicate RestorableFile(render: seq<Block> -> string, file: SimblFile, pb: seq<Block>,
                           bcs: seq<seq<Block>>, dcs: seq<seq<Block>>) {
    |bcs| == |file.backlog| && |dcs| == |file.done|
    && AllRestorable(render, file.backlog, BacklogSection, bcs)
    && AllRestorable(render, file.done, DoneSection, dcs)
    && (forall k :: 0 <= k < |pb| ==> !(pb[k].Heading? && pb[k].depth == 1))
    && (file.preamble.None? ==> pb == [])
    && (file.preamble.Some? ==> pb != [] && file.preamble.value == render(pb))
  }

  lemma Pieces(a: seq<Block>, x: Block, b: seq<Block>, y: Block, c: seq<Block>, n: seq<Block>)
    requires n == a + [x] + b + [y] + c
    ensures |n| == |a| + |b| + |c| + 2
    ensures n[..|a|] == a && n[|a|] == x && n[|a| + 1..|a| + 1 + |b|] == b
    ensures n[|a| + 1 + |b|] == y && n[|a| + 2 + |b|..|n|] == c
  {
    var m := |a| + 1 + |b|;
    assert n[..m] == a + [x] + b;
    assert n[..|a|] == (a + [x] + b)[..|a|];
    assert n[|a| + 1..m] == (a + [x] + b)[|a| + 1..];
  }

  /** Where the parts of the written document sit among its blocks. */
  lemma LayoutShape(file: SimblFile, pb: seq<Block>, bcs: seq<seq<Block>>, dcs: seq<seq<Block>>,
                    nodes: seq<Block>, d1: nat)
    requires |bcs| == |file.backlog| && |dcs| == |file.done|
    requires nodes == Layout(file, pb, bcs, dcs) && d1 == |pb| + 1 + |TaskBlocks(file.backlog, bcs)|
    ensures |nodes| == d1 + 1 + |TaskBlocks(file.done, dcs)|
    ensures nodes[..|pb|] == pb && nodes[|pb|] == Heading(1, "Backlog", "Backlog")
    ensures nodes[|pb| + 1..d1] == TaskBlocks(file.backlog, bcs)
    ensures nodes[d1] == Heading(1, "Done", "Done")
    ensures nodes[d1 + 1..|nodes|] == TaskBlocks(file.done, dcs)
  {
    Pieces(pb, Heading(1, "Backlog", "Backlog"), TaskBlocks(file.backlog, bcs), Heading(1, "Done", "Done"), TaskBlocks(file.done, dcs), nodes);
  }

  /** The preamble read back is the one written. */
  lemma PreambleBack(render: seq<Block> -> string, file: SimblFile, pb: seq<Block>,
                     bcs: seq<seq<Block>>, dcs: seq<seq<Block>>)
    requires RestorableFile(render, file, pb, bcs, dcs)
    ensures FirstH1(Layout(file, pb, bcs, dcs)) == Some(|pb|)
    ensures Preamble(render, Layout(file, pb, bcs, dcs)) == file.preamble
  {
    var nodes := Layout(file, pb, bcs, dcs);
    LayoutShape(file, pb, bcs, dcs, nodes, |pb| + 1 + |TaskBlocks(file.backlog, bcs)|);
    forall k | 0 <= k < |pb|
      ensures !(nodes[k].Heading? && nodes[k].depth == 1)
    {
      assert nodes[k] == nodes[..|pb|][k];
    }
  }

  /** A section heading followed by a run of written tasks. */
  lemma SectionRun(render: seq<Block> -> string, nodes: seq<Block>, h: nat, name: string, before: Option<Section>,
                   sec: Section, ts: seq<Task>, cbs: seq<seq<Block>>, e: nat)
    requires h < |nodes| && nodes[h] == Heading(1, name, name) && SectionOf(name) == Some(sec)
    requires AllRestorable(render, ts, sec, cbs)
    requires e == h + 1 + |TaskBlocks(ts, cbs)| && e <= |nodes| && nodes[h + 1..e] == TaskBlocks(ts, cbs)
    requires e == |nodes| || Ends(nodes[e], 2)
    ensures Scan(render, nodes, h, before) == Concat(Single(sec, ts), Scan(render, nodes, e, Some(sec)))
  {
    ScanHeading1(render, nodes, h, before);
    ReadEntries(render, nodes, h + 1, ts, cbs, sec, e);
  }

  lemma Assemble(backlog: seq<Task>, done: seq<Task>)
    ensures Concat(Single(BacklogSection, backlog), Concat(Single(DoneSection, done), Sections([], [])))
            == Sections(backlog, done)
  {
  }

  /** Blocks with no section heading before `p`, the backlog heading at `p`,
      the done heading at `d1`, and written tasks between and after. */
  lemma ScanShaped(render: seq<Block> -> string, nodes: seq<Block>, p: nat, d1: nat,
                   backlog: seq<Task>, bcs: seq<seq<Block>>, done: seq<Task>, dcs: seq<seq<Block>>)
    requires p < d1 < |nodes|
    requires forall k :: 0 <= k < p ==> !(nodes[k].Heading? && nodes[k].depth == 1)
    requires nodes[p] == Heading(1, "Backlog", "Backlog") && nodes[d1] == Heading(1, "Done", "Done")
    requires AllRestorable(render, backlog, BacklogSection, bcs) && AllRestorable(render, done, DoneSection, dcs)
    requires d1 == p + 1 + |TaskBlocks(backlog, bcs)| && nodes[p + 1..d1] == TaskBlocks(backlog, bcs)
    requires |nodes| == d1 + 1 + |TaskBlocks(done, dcs)| && nodes[d1 + 1..|nodes|] == TaskBlocks(done, dcs)
    ensures Scan(render, nodes, 0, None) == Sections(backlog, done)
  {
    Unsectioned(render, nodes, 0, p);
    SectionNames();
    SectionRun(render, nodes, p, "Backlog", None, BacklogSection, backlog, bcs, d1);
    SectionRun(render, nodes, d1, "Done", Some(BacklogSection), DoneSection, done, dcs, |nodes|);
    assert Scan(render, nodes, |nodes|, Some(DoneSection)) == Sections([], []);
    Assemble(backlog, done);
  }

  /** The tasks read back are the ones written, section by section. */
  lemma ScanBack(render: seq<Block> -> string, file: SimblFile, pb: seq<Block>,
                 bcs: seq<seq<Block>>, dcs: seq<seq<Block>>)
    requires RestorableFile(render, file, pb, bcs, dcs)
    ensures Scan(render, Layout(file, pb, bcs, dcs), 0, None) == Sections(file.backlog, file.done)
  {
    var nodes := Layout(file, pb, bcs, dcs);
    var d1 := |pb| + 1 + |TaskBlocks(file.backlog, bcs)|;
    LayoutShape(file, pb, bcs, dcs, nodes, d1);
    forall k | 0 <= k < |pb|
      ensures !(nodes[k].Heading? && nodes[k].depth == 1)
    {
      assert nodes[k] == nodes[..|pb|][k];
    }
    ScanShaped(render, nodes, |pb|, d1, file.backlog, bcs, file.done, dcs);
  }

  /** Parsing what was serialized gives the file back: the preamble, and
      every task with its id, title, tags, content and section, in order.
      `tokenize` is the Markdown tokenizer, which is not modelled; what is
      assumed of it is that it reads the serialized text as the written
      blocks: the preamble as `pb`, each heading and tag line as itself, and
      each task's content as its entry of `bcs` or `dcs`. */
  lemma RoundTrip(render: seq<Block> -> string, tokenize: string -> seq<Block>, file: SimblFile,
                  pb: seq<Block>, bcs: seq<seq<Block>>, dcs: seq<seq<Block>>)
    requires RestorableFile(render, file, pb, bcs, dcs)
    requires tokenize(SerializedText(file)) == Layout(file, pb, bcs, dcs)
    ensures ParseBlocks(render, tokenize(SerializedText(file))) == file
  {
    PreambleBack(render, file, pb, bcs, dcs);
    ScanBack(render, file, pb, bcs, dcs);
  }
}
