/** The `list` command (src/cli/commands/list.ts): the default view sorts
    the backlog by priority and id number and the done section by id number,
    newest first; with a filter flag it shows the tasks of both sections
    that pass every given filter, in file order. Console output is not part
    of this model; the lines and the order of the tasks are. */
module TaskList {
  import opened Wrappers
  import opened JsString
  import opened Tasks
  import opened Parser
  import opened Sorting
  import opened TaskIds
  import opened Commands

  // ---- sorting ----

  /** `extractIdNum`: the number `/-(\d+)$/` captures, or 0 without a match. */
  function ExtractIdNum(id: string): nat {
    var n := ExtractIdNumber(id);
    if n.Some? then n.value else 0
  }

  /** `a.reserved.priority ?? 10`: a task without a priority sorts after p9. */
  function PriorityOr10(t: Task): nat {
    if t.reserved.priority.Some? then t.reserved.priority.value else 10
  }

  /** The comparator of `sortBacklogTasks`: priority, then id number. */
  function BacklogKey(t: Task): Key {
    (PriorityOr10(t), ExtractIdNum(t.id))
  }

  /** The comparator of `sortDoneTasks`: `bNum - aNum`. */
  function DoneKey(t: Task): Key {
    (0 - ExtractIdNum(t.id), 0)
  }

  /** `sortBacklogTasks`: `[...tasks].sort(cmp)`. */
  function SortBacklogTasks(tasks: seq<Task>): seq<Task> {
    SortBy(tasks, BacklogKey)
  }

  /** `sortDoneTasks`: `[...tasks].sort(cmp)`. */
  function SortDoneTasks(tasks: seq<Task>): seq<Task> {
    SortBy(tasks, DoneKey)
  }

  // ---- filtering ----

  /** The four filter flags of `list`, as citty passes them. */
  datatype FilterOptions = FilterOptions(
    tag: Option<string>,
    project: Option<string>,
    search: Option<string>,
    status: Option<string>)

  /** The strings `TaskStatus` takes. */
  function StatusName(s: Status): string {
    match s
    case Backlog => "backlog"
    case InProgress => "in-progress"
    case Done => "done"
    case Canceled => "canceled"
  }

  /** The four tests, each of which holds when its flag is not given. */
  predicate PassTag(o: FilterOptions, t: Task) {
    Given(o.tag) ==> o.tag.value in t.tags
  }

  predicate PassProject(o: FilterOptions, t: Task) {
    Given(o.project) ==> t.reserved.project == o.project
  }

  predicate PassStatus(o: FilterOptions, t: Task) {
    Given(o.status) ==> StatusName(t.status) == o.status.value
  }

  /** The search: the lower-cased text inside the lower-cased id, title or
      content. */
  predicate PassSearch(o: FilterOptions, t: Task) {
    Given(o.search) ==>
      var q := Lower(o.search.value);
      Contains(Lower(t.id), q) || Contains(Lower(t.title), q) || Contains(Lower(t.content), q)
  }

  /** A task that every given filter lets through. */
  predicate Matches(o: FilterOptions, t: Task) {
    PassTag(o, t) && PassProject(o, t) && PassStatus(o, t) && PassSearch(o, t)
  }

  /** `filtered = filtered.filter(...)` for the tag, when it is given. */
  function ByTag(ts: seq<Task>, o: FilterOptions): seq<Task> {
    if Given(o.tag) then Filter(ts, (t: Task) => PassTag(o, t)) else ts
  }

  function ByProject(ts: seq<Task>, o: FilterOptions): seq<Task> {
    if Given(o.project) then Filter(ts, (t: Task) => PassProject(o, t)) else ts
  }

  function ByStatus(ts: seq<Task>, o: FilterOptions): seq<Task> {
    if Given(o.status) then Filter(ts, (t: Task) => PassStatus(o, t)) else ts
  }

  function BySearch(ts: seq<Task>, o: FilterOptions): seq<Task> {
    if Given(o.search) then Filter(ts, (t: Task) => PassSearch(o, t)) else ts
  }

  /** `filterTasks`: tag, project, status and search, one after another. */
  function FilterTasks(tasks: seq<Task>, o: FilterOptions): seq<Task> {
    BySearch(ByStatus(ByProject(ByTag(tasks, o), o), o), o)
  }

  /** The tasks that pass every given filter, in their order: the reference
      for `filterTasks`. */
  function Matching(tasks: seq<Task>, o: FilterOptions): (r: seq<Task>)
    ensures |r| <= |tasks|
    decreases |tasks|
  {
    if tasks == [] then []
    else Matching(tasks[..|tasks| - 1], o) + if Matches(o, tasks[|tasks| - 1]) then [tasks[|tasks| - 1]] else []
  }

  /** `hasFilters`: a truthy tag, project, search or status. */
  predicate HasFilters(o: FilterOptions) {
    Given(o.tag) || Given(o.project) || Given(o.search) || Given(o.status)
  }

  /** The tasks the text and `--ids` outputs show, in their order: the
      filtered tasks of both sections, or the sorted backlog followed by the
      sorted done section. */
  function ListedTasks(file: SimblFile, o: FilterOptions): seq<Task> {
    if HasFilters(o) then FilterTasks(AllTasks(file), o)
    else SortBacklogTasks(file.backlog) + SortDoneTasks(file.done)
  }

  // ---- formatting ----

  /** `task.title || '(no title)'` */
  function ShownTitle(title: string): (r: string)
    ensures r != ""
    ensures title != "" ==> r == title
  {
    if title == "" then "(no title)" else title
  }

  /** `formatTaskBrief`: `id title`, then two spaces and the bracketed tags
      when there are any. */
  function FormatTaskBrief(t: Task): string {
    var line := t.id + " " + ShownTitle(t.title);
    if |t.tags| > 0 then line + "  " + FormatTagLine(t.tags) else line
  }

  /** `formatTaskFull`: the heading line, the tag line when there are tags,
      and a blank line and the content when there is content. */
  function FullParts(t: Task): seq<string> {
    ["## " + t.id + " " + ShownTitle(t.title)]
    + (if |t.tags| > 0 then [FormatTagLine(t.tags)] else [])
    + (if t.content != "" then ["", t.content] else [])
  }

  function FormatTaskFull(t: Task): string {
    Join(FullParts(t), "\n")
  }

  // ---- properties of the sorts ----

  /** The id `generateNextId` writes for `n` sorts as `n`. */
  lemma IdNumOf(prefix: string, n: nat)
    ensures ExtractIdNum(prefix + "-" + NatToString(n)) == n
  {
    NextNumber(prefix, n);
  }

  /** With a `-<digits>` suffix the number is the value of the digits;
      without one it is 0. */
  lemma IdNumSuffix(id: string)
    ensures forall k :: SuffixAt(id, k) ==> ExtractIdNum(id) == DigitsValue(id[k + 1..])
    ensures (forall k :: !SuffixAt(id, k)) ==> ExtractIdNum(id) == 0
  {
    forall k | SuffixAt(id, k) ensures ExtractIdNum(id) == DigitsValue(id[k + 1..]) {
      ExtractIdNumberFinds(id, k);
    }
  }

  /** The backlog comes out as a permutation of its input, by priority with
      a missing one after every priority below 10, then by id number, tasks
      that agree on both in their input order. */
  lemma BacklogOrder(tasks: seq<Task>)
    ensures var r := SortBacklogTasks(tasks);
      multiset(r) == multiset(tasks) && |r| == |tasks|
      && (forall i, j :: 0 <= i < j < |r| ==>
            PriorityOr10(r[i]) < PriorityOr10(r[j])
            || (PriorityOr10(r[i]) == PriorityOr10(r[j]) && ExtractIdNum(r[i].id) <= ExtractIdNum(r[j].id)))
      && (forall i, j :: 0 <= i < j < |r| && r[i].reserved.priority.None? && r[j].reserved.priority.Some? ==>
            r[j].reserved.priority.value >= 10)
      && (forall k :: WithKey(r, BacklogKey, k) == WithKey(tasks, BacklogKey, k))
  {
    var r := SortBacklogTasks(tasks);
    SortByPermutation(tasks, BacklogKey);
    SortBySorted(tasks, BacklogKey);
    forall i, j | 0 <= i < j < |r| ensures
      PriorityOr10(r[i]) < PriorityOr10(r[j])
      || (PriorityOr10(r[i]) == PriorityOr10(r[j]) && ExtractIdNum(r[i].id) <= ExtractIdNum(r[j].id))
    {
      assert KeyLe(BacklogKey(r[i]), BacklogKey(r[j]));
    }
    forall k ensures WithKey(r, BacklogKey, k) == WithKey(tasks, BacklogKey, k) {
      SortByStable(tasks, BacklogKey, k);
    }
  }

  /** The done section comes out as a permutation of its input, by id
      number from highest to lowest, tasks with equal numbers in their input
      order. */
  lemma DoneOrder(tasks: seq<Task>)
    ensures var r := SortDoneTasks(tasks);
      multiset(r) == multiset(tasks) && |r| == |tasks|
      && (forall i, j :: 0 <= i < j < |r| ==> ExtractIdNum(r[i].id) >= ExtractIdNum(r[j].id))
      && (forall k :: WithKey(r, DoneKey, k) == WithKey(tasks, DoneKey, k))
  {
    var r := SortDoneTasks(tasks);
    SortByPermutation(tasks, DoneKey);
    SortBySorted(tasks, DoneKey);
    forall i, j | 0 <= i < j < |r| ensures ExtractIdNum(r[i].id) >= ExtractIdNum(r[j].id) {
      assert KeyLe(DoneKey(r[i]), DoneKey(r[j]));
    }
    forall k ensures WithKey(r, DoneKey, k) == WithKey(tasks, DoneKey, k) {
      SortByStable(tasks, DoneKey, k);
    }
  }

  // ---- properties of the filter ----

  lemma ByTagPush(ys: seq<Task>, x: Task, o: FilterOptions)
    ensures ByTag(ys + [x], o) == ByTag(ys, o) + if PassTag(o, x) then [x] else []
  {
    assert (ys + [x])[..|ys|] == ys;
  }

  lemma ByProjectPush(ys: seq<Task>, x: Task, o: FilterOptions)
    ensures ByProject(ys + [x], o) == ByProject(ys, o) + if PassProject(o, x) then [x] else []
  {
    assert (ys + [x])[..|ys|] == ys;
  }

  lemma ByStatusPush(ys: seq<Task>, x: Task, o: FilterOptions)
    ensures ByStatus(ys + [x], o) == ByStatus(ys, o) + if PassStatus(o, x) then [x] else []
  {
    assert (ys + [x])[..|ys|] == ys;
  }

  lemma BySearchPush(ys: seq<Task>, x: Task, o: FilterOptions)
    ensures BySearch(ys + [x], o) == BySearch(ys, o) + if PassSearch(o, x) then [x] else []
  {
    assert (ys + [x])[..|ys|] == ys;
  }

  /** One more task goes through the four filters as a task on its own. */
  lemma FilterTasksPush(ys: seq<Task>, x: Task, o: FilterOptions)
    ensures FilterTasks(ys + [x], o) == FilterTasks(ys, o) + if Matches(o, x) then [x] else []
  {
    var a := ByTag(ys, o);
    ByTagPush(ys, x, o);
    var b := ByProject(a, o);
    if PassTag(o, x) {
      ByProjectPush(a, x, o);
      var c := ByStatus(b, o);
      if PassProject(o, x) {
        ByStatusPush(b, x, o);
        if PassStatus(o, x) {
          BySearchPush(c, x, o);
        } else {
          AppendEmpty(c);
        }
      } else {
        AppendEmpty(b);
      }
    } else {
      AppendEmpty(a);
    }
  }

  /** `filterTasks` keeps, in their order, exactly the tasks that pass every
      given filter. */
  lemma {:induction false} FilterTasksIsMatching(tasks: seq<Task>, o: FilterOptions)
    ensures FilterTasks(tasks, o) == Matching(tasks, o)
    decreases |tasks|
  {
    if tasks != [] {
      var init, x := tasks[..|tasks| - 1], tasks[|tasks| - 1];
      FilterTasksIsMatching(init, o);
      SplitLast(tasks);
      FilterTasksPush(init, x, o);
    }
  }

  /** A task is shown exactly when it is one of the tasks and passes every
      given filter. */
  lemma {:induction false} MatchingMembers(tasks: seq<Task>, o: FilterOptions)
    ensures forall t :: t in Matching(tasks, o) <==> t in tasks && Matches(o, t)
    decreases |tasks|
  {
    if tasks != [] {
      MatchingMembers(tasks[..|tasks| - 1], o);
      SplitLast(tasks);
    }
  }

  /** The filter works task by task, so it keeps the order of the tasks. */
  lemma {:induction false} MatchingConcat(a: seq<Task>, b: seq<Task>, o: FilterOptions)
    ensures Matching(a + b, o) == Matching(a, o) + Matching(b, o)
    decreases |b|
  {
    if b == [] {
      AppendEmpty(a);
      AppendEmpty(Matching(a, o));
    } else {
      var init, x := b[..|b| - 1], b[|b| - 1];
      MatchingConcat(a, init, o);
      SnocSplit(a, b);
      Reassociate(Matching(a, o), Matching(init, o), if Matches(o, x) then [x] else []);
    }
  }

  /** The filtered list: every shown task passes every given filter, and
      every task that does is shown, in file order. */
  lemma FilterTasksSpec(tasks: seq<Task>, o: FilterOptions)
    ensures var r := FilterTasks(tasks, o);
      |r| <= |tasks| && r == Matching(tasks, o)
      && (forall t :: t in r <==> t in tasks && Matches(o, t))
      && (!HasFilters(o) ==> r == tasks)
  {
    FilterTasksIsMatching(tasks, o);
    MatchingMembers(tasks, o);
  }

  /** Without filters the listing shows every task of the file once. */
  lemma DefaultListsAll(file: SimblFile, o: FilterOptions)
    requires !HasFilters(o)
    ensures multiset(ListedTasks(file, o)) == multiset(AllTasks(file))
  {
    BacklogOrder(file.backlog);
    DoneOrder(file.done);
  }

  // ---- properties of the lines ----

  /** The brief line starts with the id and the shown title, and ends with
      the tag line when there are tags. */
  lemma BriefShape(t: Task)
    ensures var head := t.id + " " + ShownTitle(t.title);
      StartsWith(FormatTaskBrief(t), head)
      && (t.tags == [] ==> FormatTaskBrief(t) == head)
      && (t.tags != [] ==> EndsWith(FormatTaskBrief(t), "  " + FormatTagLine(t.tags)))
  {
    var head := t.id + " " + ShownTitle(t.title);
    if t.tags != [] {
      var tail := "  " + FormatTagLine(t.tags);
      assert FormatTaskBrief(t) == head + tail;
      assert (head + tail)[..|head|] == head;
      assert (head + tail)[|head + tail| - |tail|..] == tail;
    }
  }

  /** The tags read back from a brief line are the task's tags, when neither
      the id nor the title holds a `[` and every tag survives a tag line. */
  lemma BriefTagsReadBack(t: Task)
    requires '[' !in t.id && '[' !in t.title
    requires forall k :: 0 <= k < |t.tags| ==> Formattable(t.tags[k])
    ensures TagsIn(FormatTaskBrief(t)) == t.tags
  {
    var head := t.id + " " + ShownTitle(t.title);
    var tags := FormatTagLine(t.tags);
    TagLineRoundTrip(t.tags);
    if t.tags != [] {
      assert '[' !in head + "  ";
      TextOutsideIgnored(head + "  ", tags);
      assert FormatTaskBrief(t) == head + "  " + tags;
    } else {
      assert '[' !in head;
      TextOutsideIgnored(head, "");
      assert head + "" == head;
    }
  }

  /** The full form starts with the heading line and ends with a blank line
      and the content when there is content; a task with neither tags nor
      content is its heading line alone. */
  lemma FullShape(t: Task)
    ensures var head := "## " + t.id + " " + ShownTitle(t.title);
      StartsWith(FormatTaskFull(t), head)
      && (t.content != "" ==> EndsWith(FormatTaskFull(t), "\n\n" + t.content))
      && (t.tags == [] && t.content == "" ==> FormatTaskFull(t) == head)
  {
    var head := "## " + t.id + " " + ShownTitle(t.title);
    var first := [head] + (if |t.tags| > 0 then [FormatTagLine(t.tags)] else []);
    var s := Join(first, "\n");
    assert StartsWith(s, head) by {
      if |t.tags| > 0 {
        assert first == [head, FormatTagLine(t.tags)];
        StartsWithAppend(head, "\n" + FormatTagLine(t.tags));
      }
    }
    if t.content != "" {
      FullWithContent(first, s, t.content);
      assert FullParts(t) == first + ["", t.content];
      StartsWithExtend(s, head, "\n\n" + t.content);
    } else {
      assert FullParts(t) == first + [];
    }
  }

  /** The blank line and the content come last, joined by line feeds. */
  lemma FullWithContent(first: seq<string>, s: string, content: string)
    requires first != [] && s == Join(first, "\n")
    ensures Join(first + ["", content], "\n") == s + ("\n\n" + content)
    ensures EndsWith(s + ("\n\n" + content), "\n\n" + content)
  {
    assert first + ["", content] == first + [""] + [content];
    JoinAppend(first, "", "\n");
    JoinAppend(first + [""], content, "\n");
    StartsWithAppend(s, "\n\n" + content);
  }
}
