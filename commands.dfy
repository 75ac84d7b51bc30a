/** What the task commands share: each reads `tasks.md` into a document,
    edits it in place and writes it back serialised. The document is the
    state here; reading and writing the file are not part of this model. */
module Commands {
  import opened Wrappers
  import opened JsString
  import opened Tasks
  import opened Parser
  import opened TaskGraph

  /** A string flag that was given: citty leaves a missing flag undefined,
      and the commands test it for truthiness, so `""` counts as missing. */
  predicate Given(flag: Option<string>) {
    flag.Some? && flag.value != ""
  }

  /** The document with the `k`-th task of `getAllTasks` replaced: the
      commands edit the task object itself, which sits in its section. */
  function Replaced(file: SimblFile, k: nat, t: Task): (r: SimblFile)
    requires k < |AllTasks(file)|
    ensures AllTasks(r) == AllTasks(file)[k := t]
    ensures |r.backlog| == |file.backlog| && |r.done| == |file.done| && r.preamble == file.preamble
    ensures k < |file.backlog| ==> r.done == file.done && r.backlog == file.backlog[k := t]
    ensures k >= |file.backlog| ==> r.backlog == file.backlog && r.done == file.done[k - |file.backlog| := t]
  {
    if k < |file.backlog| then file.(backlog := file.backlog[k := t])
    else file.(done := file.done[k - |file.backlog| := t])
  }

  /** Replacing one task leaves the others where they were. */
  lemma RewriteOne(file: SimblFile, k: nat, t: Task)
    requires k < |AllTasks(file)|
    ensures var all, all' := AllTasks(file), AllTasks(Replaced(file, k, t));
      |all'| == |all| && all'[k] == t && forall j :: 0 <= j < |all| && j != k ==> all'[j] == all[j]
  {
  }

  /** A task given new tags, with `reserved = parseReservedTags(tags)` and
      `status = deriveStatus(section, reserved)` as every tag-editing command
      assigns them; nothing else about it changes. */
  function Retagged(t: Task, tags: seq<string>): (r: Task)
    ensures r.tags == tags && Consistent(r)
    ensures r.id == t.id && r.title == t.title && r.content == t.content && r.section == t.section
  {
    var reserved := ReservedOf(tags);
    t.(tags := tags, reserved := reserved, status := DeriveStatus(t.section, reserved))
  }

  // ---- parent tags ----

  predicate IsChildOfTag(tag: string) {
    StartsWith(tag, "child-of-")
  }

  /** The test `t => !t.startsWith('child-of-')` of the tag filter. */
  predicate NotChildOf(tag: string) {
    !IsChildOfTag(tag)
  }

  // ---- what the edits do to the reserved record ----

  /** Dropping every `child-of-` tag forgets the parent and nothing else: no
      other variant is spelled with that prefix. */
  lemma {:induction false} WithoutParentReserved(tags: seq<string>)
    ensures ReservedOf(Filter(tags, NotChildOf)) == ReservedOf(tags).(parentId := None)
    decreases |tags|
  {
    if tags == [] {
      NoTags();
    } else {
      var init, t := tags[..|tags| - 1], tags[|tags| - 1];
      WithoutParentReserved(init);
      SplitLast(tags);
      FilterPush(init, t, NotChildOf);
      ReservedOfAppend(init, t);
      if NotChildOf(t) {
        KeptTag(init, t);
      } else {
        DroppedTag(init, t);
      }
    }
  }

  /** The step of `WithoutParentReserved` for a tag the filter keeps. */
  lemma KeptTag(init: seq<string>, t: string)
    requires NotChildOf(t)
    requires ReservedOf(Filter(init, NotChildOf)) == ReservedOf(init).(parentId := None)
    ensures ReservedOf(Filter(init, NotChildOf) + [t]) == Absorb(ReservedOf(init), ParseTag(t)).(parentId := None)
  {
    ReservedOfAppend(Filter(init, NotChildOf), t);
    NotChildOfKind(t);
    AbsorbForgetsParent(ReservedOf(init), ParseTag(t));
  }

  /** The step of `WithoutParentReserved` for a tag the filter drops. */
  lemma DroppedTag(init: seq<string>, t: string)
    requires IsChildOfTag(t)
    requires ReservedOf(Filter(init, NotChildOf)) == ReservedOf(init).(parentId := None)
    ensures ReservedOf(Filter(init, NotChildOf) + []) == Absorb(ReservedOf(init), ParseTag(t)).(parentId := None)
  {
    AppendEmpty(Filter(init, NotChildOf));
    ChildOfPrefix(t);
    AbsorbParent(ReservedOf(init), ParseTag(t));
  }

  /** Absorbing a parent tag or a custom one changes at most the parent. */
  lemma AbsorbParent(r: Reserved, k: TagKind)
    requires k.ChildOf? || k.Custom?
    ensures Absorb(r, k).(parentId := None) == r.(parentId := None)
  {
  }

  /** A tag without the `child-of-` prefix is no parent tag. */
  lemma NotChildOfKind(t: string)
    requires NotChildOf(t)
    ensures !ParseTag(t).ChildOf?
  {
    ParseTagOrder(t);
  }

  /** Absorbing anything but a parent tag commutes with forgetting the parent. */
  lemma AbsorbForgetsParent(r: Reserved, k: TagKind)
    requires !k.ChildOf?
    ensures Absorb(r.(parentId := None), k) == Absorb(r, k).(parentId := None)
  {
  }

  /** A tag with the `child-of-` prefix is a parent tag or a custom one. */
  lemma ChildOfPrefix(t: string)
    requires IsChildOfTag(t)
    ensures ParseTag(t).ChildOf? || ParseTag(t).Custom?
  {
    assert t[0] == 'c' && t[1] == 'h';
    ParseTagOrder(t);
    LiteralTags(t);
  }

  /** How the tag naming a parent reads back. */
  lemma ParseChildOf(p: string)
    ensures ParseTag("child-of-" + p) == if DotPlus(p) then ChildOf(p) else Custom("child-of-" + p)
  {
    var t := "child-of-" + p;
    assert t[..9] == "child-of-" && t[9..] == p;
    ChildOfPrefix(t);
  }

  /** How the tag naming a dependency reads back. */
  lemma ParseDependsOn(d: string)
    ensures ParseTag("depends-on-" + d) == if DotPlus(d) then DependsOn(d) else Custom("depends-on-" + d)
  {
    var t := "depends-on-" + d;
    assert t[..11] == "depends-on-" && t[11..] == d;
    assert t[0] == 'd' && t[1] == 'e';
    ParseTagOrder(t);
    LiteralTags(t);
  }

  /** No tag the filter keeps has the `child-of-` prefix. */
  lemma KeptClean(tags: seq<string>)
    ensures var kept := Filter(tags, NotChildOf); forall k :: 0 <= k < |kept| ==> NotChildOf(kept[k])
  {
    var kept := Filter(tags, NotChildOf);
    FilterMembers(tags, NotChildOf);
    forall k | 0 <= k < |kept| ensures NotChildOf(kept[k]) {
      assert kept[k] in kept;
    }
  }

  /** The filter of `child-of-` tags of a list that has none is empty. */
  lemma {:induction false} NoChildOfKept(xs: seq<string>)
    requires forall k :: 0 <= k < |xs| ==> NotChildOf(xs[k])
    ensures Filter(xs, IsChildOfTag) == []
    decreases |xs|
  {
    if xs != [] {
      NoChildOfKept(xs[..|xs| - 1]);
      AppendEmpty(Filter(xs[..|xs| - 1], IsChildOfTag));
    }
  }

  /** A task whose parent or dependencies changed only towards `targets`
      grows the graph only by edges from its id to `targets`. */
  lemma RetaggedEdges(all: seq<Task>, k: nat, t: Task, targets: set<string>)
    requires k < |all| && t.id == all[k].id
    requires forall y :: y in ParentEdge(t) + t.reserved.dependsOn ==>
      y in ParentEdge(all[k]) + all[k].reserved.dependsOn || y in targets
    ensures Grows(Edges(all), Edges(all[k := t]), t.id, targets)
  {
    var after := all[k := t];
    forall x, y | (x, y) in Edges(after)
      ensures (x, y) in Edges(all) || (x == t.id && y in targets)
    {
      LookupReplaced(all, k, t, x);
      if LastWithId(all, x) == Some(k) {
        assert Succ(after, x) == ParentEdge(t) + t.reserved.dependsOn;
        assert Succ(all, x) == ParentEdge(all[k]) + all[k].reserved.dependsOn;
      }
    }
  }

  // ---- moving a task to the done section ----

  /** The document after `backlog.splice(k, 1)` and `done.unshift(t)`. */
  function Moved(file: SimblFile, k: nat, t: Task): (r: SimblFile)
    requires k < |file.backlog|
    ensures |AllTasks(r)| == |AllTasks(file)|
  {
    SimblFile(file.backlog[..k] + file.backlog[k + 1..], [t] + file.done, file.preamble)
  }

  /** The move takes the `k`-th backlog task out, keeps the other tasks in
      their order, and puts `t` first in done: the tasks are the old ones
      with that one task exchanged for `t`. */
  lemma MovedTasks(file: SimblFile, k: nat, t: Task)
    requires k < |file.backlog|
    ensures var r := Moved(file, k, t);
      r.backlog[..k] == file.backlog[..k] && r.backlog[k..] == file.backlog[k + 1..]
      && r.done[0] == t && r.done[1..] == file.done && r.preamble == file.preamble
      && multiset(AllTasks(r)) == multiset(AllTasks(file)) - multiset{file.backlog[k]} + multiset{t}
  {
    var b := file.backlog;
    assert b == b[..k] + [b[k]] + b[k + 1..];
    var r := Moved(file, k, t);
    assert r.backlog + r.done == b[..k] + b[k + 1..] + ([t] + file.done);
    assert multiset(AllTasks(file)) == multiset(b[..k]) + multiset{b[k]} + multiset(b[k + 1..]) + multiset(file.done);
  }

  /** The reserved record without the in-progress flag. */
  function Idle(r: Reserved): Reserved {
    r.(inProgress := false)
  }

  /** Dropping every `in-progress` tag clears the flag and nothing else:
      no other tag sets it. */
  lemma {:induction false} WithoutInProgressReserved(tags: seq<string>)
    ensures ReservedOf(Without(tags, "in-progress")) == Idle(ReservedOf(tags))
    decreases |tags|
  {
    if tags == [] {
      NoTags();
    } else {
      var init, t := tags[..|tags| - 1], tags[|tags| - 1];
      WithoutInProgressReserved(init);
      SplitLast(tags);
      WithoutPush(init, t, "in-progress");
      ReservedOfAppend(init, t);
      LiteralTags(t);
      if t == "in-progress" {
        AppendEmpty(Without(init, "in-progress"));
      } else {
        ReservedOfAppend(Without(init, "in-progress"), t);
        AbsorbIdle(ReservedOf(init), ParseTag(t));
      }
    }
  }

  /** Absorbing anything but `in-progress` commutes with clearing the flag. */
  lemma AbsorbIdle(r: Reserved, k: TagKind)
    requires k != InProgressTag
    ensures Absorb(Idle(r), k) == Idle(Absorb(r, k))
  {
  }

  /** The parsed `tasks.md`, as the commands hold and edit it. */
  class TasksFile {
    var backlog: seq<Task>
    var done: seq<Task>
    var preamble: Option<string>

    constructor(file: SimblFile)
      ensures File() == file
    {
      backlog := file.backlog;
      done := file.done;
      preamble := file.preamble;
    }

    function File(): SimblFile
      reads this
    {
      SimblFile(backlog, done, preamble)
    }

    /** Overwriting the fields of the `k`-th task of `getAllTasks`. */
    method SetTask(k: nat, t: Task)
      requires k < |backlog| + |done|
      modifies this
      ensures File() == Replaced(old(File()), k, t)
    {
      if k < |backlog| {
        backlog := backlog[k := t];
      } else {
        done := done[k - |backlog| := t];
      }
    }
  }
}
