/** What `sync` reports after a pull (src/cli/commands/sync.ts): the ids of
    the tasks that are new, updated or deleted between the snapshot of
    `tasks.md` taken before the pull and the one taken after it. The git
    commands, the file reads and the output are not part of this model; the
    two task lists are its inputs. */
module Sync {
  import opened Wrappers
  import opened Tasks

  /** `tasks.map(t => t.id)` */
  function IdsOf(tasks: seq<Task>): (r: seq<string>)
    ensures |r| == |tasks| && forall k :: 0 <= k < |tasks| ==> r[k] == tasks[k].id
  {
    seq(|tasks|, k requires 0 <= k < |tasks| => tasks[k].id)
  }

  /** `map.get(id)` of `new Map(tasks.map(t => [t.id, t]))`: a later task
      with the same id overwrites an earlier one, so the last one is found. */
  function Lookup(tasks: seq<Task>, id: string): (r: Option<Task>)
    decreases |tasks|
  {
    if tasks == [] then None
    else if tasks[|tasks| - 1].id == id then Some(tasks[|tasks| - 1])
    else Lookup(tasks[..|tasks| - 1], id)
  }

  /** The fields the comparison looks at; `JSON.stringify` of two tag lists
      agrees exactly when the lists do. */
  predicate Differs(a: Task, b: Task) {
    a.title != b.title || a.content != b.content || a.tags != b.tags || a.section != b.section
  }

  /** The ids of `xs` that `ys` does not hold, in the order of `xs`. */
  function Absent(xs: seq<string>, ys: seq<string>): (r: seq<string>)
    ensures |r| <= |xs|
    decreases |xs|
  {
    if xs == [] then []
    else Absent(xs[..|xs| - 1], ys) + if xs[|xs| - 1] in ys then [] else [xs[|xs| - 1]]
  }

  /** Whether the id counts as updated: both snapshots hold it and the
      tasks under it differ. */
  predicate IsUpdated(id: string, before: seq<Task>, after: seq<Task>) {
    Lookup(before, id).Some? && Lookup(after, id).Some? && Differs(Lookup(before, id).value, Lookup(after, id).value)
  }

  /** The ids of `xs` that count as updated, in the order of `xs`. */
  function UpdatedAmong(xs: seq<string>, before: seq<Task>, after: seq<Task>): (r: seq<string>)
    ensures |r| <= |xs|
    decreases |xs|
  {
    if xs == [] then []
    else UpdatedAmong(xs[..|xs| - 1], before, after) + if IsUpdated(xs[|xs| - 1], before, after) then [xs[|xs| - 1]] else []
  }

  /** `newTasks`, `updatedTasks` and `deletedTasks` of `sync`: three loops
      over the id sets, each pushing the ids that pass its test. */
  method FindDifferences(before: seq<Task>, after: seq<Task>)
    returns (newTasks: seq<string>, updatedTasks: seq<string>, deletedTasks: seq<string>)
    ensures newTasks == Absent(Distinct(IdsOf(after)), IdsOf(before))
    ensures deletedTasks == Absent(Distinct(IdsOf(before)), IdsOf(after))
    ensures updatedTasks == UpdatedAmong(Distinct(IdsOf(after)), before, after)
  {
    var beforeIds := Distinct(IdsOf(before));
    var afterIds := Distinct(IdsOf(after));
    newTasks, updatedTasks, deletedTasks := [], [], [];
    var i := 0;
    while i < |afterIds|
      invariant 0 <= i <= |afterIds|
      invariant newTasks == Absent(afterIds[..i], IdsOf(before))
    {
      PrefixSnoc(afterIds, i);
      SetHas(IdsOf(before), afterIds[i]);
      if afterIds[i] !in beforeIds {
        newTasks := newTasks + [afterIds[i]];
      }
      i := i + 1;
    }
    WholePrefix(afterIds);
    i := 0;
    while i < |beforeIds|
      invariant 0 <= i <= |beforeIds|
      invariant deletedTasks == Absent(beforeIds[..i], IdsOf(after))
    {
      PrefixSnoc(beforeIds, i);
      SetHas(IdsOf(after), beforeIds[i]);
      if beforeIds[i] !in afterIds {
        deletedTasks := deletedTasks + [beforeIds[i]];
      }
      i := i + 1;
    }
    WholePrefix(beforeIds);
    i := 0;
    while i < |afterIds|
      invariant 0 <= i <= |afterIds|
      invariant updatedTasks == UpdatedAmong(afterIds[..i], before, after)
    {
      var id := afterIds[i];
      PrefixSnoc(afterIds, i);
      SetHas(IdsOf(before), id);
      if id in beforeIds {
        var beforeTask := Lookup(before, id);
        var afterTask := Lookup(after, id);
        if beforeTask.Some? && afterTask.Some? {
          if Differs(beforeTask.value, afterTask.value) {
            updatedTasks := updatedTasks + [id];
          }
        }
      } else {
        LookupFinds(before, id);
      }
      i := i + 1;
    }
    WholePrefix(afterIds);
  }

  // ---- properties ----

  /** `set.has(x)` of `new Set(xs)` is membership in `xs`. */
  lemma SetHas(xs: seq<string>, x: string)
    ensures x in Distinct(xs) <==> x in xs
  {
    DistinctMembers(xs);
  }

  /** The map finds an id exactly when some task has it, and what it finds
      is the last task with that id. */
  lemma {:induction false} LookupFinds(tasks: seq<Task>, id: string)
    ensures Lookup(tasks, id).Some? <==> id in IdsOf(tasks)
    ensures Lookup(tasks, id).Some? ==>
      exists k :: 0 <= k < |tasks| && tasks[k] == Lookup(tasks, id).value && tasks[k].id == id
        && forall j :: k < j < |tasks| ==> tasks[j].id != id
    decreases |tasks|
  {
    if tasks != [] {
      var init := tasks[..|tasks| - 1];
      LookupFinds(init, id);
      assert IdsOf(tasks) == IdsOf(init) + [tasks[|tasks| - 1].id];
      if tasks[|tasks| - 1].id != id && Lookup(init, id).Some? {
        var k :| 0 <= k < |init| && init[k] == Lookup(init, id).value && init[k].id == id
          && forall j :: k < j < |init| ==> init[j].id != id;
        assert tasks[k] == init[k];
      }
    }
  }

  /** `Absent` keeps exactly the ids of `xs` that `ys` lacks, and keeps a
      list without duplicates free of them. */
  lemma {:induction false} AbsentMembers(xs: seq<string>, ys: seq<string>)
    ensures forall x :: x in Absent(xs, ys) <==> x in xs && x !in ys
    ensures NoDuplicates(xs) ==> NoDuplicates(Absent(xs, ys))
    decreases |xs|
  {
    if xs != [] {
      var init, x := xs[..|xs| - 1], xs[|xs| - 1];
      AbsentMembers(init, ys);
      SplitLast(xs);
      if NoDuplicates(xs) {
        assert NoDuplicates(init);
        assert x !in init;
      }
    }
  }

  lemma {:induction false} UpdatedMembers(xs: seq<string>, before: seq<Task>, after: seq<Task>)
    ensures forall x :: x in UpdatedAmong(xs, before, after) <==> x in xs && IsUpdated(x, before, after)
    ensures NoDuplicates(xs) ==> NoDuplicates(UpdatedAmong(xs, before, after))
    decreases |xs|
  {
    if xs != [] {
      var init, x := xs[..|xs| - 1], xs[|xs| - 1];
      UpdatedMembers(init, before, after);
      SplitLast(xs);
      if NoDuplicates(xs) {
        assert NoDuplicates(init);
        assert x !in init;
      }
    }
  }

  /** What the three lists hold: new ids are after the pull only, deleted
      ids before it only, updated ids in both with a changed title, content,
      tag list or section; no list repeats an id, and no id is in two lists. */
  lemma DiffSpec(before: seq<Task>, after: seq<Task>)
    ensures var n, u, d := Absent(Distinct(IdsOf(after)), IdsOf(before)),
                           UpdatedAmong(Distinct(IdsOf(after)), before, after),
                           Absent(Distinct(IdsOf(before)), IdsOf(after));
      (forall id :: id in n <==> id in IdsOf(after) && id !in IdsOf(before))
      && (forall id :: id in d <==> id in IdsOf(before) && id !in IdsOf(after))
      && (forall id :: id in u <==> IsUpdated(id, before, after))
      && (forall id :: id in u ==> id in IdsOf(before) && id in IdsOf(after))
      && NoDuplicates(n) && NoDuplicates(u) && NoDuplicates(d)
      && (forall id :: !(id in n && id in u) && !(id in n && id in d) && !(id in u && id in d))
  {
    AbsentSpec(after, before);
    AbsentSpec(before, after);
    UpdatedSpec(before, after);
  }

  /** The ids of the one snapshot that the other lacks, each once. */
  lemma AbsentSpec(xs: seq<Task>, ys: seq<Task>)
    ensures var n := Absent(Distinct(IdsOf(xs)), IdsOf(ys));
      (forall id :: id in n <==> id in IdsOf(xs) && id !in IdsOf(ys)) && NoDuplicates(n)
  {
    DistinctMembers(IdsOf(xs));
    AbsentMembers(Distinct(IdsOf(xs)), IdsOf(ys));
  }

  /** The updated ids, each once, all in both snapshots. */
  lemma UpdatedSpec(before: seq<Task>, after: seq<Task>)
    ensures var u := UpdatedAmong(Distinct(IdsOf(after)), before, after);
      (forall id :: id in u <==> IsUpdated(id, before, after))
      && (forall id :: id in u ==> id in IdsOf(before) && id in IdsOf(after))
      && NoDuplicates(u)
  {
    var a := Distinct(IdsOf(after));
    DistinctMembers(IdsOf(after));
    UpdatedMembers(a, before, after);
    forall id | IsUpdated(id, before, after) ensures id in IdsOf(before) && id in IdsOf(after) {
      LookupFinds(before, id);
      LookupFinds(after, id);
    }
  }

  /** A pull that leaves the tasks as they were reports nothing. */
  lemma Unchanged(tasks: seq<Task>)
    ensures Absent(Distinct(IdsOf(tasks)), IdsOf(tasks)) == []
    ensures UpdatedAmong(Distinct(IdsOf(tasks)), tasks, tasks) == []
  {
    DistinctMembers(IdsOf(tasks));
    AllPresent(Distinct(IdsOf(tasks)), IdsOf(tasks));
    NoneUpdated(Distinct(IdsOf(tasks)), tasks);
  }

  lemma {:induction false} AllPresent(xs: seq<string>, ys: seq<string>)
    requires forall x :: x in xs ==> x in ys
    ensures Absent(xs, ys) == []
    decreases |xs|
  {
    if xs != [] {
      AllPresent(xs[..|xs| - 1], ys);
      assert xs[|xs| - 1] in xs;
    }
  }

  lemma {:induction false} NoneUpdated(xs: seq<string>, tasks: seq<Task>)
    ensures UpdatedAmong(xs, tasks, tasks) == []
    decreases |xs|
  {
    if xs != [] {
      NoneUpdated(xs[..|xs| - 1], tasks);
    }
  }
}
