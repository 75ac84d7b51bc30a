/** `simbl relate`: giving a task a parent or a dependency, refused when the
    new edge would close a cycle (src/cli/commands/relate.ts). */
module Relate {
  import opened Wrappers
  import opened JsString
  import opened Tasks
  import opened Parser
  import opened TaskGraph
  import opened Commands

  // ---- wouldCreateCycle ----

  /** `hasCycle(current)` inside `wouldCreateCycle(taskId, _, tasks)`, with
      the closure's `visited` set passed in and handed back. `open` holds the
      ids whose expansion is under way further up the recursion; every other
      visited id already has all its successors visited. */
  method HasCycle(ts: seq<Task>, taskId: string, current: string, visited: set<string>, ghost open: set<string>)
    returns (found: bool, visitedOut: set<string>)
    requires taskId !in visited && open <= visited && Closed(Edges(ts), visited, open)
    decreases |Ids(ts) - visited|, 3
    ensures visited <= visitedOut && taskId !in visitedOut
    ensures found ==> Reaches(Edges(ts), current, taskId)
    ensures !found ==> current in visitedOut && Closed(Edges(ts), visitedOut, open)
  {
    if current == taskId {
      ReachesItself(Edges(ts), current);
      return true, visited;
    }
    if current in visited {
      return false, visited;
    }
    visitedOut := visited + {current};
    var task := Lookup(ts, current);
    if task.None? {
      return false, visitedOut;
    }
    LookupIds(ts, current);
    found, visitedOut := Expand(ts, taskId, current, task.value, visitedOut, open, visited);
  }

  /** The rest of `hasCycle(current)` once `current` is marked and its task
      found: the parent first, then each dependency in turn. `before` is the
      visited set from before the mark. */
  method Expand(ts: seq<Task>, taskId: string, current: string, t: Task, visited: set<string>,
                ghost open: set<string>, ghost before: set<string>)
    returns (found: bool, visitedOut: set<string>)
    requires Lookup(ts, current) == Some(t) && current in Ids(ts) && current !in before
    requires before + {current} <= visited && taskId !in visited && open + {current} <= visited
    requires Closed(Edges(ts), visited, open + {current})
    decreases |Ids(ts) - before|, 2
    ensures visited <= visitedOut && taskId !in visitedOut
    ensures found ==> Reaches(Edges(ts), current, taskId)
    ensures !found ==> Closed(Edges(ts), visitedOut, open)
  {
    visitedOut := visited;
    if t.reserved.parentId.Some? && t.reserved.parentId.value != "" {
      ParentIsEdge(ts, current, t);
      found, visitedOut := Visit(ts, taskId, current, t.reserved.parentId.value, visitedOut, open, before);
      if found {
        return;
      }
    }
    ghost var mid := visitedOut;
    assert forall y :: y in ParentEdge(t) ==> y in mid;
    found, visitedOut := VisitDeps(ts, taskId, current, t, visitedOut, open, before);
    if !found {
      SuccessorsVisited(ts, current, t, visitedOut, open);
    }
  }

  /** The loop of `hasCycle(current)` over the dependencies of its task. */
  method VisitDeps(ts: seq<Task>, taskId: string, current: string, t: Task, visited: set<string>,
                   ghost open: set<string>, ghost before: set<string>)
    returns (found: bool, visitedOut: set<string>)
    requires Lookup(ts, current) == Some(t) && current in Ids(ts) && current !in before
    requires before + {current} <= visited && taskId !in visited && open + {current} <= visited
    requires Closed(Edges(ts), visited, open + {current})
    decreases |Ids(ts) - before|, 1
    ensures visited <= visitedOut && taskId !in visitedOut
    ensures found ==> Reaches(Edges(ts), current, taskId)
    ensures !found ==> Closed(Edges(ts), visitedOut, open + {current})
    ensures !found ==> forall j :: 0 <= j < |t.reserved.dependsOn| ==> t.reserved.dependsOn[j] in visitedOut
  {
    var deps := t.reserved.dependsOn;
    visitedOut := visited;
    var i := 0;
    while i < |deps|
      invariant 0 <= i <= |deps|
      invariant visited <= visitedOut && taskId !in visitedOut
      invariant Closed(Edges(ts), visitedOut, open + {current})
      invariant forall j :: 0 <= j < i ==> deps[j] in visitedOut
    {
      DepIsEdge(ts, current, t, i);
      ghost var prev := visitedOut;
      found, visitedOut := Visit(ts, taskId, current, deps[i], visitedOut, open, before);
      if found {
        return;
      }
      KeptVisited(deps, i, prev, visitedOut);
      i := i + 1;
    }
    found := false;
  }

  /** The dependencies visited so far stay visited as the set grows. */
  lemma KeptVisited(deps: seq<string>, i: nat, prev: set<string>, now: set<string>)
    requires i < |deps| && prev <= now && deps[i] in now
    requires forall j :: 0 <= j < i ==> deps[j] in prev
    ensures forall j :: 0 <= j < i + 1 ==> deps[j] in now
  {
  }

  lemma ParentIsEdge(ts: seq<Task>, current: string, t: Task)
    requires Lookup(ts, current) == Some(t) && t.reserved.parentId.Some? && t.reserved.parentId.value != ""
    ensures Edge(ts, current, t.reserved.parentId.value)
  {
    assert t.reserved.parentId.value in ParentEdge(t);
  }

  lemma DepIsEdge(ts: seq<Task>, current: string, t: Task, j: nat)
    requires Lookup(ts, current) == Some(t) && j < |t.reserved.dependsOn|
    ensures Edge(ts, current, t.reserved.dependsOn[j])
  {
    assert Succ(ts, current) == ParentEdge(t) + t.reserved.dependsOn;
    assert Succ(ts, current)[|ParentEdge(t)| + j] == t.reserved.dependsOn[j];
  }

  /** One call `hasCycle(next)` for a successor `next` of `current`. */
  method Visit(ts: seq<Task>, taskId: string, current: string, next: string, visited: set<string>,
               ghost open: set<string>, ghost before: set<string>)
    returns (found: bool, visitedOut: set<string>)
    requires Edge(ts, current, next) && current in Ids(ts) && current !in before
    requires before + {current} <= visited && taskId !in visited && open + {current} <= visited
    requires Closed(Edges(ts), visited, open + {current})
    decreases |Ids(ts) - before|, 0
    ensures visited <= visitedOut && taskId !in visitedOut
    ensures found ==> Reaches(Edges(ts), current, taskId)
    ensures !found ==> next in visitedOut && Closed(Edges(ts), visitedOut, open + {current})
  {
    MarkShrinks(Ids(ts), before, visited, current);
    found, visitedOut := HasCycle(ts, taskId, next, visited, open + {current});
    if found {
      ReachStep(Edges(ts), current, next, taskId);
    }
  }

  /** Once the parent and every dependency of `current` are visited,
      `current` is no longer open. */
  lemma SuccessorsVisited(ts: seq<Task>, current: string, t: Task, visited: set<string>, open: set<string>)
    requires Lookup(ts, current) == Some(t) && Closed(Edges(ts), visited, open + {current})
    requires forall y :: y in ParentEdge(t) ==> y in visited
    requires forall j :: 0 <= j < |t.reserved.dependsOn| ==> t.reserved.dependsOn[j] in visited
    ensures Closed(Edges(ts), visited, open)
  {
    forall y | y in Succ(ts, current) ensures y in visited {
      assert y in ParentEdge(t) || y in t.reserved.dependsOn;
    }
  }

  /** `wouldCreateCycle(taskId, targetId, allTasks)`: whether `taskId` can
      be reached from `targetId` along parent and dependency edges, counting
      `targetId == taskId`. */
  method WouldCreateCycle(taskId: string, targetId: string, allTasks: seq<Task>) returns (r: bool)
    ensures r <==> Reaches(Edges(allTasks), targetId, taskId)
  {
    var visited;
    r, visited := HasCycle(allTasks, taskId, targetId, {}, {});
    if !r {
      ClosedUnreachable(Edges(allTasks), visited, targetId, taskId);
    }
  }

  // ---- the edits ----

  /** `tags.filter(t => !t.startsWith('child-of-'))` followed by the new
      parent's tag. */
  function WithParent(tags: seq<string>, parent: string): seq<string> {
    Filter(tags, NotChildOf) + ["child-of-" + parent]
  }

  /** The tags after the edits `run` makes: the parent first, then the
      dependency. */
  function NewTags(tags: seq<string>, parent: Option<string>, dependsOn: Option<string>): seq<string> {
    var withParent := if Given(parent) then WithParent(tags, parent.value) else tags;
    if Given(dependsOn) then withParent + ["depends-on-" + dependsOn.value] else withParent
  }

  /** Why `run` refuses the parent `p` for the task `id`, if it does. */
  ghost function ParentRefusal(file: SimblFile, id: string, p: string): Option<string> {
    if FindTaskById(file, p).None? then Some("Parent task \"" + p + "\" not found.")
    else if p == id then Some("A task cannot be its own parent.")
    else if Reaches(Edges(AllTasks(file)), p, id) then Some("Cannot set parent: would create circular dependency.")
    else None
  }

  /** Why `run` refuses the dependency `d` for the task `id` whose current
      dependencies are `deps`, if it does. */
  ghost function DependencyRefusal(file: SimblFile, id: string, deps: seq<string>, d: string): Option<string> {
    if FindTaskById(file, d).None? then Some("Dependency task \"" + d + "\" not found.")
    else if d == id then Some("A task cannot depend on itself.")
    else if d in deps then Some("Task \"" + id + "\" already depends on \"" + d + "\".")
    else if Reaches(Edges(AllTasks(file)), d, id) then Some("Cannot add dependency: would create circular dependency.")
    else None
  }

  /** What `run` does to the document, or the message it exits with. Every
      check reads the document as it was read: the task's reserved record is
      not recomputed until the end, so the dependency checks see the old
      parent, and both cycle checks search the old graph. */
  ghost function Related(file: SimblFile, id: string, parent: Option<string>, dependsOn: Option<string>): Result<SimblFile>
  {
    var all := AllTasks(file);
    if !Given(parent) && !Given(dependsOn) then
      Err("Provide --parent or --depends-on to create a relationship.")
    else match FirstWithId(all, id)
      case None => Err("Task \"" + id + "\" not found.")
      case Some(k) =>
        var task := all[k];
        var refusal := Refusal(file, id, task.reserved.dependsOn, parent, dependsOn);
        if refusal.Some? then Err(refusal.value)
        else Ok(Replaced(file, k, Retagged(task, NewTags(task.tags, parent, dependsOn))))
  }

  /** The first refusal among the parent checks and then the dependency
      checks, for a task with the dependencies `deps`. */
  ghost function Refusal(file: SimblFile, id: string, deps: seq<string>, parent: Option<string>, dependsOn: Option<string>): Option<string>
  {
    if Given(parent) && ParentRefusal(file, id, parent.value).Some? then ParentRefusal(file, id, parent.value)
    else if Given(dependsOn) then DependencyRefusal(file, id, deps, dependsOn.value)
    else None
  }

  /** The parent checks of `run`. */
  method CheckParent(file: SimblFile, id: string, p: string) returns (refusal: Option<string>)
    ensures refusal == ParentRefusal(file, id, p)
  {
    if FindTaskById(file, p).None? {
      return Some("Parent task \"" + p + "\" not found.");
    }
    if p == id {
      return Some("A task cannot be its own parent.");
    }
    var cycle := WouldCreateCycle(id, p, AllTasks(file));
    if cycle {
      return Some("Cannot set parent: would create circular dependency.");
    }
    return None;
  }

  /** The dependency checks of `run`. */
  method CheckDependency(file: SimblFile, id: string, deps: seq<string>, d: string) returns (refusal: Option<string>)
    ensures refusal == DependencyRefusal(file, id, deps, d)
  {
    if FindTaskById(file, d).None? {
      return Some("Dependency task \"" + d + "\" not found.");
    }
    if d == id {
      return Some("A task cannot depend on itself.");
    }
    if d in deps {
      return Some("Task \"" + id + "\" already depends on \"" + d + "\".");
    }
    var cycle := WouldCreateCycle(id, d, AllTasks(file));
    if cycle {
      return Some("Cannot add dependency: would create circular dependency.");
    }
    return None;
  }

  /** `run`: on any refusal the process exits before writing, so the
      document is left as it was. */
  method Run(doc: TasksFile, id: string, parent: Option<string>, dependsOn: Option<string>) returns (r: Result<()>)
    modifies doc
    ensures var outcome := Related(old(doc.File()), id, parent, dependsOn);
      r == (if outcome.Ok? then Ok(()) else Err(outcome.error))
      && doc.File() == (if outcome.Ok? then outcome.value else old(doc.File()))
  {
    if !Given(parent) && !Given(dependsOn) {
      return Err("Provide --parent or --depends-on to create a relationship.");
    }
    var file := doc.File();
    var allTasks := AllTasks(file);
    var position := FirstWithId(allTasks, id);
    if position.None? {
      return Err("Task \"" + id + "\" not found.");
    }
    var task := allTasks[position.value];
    var tags := task.tags;
    if Given(parent) {
      var refusal := CheckParent(file, id, parent.value);
      if refusal.Some? {
        return Err(refusal.value);
      }
      tags := Filter(tags, NotChildOf);
      tags := tags + ["child-of-" + parent.value];
    }
    if Given(dependsOn) {
      var refusal := CheckDependency(file, id, task.reserved.dependsOn, dependsOn.value);
      if refusal.Some? {
        return Err(refusal.value);
      }
      tags := tags + ["depends-on-" + dependsOn.value];
    }
    var reserved := ParseReservedTags(tags);
    var updated := task.(tags := tags, reserved := reserved, status := DeriveStatus(task.section, reserved));
    doc.SetTask(position.value, updated);
    r := Ok(());
  }

  /** The reserved record after the edits: the parent, when one was set, is
      the new one (dropped when the id could not be spelled as a tag), and
      the dependency, when one was added, comes after the old ones. */
  lemma NewTagsReserved(tags: seq<string>, parent: Option<string>, dependsOn: Option<string>)
    ensures var r, r' := ReservedOf(tags), ReservedOf(NewTags(tags, parent, dependsOn));
      r'.parentId == (if !Given(parent) then r.parentId else if DotPlus(parent.value) then parent else None)
      && r'.dependsOn == (if Given(dependsOn) && DotPlus(dependsOn.value) then r.dependsOn + [dependsOn.value] else r.dependsOn)
      && r'.priority == r.priority && r'.project == r.project
      && r'.inProgress == r.inProgress && r'.canceled == r.canceled && r'.refined == r.refined
  {
    if Given(parent) {
      ParentReserved(tags, parent.value);
    }
    if Given(dependsOn) {
      var withParent := if Given(parent) then WithParent(tags, parent.value) else tags;
      DependencyReserved(withParent, dependsOn.value);
    }
  }

  /** Setting the parent `p` replaces the parent and nothing else. */
  lemma ParentReserved(tags: seq<string>, p: string)
    ensures ReservedOf(WithParent(tags, p)) == ReservedOf(tags).(parentId := if DotPlus(p) then Some(p) else None)
  {
    WithoutParentReserved(tags);
    ReservedOfAppend(Filter(tags, NotChildOf), "child-of-" + p);
    ParseChildOf(p);
  }

  /** Adding the dependency `d` appends it to the dependencies, when it can
      be spelled as a tag, and changes nothing else. */
  lemma DependencyReserved(tags: seq<string>, d: string)
    ensures var r := ReservedOf(tags);
      ReservedOf(tags + ["depends-on-" + d]) == if DotPlus(d) then r.(dependsOn := r.dependsOn + [d]) else r
  {
    ReservedOfAppend(tags, "depends-on-" + d);
    ParseDependsOn(d);
  }

  // ---- properties ----

  /** Setting a parent removes every `child-of-` tag and adds exactly one,
      naming the new parent; the other tags keep their order, and the
      dependency tag, when one is added too, comes last. */
  lemma ParentTags(tags: seq<string>, parent: Option<string>, dependsOn: Option<string>)
    requires Given(parent)
    ensures var tags' := NewTags(tags, parent, dependsOn);
      Filter(tags', IsChildOfTag) == ["child-of-" + parent.value]
      && Filter(tags', NotChildOf) ==
           Filter(tags, NotChildOf) + (if Given(dependsOn) then ["depends-on-" + dependsOn.value] else [])
  {
    var p := "child-of-" + parent.value;
    var kept := Filter(tags, NotChildOf);
    NewParentTags(tags, p);
    if Given(dependsOn) {
      DependencyTag(kept + [p], dependsOn.value);
      AppendEmpty([p]);
    } else {
      AppendEmpty(kept);
    }
  }

  /** Dropping the `child-of-` tags and pushing `p` leaves `p` the only one. */
  lemma NewParentTags(tags: seq<string>, p: string)
    requires IsChildOfTag(p)
    ensures Filter(Filter(tags, NotChildOf) + [p], IsChildOfTag) == [p]
    ensures Filter(Filter(tags, NotChildOf) + [p], NotChildOf) == Filter(tags, NotChildOf)
  {
    var kept := Filter(tags, NotChildOf);
    KeptClean(tags);
    NoChildOfKept(kept);
    FilterPush(kept, p, IsChildOfTag);
    FilterPush(kept, p, NotChildOf);
    FilterAll(kept, NotChildOf);
    AppendEmpty(kept);
  }

  /** A dependency tag is kept by the filter and is no parent tag. */
  lemma DependencyTag(xs: seq<string>, d: string)
    ensures Filter(xs + ["depends-on-" + d], IsChildOfTag) == Filter(xs, IsChildOfTag) + []
    ensures Filter(xs + ["depends-on-" + d], NotChildOf) == Filter(xs, NotChildOf) + ["depends-on-" + d]
  {
    var tag := "depends-on-" + d;
    assert tag[0] == 'd';
    FilterPush(xs, tag, IsChildOfTag);
    FilterPush(xs, tag, NotChildOf);
  }

  /** A relationship that `run` accepts keeps an acyclic graph acyclic, for
      tasks whose reserved records agree with their tags, as parsed tasks
      do. */
  lemma RelateKeepsAcyclic(file: SimblFile, id: string, parent: Option<string>, dependsOn: Option<string>)
    requires forall t :: t in AllTasks(file) ==> Consistent(t)
    requires Acyclic(Edges(AllTasks(file)))
    requires Related(file, id, parent, dependsOn).Ok?
    ensures Acyclic(Edges(AllTasks(Related(file, id, parent, dependsOn).value)))
  {
    var all := AllTasks(file);
    var k := RelatedAccepted(file, id, parent, dependsOn);
    var t' := Retagged(all[k], NewTags(all[k].tags, parent, dependsOn));
    var targets := Targets(parent, dependsOn);
    NewSuccessors(all[k], parent, dependsOn);
    NoRefusal(file, id, all[k].reserved.dependsOn, parent, dependsOn);
    RetaggedEdges(all, k, t', targets);
    GrowsAcyclic(Edges(all), Edges(all[k := t']), id, targets);
  }

  /** The ids the new edges of `run` point to. */
  function Targets(parent: Option<string>, dependsOn: Option<string>): (r: set<string>)
    ensures forall y :: y in r <==> (Given(parent) && y == parent.value) || (Given(dependsOn) && y == dependsOn.value)
  {
    (if Given(parent) then {parent.value} else {}) + (if Given(dependsOn) then {dependsOn.value} else {})
  }

  /** What an accepted edit has checked: the task is the first with `id`, no
      new target reaches it, and the document is that task retagged. */
  lemma RelatedAccepted(file: SimblFile, id: string, parent: Option<string>, dependsOn: Option<string>)
    returns (k: nat)
    requires Related(file, id, parent, dependsOn).Ok?
    ensures FirstWithId(AllTasks(file), id) == Some(k) && k < |AllTasks(file)|
    ensures Refusal(file, id, AllTasks(file)[k].reserved.dependsOn, parent, dependsOn).None?
    ensures var t := AllTasks(file)[k];
      Related(file, id, parent, dependsOn).value == Replaced(file, k, Retagged(t, NewTags(t.tags, parent, dependsOn)))
  {
    k := FirstWithId(AllTasks(file), id).value;
  }

  /** When nothing is refused, no new target reaches `id`. */
  lemma NoRefusal(file: SimblFile, id: string, deps: seq<string>, parent: Option<string>, dependsOn: Option<string>)
    requires Refusal(file, id, deps, parent, dependsOn).None?
    ensures forall b :: b in Targets(parent, dependsOn) ==> !Reaches(Edges(AllTasks(file)), b, id)
  {
    if Given(parent) {
      assert ParentRefusal(file, id, parent.value).None?;
    }
  }

  /** The retagged task's successors are its old ones plus the targets. */
  lemma NewSuccessors(t: Task, parent: Option<string>, dependsOn: Option<string>)
    requires Consistent(t)
    ensures var t' := Retagged(t, NewTags(t.tags, parent, dependsOn));
      forall y :: y in ParentEdge(t') + t'.reserved.dependsOn ==>
        y in ParentEdge(t) + t.reserved.dependsOn || y in Targets(parent, dependsOn)
  {
    NewTagsReserved(t.tags, parent, dependsOn);
  }

  /** After an accepted edit the task's tags are the old ones edited, its
      reserved record and status are derived again with its section
      unchanged, it stays where it was, and no other task changes. */
  lemma RelatedTask(file: SimblFile, id: string, parent: Option<string>, dependsOn: Option<string>)
    requires Related(file, id, parent, dependsOn).Ok?
    ensures var k := FirstWithId(AllTasks(file), id).value;
      var t := AllTasks(file)[k];
      var after := AllTasks(Related(file, id, parent, dependsOn).value);
      |after| == |AllTasks(file)| && after[k].tags == NewTags(t.tags, parent, dependsOn)
      && Consistent(after[k]) && after[k].section == t.section && after[k].id == id
      && (forall j :: 0 <= j < |after| && j != k ==> after[j] == AllTasks(file)[j])
  {
    var k := RelatedAccepted(file, id, parent, dependsOn);
  }
}
