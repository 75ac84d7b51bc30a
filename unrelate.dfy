/** `simbl unrelate`: removing a task's parent or one of its dependencies
    (src/cli/commands/unrelate.ts). */
module Unrelate {
  import opened Wrappers
  import opened Tasks
  import opened Parser
  import opened TaskGraph
  import opened Commands

  /** The tag that names the dependency `d`. */
  function DependencyTag(d: string): string {
    "depends-on-" + d
  }

  /** The tags after the edits `run` makes: every `child-of-` tag dropped
      for `--parent`, then every copy of the dependency's tag. */
  function UnrelatedTags(tags: seq<string>, parent: bool, dependsOn: Option<string>): seq<string> {
    var withoutParent := if parent then Filter(tags, NotChildOf) else tags;
    if Given(dependsOn) then Without(withoutParent, DependencyTag(dependsOn.value)) else withoutParent
  }

  /** What `run` does to the document, or the message it exits with. The
      checks read the task as it was found; `--parent` is a boolean flag. */
  function Unrelated(file: SimblFile, id: string, parent: bool, dependsOn: Option<string>): Result<SimblFile>
  {
    var all := AllTasks(file);
    if !parent && !Given(dependsOn) then
      Err("Provide --parent or --depends-on to remove a relationship.")
    else match FirstWithId(all, id)
      case None => Err("Task \"" + id + "\" not found.")
      case Some(k) =>
        var task := all[k];
        // `!task.reserved.parentId` is the same truthiness test as for a flag
        if parent && !Given(task.reserved.parentId) then
          Err("Task \"" + id + "\" has no parent.")
        else if Given(dependsOn) && dependsOn.value !in task.reserved.dependsOn then
          Err("Task \"" + id + "\" doesn't depend on \"" + dependsOn.value + "\".")
        else
          Ok(Replaced(file, k, Retagged(task, UnrelatedTags(task.tags, parent, dependsOn))))
  }

  /** `run`: on any refusal the process exits before writing, so the
      document is left as it was. */
  method Run(doc: TasksFile, id: string, parent: bool, dependsOn: Option<string>) returns (r: Result<()>)
    modifies doc
    ensures var outcome := Unrelated(old(doc.File()), id, parent, dependsOn);
      r == (if outcome.Ok? then Ok(()) else Err(outcome.error))
      && doc.File() == (if outcome.Ok? then outcome.value else old(doc.File()))
  {
    if !parent && !Given(dependsOn) {
      return Err("Provide --parent or --depends-on to remove a relationship.");
    }
    var file := doc.File();
    var allTasks := AllTasks(file);
    var position := FirstWithId(allTasks, id);
    if position.None? {
      return Err("Task \"" + id + "\" not found.");
    }
    var task := allTasks[position.value];
    var tags := task.tags;
    if parent {
      if !Given(task.reserved.parentId) {
        return Err("Task \"" + id + "\" has no parent.");
      }
      tags := Filter(tags, NotChildOf);
    }
    if Given(dependsOn) {
      var depId := dependsOn.value;
      if depId !in task.reserved.dependsOn {
        return Err("Task \"" + id + "\" doesn't depend on \"" + depId + "\".");
      }
      tags := Without(tags, DependencyTag(depId));
    }
    var reserved := ParseReservedTags(tags);
    var updated := task.(tags := tags, reserved := reserved, status := DeriveStatus(task.section, reserved));
    doc.SetTask(position.value, updated);
    r := Ok(());
  }

  // ---- properties ----

  /** `run` accepts exactly when a relationship was named, the task exists,
      it has a parent if `--parent` was given, and it depends on the named
      task if `--depends-on` was given. */
  lemma UnrelatedAccepts(file: SimblFile, id: string, parent: bool, dependsOn: Option<string>)
    ensures Unrelated(file, id, parent, dependsOn).Ok? <==>
      (parent || Given(dependsOn)) && FirstWithId(AllTasks(file), id).Some?
      && var t := AllTasks(file)[FirstWithId(AllTasks(file), id).value];
         (parent ==> Given(t.reserved.parentId))
         && (Given(dependsOn) ==> dependsOn.value in t.reserved.dependsOn)
  {
  }

  /** The tags kept are exactly the old ones other than the `child-of-` tags
      (for `--parent`) and the dependency's tag (for `--depends-on`). */
  lemma UnrelatedTagsMembers(tags: seq<string>, parent: bool, dependsOn: Option<string>)
    ensures var tags' := UnrelatedTags(tags, parent, dependsOn);
      forall u :: u in tags' <==>
        u in tags && !(parent && IsChildOfTag(u)) && !(Given(dependsOn) && u == DependencyTag(dependsOn.value))
  {
    FilterMembers(tags, NotChildOf);
    if Given(dependsOn) {
      var withoutParent := if parent then Filter(tags, NotChildOf) else tags;
      WithoutMembers(withoutParent, DependencyTag(dependsOn.value));
    }
  }

  /** The edits work tag by tag, so the tags kept stay in their order. */
  lemma UnrelatedTagsOrder(a: seq<string>, b: seq<string>, parent: bool, dependsOn: Option<string>)
    ensures UnrelatedTags(a + b, parent, dependsOn) == UnrelatedTags(a, parent, dependsOn) + UnrelatedTags(b, parent, dependsOn)
  {
    FilterConcat(a, b, NotChildOf);
    if Given(dependsOn) {
      var a', b' := if parent then Filter(a, NotChildOf) else a, if parent then Filter(b, NotChildOf) else b;
      WithoutConcat(a', b', DependencyTag(dependsOn.value));
    }
  }

  /** The reserved record after the edits: the parent is gone for
      `--parent`, the named dependency is gone for `--depends-on`, the other
      dependencies stay in order, and nothing else changes. */
  lemma UnrelatedReserved(tags: seq<string>, parent: bool, dependsOn: Option<string>)
    ensures var r := ReservedOf(tags);
      ReservedOf(UnrelatedTags(tags, parent, dependsOn)) ==
        r.(parentId := if parent then None else r.parentId,
           dependsOn := if Given(dependsOn) then Without(r.dependsOn, dependsOn.value) else r.dependsOn)
  {
    if parent {
      WithoutParentReserved(tags);
    }
    if Given(dependsOn) {
      var withoutParent := if parent then Filter(tags, NotChildOf) else tags;
      WithoutDependencyReserved(withoutParent, dependsOn.value);
    }
  }

  /** The reserved record with every copy of the dependency `d` removed. */
  function ForgetDependency(r: Reserved, d: string): Reserved {
    r.(dependsOn := Without(r.dependsOn, d))
  }

  /** Dropping every `depends-on-d` tag drops every copy of `d` from the
      dependencies and changes nothing else. */
  lemma {:induction false} WithoutDependencyReserved(tags: seq<string>, d: string)
    ensures ReservedOf(Without(tags, DependencyTag(d))) == ForgetDependency(ReservedOf(tags), d)
    decreases |tags|
  {
    if tags == [] {
      NoTags();
    } else {
      var init, t := tags[..|tags| - 1], tags[|tags| - 1];
      WithoutDependencyReserved(init, d);
      SplitLast(tags);
      WithoutPush(init, t, DependencyTag(d));
      ReservedOfAppend(init, t);
      if t == DependencyTag(d) {
        DroppedDependency(init, d);
      } else {
        KeptDependency(init, t, d);
      }
    }
  }

  /** The step of `WithoutDependencyReserved` for a tag that is removed. */
  lemma DroppedDependency(init: seq<string>, d: string)
    requires ReservedOf(Without(init, DependencyTag(d))) == ForgetDependency(ReservedOf(init), d)
    ensures ReservedOf(Without(init, DependencyTag(d)) + []) ==
      ForgetDependency(Absorb(ReservedOf(init), ParseTag(DependencyTag(d))), d)
  {
    var r := ReservedOf(init);
    AppendEmpty(Without(init, DependencyTag(d)));
    ParseDependsOn(d);
    WithoutPush(r.dependsOn, d, d);
  }

  /** The step of `WithoutDependencyReserved` for a tag that is kept. */
  lemma KeptDependency(init: seq<string>, t: string, d: string)
    requires t != DependencyTag(d)
    requires ReservedOf(Without(init, DependencyTag(d))) == ForgetDependency(ReservedOf(init), d)
    ensures ReservedOf(Without(init, DependencyTag(d)) + [t]) ==
      ForgetDependency(Absorb(ReservedOf(init), ParseTag(t)), d)
  {
    ReservedOfAppend(Without(init, DependencyTag(d)), t);
    assert TagText(DependsOn(d)) == DependencyTag(d);
    AbsorbForgetsDependency(ReservedOf(init), ParseTag(t), d);
  }

  /** Absorbing anything but the dependency `d` commutes with forgetting it. */
  lemma AbsorbForgetsDependency(r: Reserved, k: TagKind, d: string)
    requires k != DependsOn(d)
    ensures Absorb(ForgetDependency(r, d), k) == ForgetDependency(Absorb(r, k), d)
  {
    if k.DependsOn? {
      WithoutPush(r.dependsOn, k.target, d);
    }
  }

  /** Unrelating only removes edges, so an acyclic graph stays acyclic, for
      tasks whose reserved records agree with their tags. */
  lemma UnrelateKeepsAcyclic(file: SimblFile, id: string, parent: bool, dependsOn: Option<string>)
    requires forall t :: t in AllTasks(file) ==> Consistent(t)
    requires Acyclic(Edges(AllTasks(file)))
    requires Unrelated(file, id, parent, dependsOn).Ok?
    ensures Acyclic(Edges(AllTasks(Unrelated(file, id, parent, dependsOn).value)))
  {
    var all := AllTasks(file);
    var k := UnrelatedAccepted(file, id, parent, dependsOn);
    var t' := Retagged(all[k], UnrelatedTags(all[k].tags, parent, dependsOn));
    FewerSuccessors(all[k], parent, dependsOn);
    RetaggedEdges(all, k, t', {});
    GrowsAcyclic(Edges(all), Edges(all[k := t']), id, {});
  }

  /** An accepted edit retags the first task with `id`. */
  lemma UnrelatedAccepted(file: SimblFile, id: string, parent: bool, dependsOn: Option<string>) returns (k: nat)
    requires Unrelated(file, id, parent, dependsOn).Ok?
    ensures FirstWithId(AllTasks(file), id) == Some(k) && k < |AllTasks(file)|
    ensures var t := AllTasks(file)[k];
      Unrelated(file, id, parent, dependsOn).value == Replaced(file, k, Retagged(t, UnrelatedTags(t.tags, parent, dependsOn)))
  {
    k := FirstWithId(AllTasks(file), id).value;
  }

  /** The retagged task's successors are among its old ones. */
  lemma FewerSuccessors(t: Task, parent: bool, dependsOn: Option<string>)
    requires Consistent(t)
    ensures var t' := Retagged(t, UnrelatedTags(t.tags, parent, dependsOn));
      forall y :: y in ParentEdge(t') + t'.reserved.dependsOn ==> y in ParentEdge(t) + t.reserved.dependsOn
  {
    UnrelatedReserved(t.tags, parent, dependsOn);
    var deps := t.reserved.dependsOn;
    if Given(dependsOn) {
      WithoutMembers(deps, dependsOn.value);
    }
  }
}
