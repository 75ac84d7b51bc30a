/** Tasks, their tags and reserved tags, and status derivation
    (src/core/task.ts). */
module Tasks {
  import opened Wrappers
  import opened JsString

  datatype Status = Backlog | InProgress | Done | Canceled

  datatype Section = BacklogSection | DoneSection

  /** What the reserved tags of a task say. */
  datatype Reserved = Reserved(
    priority: Option<nat>,
    project: Option<string>,
    parentId: Option<string>,
    dependsOn: seq<string>,
    inProgress: bool,
    canceled: bool,
    refined: bool)

  datatype Task = Task(
    id: string,
    title: string,
    tags: seq<string>,
    reserved: Reserved,
    status: Status,
    content: string,
    section: Section)

  datatype SimblFile = SimblFile(backlog: seq<Task>, done: seq<Task>, preamble: Option<string>)

  /** The variants `parseTag` distinguishes. */
  datatype TagKind =
    | Priority(level: nat)
    | Project(name: string)
    | ChildOf(parent: string)
    | DependsOn(target: string)
    | InProgressTag
    | CanceledTag
    | RefinedTag
    | Custom(text: string)

  // ---- parseTag ----

  /** `/^p([1-9])$/` */
  predicate IsPriorityTag(tag: string) {
    |tag| == 2 && tag[0] == 'p' && '1' <= tag[1] <= '9'
  }

  /** The capture of `/^<prefix>(.+)$/` on `tag`. */
  function PrefixValue(tag: string, prefix: string): (r: Option<string>)
    ensures r.Some? <==> StartsWith(tag, prefix) && DotPlus(tag[|prefix|..])
    ensures r.Some? ==> tag == prefix + r.value
  {
    if StartsWith(tag, prefix) && DotPlus(tag[|prefix|..]) then Some(tag[|prefix|..]) else None
  }

  /** The tag text a variant stands for. */
  function TagText(k: TagKind): string {
    match k
    case Priority(p) => "p" + NatToString(p)
    case Project(v) => "project:" + v
    case ChildOf(v) => "child-of-" + v
    case DependsOn(v) => "depends-on-" + v
    case InProgressTag => "in-progress"
    case CanceledTag => "canceled"
    case RefinedTag => "refined"
    case Custom(t) => t
  }

  /** `parseTag`. The variant always spells the tag back, so a custom tag
      keeps its text; the order of the tests is stated by `ParseTagOrder`. */
  function ParseTag(tag: string): (r: TagKind)
    ensures TagText(r) == tag
    ensures r.Priority? ==> 1 <= r.level <= 9
  {
    if IsPriorityTag(tag) then
      var p := DigitValue(tag[1]);
      assert NatToString(p) == [DigitChar(p)];
      Priority(p)
    else if PrefixValue(tag, "project:").Some? then Project(PrefixValue(tag, "project:").value)
    else if PrefixValue(tag, "child-of-").Some? then ChildOf(PrefixValue(tag, "child-of-").value)
    else if PrefixValue(tag, "depends-on-").Some? then DependsOn(PrefixValue(tag, "depends-on-").value)
    else if tag == "in-progress" then InProgressTag
    else if tag == "canceled" then CanceledTag
    else if tag == "refined" then RefinedTag
    else Custom(tag)
  }

  /** `parseTag` yields exactly one variant, tested in a fixed order:
      priority, project, child-of, depends-on, the three literals, and
      whatever is left is custom. */
  lemma ParseTagOrder(tag: string)
    ensures ParseTag(tag).Priority? <==> IsPriorityTag(tag)
    ensures ParseTag(tag).Project? <==> !IsPriorityTag(tag) && PrefixValue(tag, "project:").Some?
    ensures ParseTag(tag).ChildOf? <==> !IsPriorityTag(tag) && PrefixValue(tag, "project:").None?
                                        && PrefixValue(tag, "child-of-").Some?
    ensures ParseTag(tag).DependsOn? <==> !IsPriorityTag(tag) && PrefixValue(tag, "project:").None?
                                          && PrefixValue(tag, "child-of-").None?
                                          && PrefixValue(tag, "depends-on-").Some?
    ensures ParseTag(tag).Custom? <==> !IsPriorityTag(tag) && PrefixValue(tag, "project:").None?
                                       && PrefixValue(tag, "child-of-").None?
                                       && PrefixValue(tag, "depends-on-").None?
                                       && tag != "in-progress" && tag != "canceled" && tag != "refined"
  {
  }

  /** The three literal tags are recognised as such, and only they. */
  lemma LiteralTags(tag: string)
    ensures ParseTag(tag) == InProgressTag <==> tag == "in-progress"
    ensures ParseTag(tag) == CanceledTag <==> tag == "canceled"
    ensures ParseTag(tag) == RefinedTag <==> tag == "refined"
  {
    if tag == "in-progress" || tag == "canceled" || tag == "refined" {
      assert !IsPriorityTag(tag);
      assert tag[0] != 'p' && tag[0] != 'd' && tag[1] != 'h';
    }
  }

  /** Only a single digit 1-9 makes a priority: `p0` and `p10` are custom. */
  lemma PriorityIsOneDigit()
    ensures ParseTag("p1") == Priority(1) && ParseTag("p9") == Priority(9)
    ensures ParseTag("p0") == Custom("p0") && ParseTag("p10") == Custom("p10")
  {
    assert PrefixValue("p0", "project:").None? && PrefixValue("p0", "child-of-").None?;
    assert PrefixValue("p0", "depends-on-").None?;
    assert PrefixValue("p10", "project:").None? && PrefixValue("p10", "child-of-").None?;
    assert PrefixValue("p10", "depends-on-").None?;
  }

  // ---- parseReservedTags ----

  const NoReserved := Reserved(None, None, None, [], false, false, false)

  /** The effect of one parsed tag on the reserved record (one case of the
      `switch` in `parseReservedTags`). */
  function Absorb(r: Reserved, k: TagKind): Reserved {
    match k
    case Priority(p) => r.(priority := Some(p))
    case Project(v) => r.(project := Some(v))
    case ChildOf(v) => r.(parentId := Some(v))
    case DependsOn(v) => r.(dependsOn := r.dependsOn + [v])
    case InProgressTag => r.(inProgress := true)
    case CanceledTag => r.(canceled := true)
    case RefinedTag => r.(refined := true)
    case Custom(_) => r
  }

  /** The parsed variant of every tag. */
  function Kinds(tags: seq<string>): (ks: seq<TagKind>)
    ensures |ks| == |tags| && forall j :: 0 <= j < |tags| ==> ks[j] == ParseTag(tags[j])
  {
    seq(|tags|, j requires 0 <= j < |tags| => ParseTag(tags[j]))
  }

  /** The reserved record the variants `ks` build, in order. */
  function Collect(ks: seq<TagKind>): Reserved {
    if ks == [] then NoReserved else Absorb(Collect(ks[..|ks| - 1]), ks[|ks| - 1])
  }

  /** What `parseReservedTags(tags)` returns; the lemmas below say what it
      means field by field. */
  function ReservedOf(tags: seq<string>): Reserved {
    Collect(Kinds(tags))
  }

  /** `parseReservedTags` */
  method ParseReservedTags(tags: seq<string>) returns (reserved: Reserved)
    ensures reserved == ReservedOf(tags)
  {
    ghost var ks := Kinds(tags);
    reserved := NoReserved;
    var i := 0;
    while i < |tags|
      invariant 0 <= i <= |tags|
      invariant reserved == Collect(ks[..i])
    {
      assert ks[..i + 1][..i] == ks[..i];
      var parsed := ParseTag(tags[i]);
      match parsed {
        case Priority(p) => reserved := reserved.(priority := Some(p));
        case Project(v) => reserved := reserved.(project := Some(v));
        case ChildOf(v) => reserved := reserved.(parentId := Some(v));
        case DependsOn(v) => reserved := reserved.(dependsOn := reserved.dependsOn + [v]);
        case InProgressTag => reserved := reserved.(inProgress := true);
        case CanceledTag => reserved := reserved.(canceled := true);
        case RefinedTag => reserved := reserved.(refined := true);
        case Custom(_) =>
      }
      i := i + 1;
    }
    assert ks[..i] == ks;
  }

  /** Appending one tag: what changes is exactly that tag's contribution, so
      that a custom tag changes nothing. */
  lemma ReservedOfAppend(tags: seq<string>, t: string)
    ensures ReservedOf(tags + [t]) == Absorb(ReservedOf(tags), ParseTag(t))
  {
    var ks := Kinds(tags + [t]);
    assert ks[..|tags|] == Kinds(tags);
  }

  /** The variants before the last one build the record the last one is absorbed into. */
  lemma CollectSplit(ks: seq<TagKind>)
    requires ks != []
    ensures var r, k := Collect(ks[..|ks| - 1]), ks[|ks| - 1];
      && Collect(ks).priority == (if k.Priority? then Some(k.level) else r.priority)
      && Collect(ks).project == (if k.Project? then Some(k.name) else r.project)
      && Collect(ks).parentId == (if k.ChildOf? then Some(k.parent) else r.parentId)
    ensures forall j :: 0 <= j < |ks| - 1 ==> ks[..|ks| - 1][j] == ks[j]
  {
    var r, k := Collect(ks[..|ks| - 1]), ks[|ks| - 1];
    AbsorbFields(r, k);
  }

  /** Field by field, what absorbing one variant changes. */
  lemma AbsorbFields(r: Reserved, k: TagKind)
    ensures Absorb(r, k).priority == (if k.Priority? then Some(k.level) else r.priority)
    ensures Absorb(r, k).project == (if k.Project? then Some(k.name) else r.project)
    ensures Absorb(r, k).parentId == (if k.ChildOf? then Some(k.parent) else r.parentId)
  {
  }

  /** Over variants: the priority comes from the last priority variant. */
  lemma {:induction false} CollectPriority(ks: seq<TagKind>)
    ensures Collect(ks).priority.None? <==> forall j :: 0 <= j < |ks| ==> !ks[j].Priority?
    ensures Collect(ks).priority.Some? ==>
      exists j :: 0 <= j < |ks| && ks[j] == Priority(Collect(ks).priority.value)
               && forall i :: j < i < |ks| ==> !ks[i].Priority?
  {
    if ks != [] {
      var n := |ks| - 1;
      var init := ks[..n];
      CollectSplit(ks);
      CollectPriority(init);
      if ks[n].Priority? {
        assert Collect(ks).priority == Some(ks[n].level);
        assert ks[n] == Priority(Collect(ks).priority.value);
      } else {
        assert Collect(ks).priority == Collect(init).priority;
        if Collect(init).priority.Some? {
          var j :| 0 <= j < n && init[j] == Priority(Collect(init).priority.value)
                   && forall i :: j < i < n ==> !init[i].Priority?;
          assert ks[j] == init[j];
        }
      }
    }
  }

  /** Over variants: the project comes from the last project variant. */
  lemma {:induction false} CollectProject(ks: seq<TagKind>)
    ensures Collect(ks).project.None? <==> forall j :: 0 <= j < |ks| ==> !ks[j].Project?
    ensures Collect(ks).project.Some? ==>
      exists j :: 0 <= j < |ks| && ks[j] == Project(Collect(ks).project.value)
               && forall i :: j < i < |ks| ==> !ks[i].Project?
  {
    if ks != [] {
      var n := |ks| - 1;
      var init := ks[..n];
      CollectSplit(ks);
      CollectProject(init);
      if ks[n].Project? {
        assert Collect(ks).project == Some(ks[n].name);
        assert ks[n] == Project(Collect(ks).project.value);
      } else {
        assert Collect(ks).project == Collect(init).project;
        if Collect(init).project.Some? {
          var j :| 0 <= j < n && init[j] == Project(Collect(init).project.value)
                   && forall i :: j < i < n ==> !init[i].Project?;
          assert ks[j] == init[j];
        }
      }
    }
  }

  /** Over variants: the parent comes from the last child-of variant. */
  lemma {:induction false} CollectParent(ks: seq<TagKind>)
    ensures Collect(ks).parentId.None? <==> forall j :: 0 <= j < |ks| ==> !ks[j].ChildOf?
    ensures Collect(ks).parentId.Some? ==>
      exists j :: 0 <= j < |ks| && ks[j] == ChildOf(Collect(ks).parentId.value)
               && forall i :: j < i < |ks| ==> !ks[i].ChildOf?
  {
    if ks != [] {
      var n := |ks| - 1;
      var init := ks[..n];
      CollectSplit(ks);
      CollectParent(init);
      if ks[n].ChildOf? {
        assert Collect(ks).parentId == Some(ks[n].parent);
        assert ks[n] == ChildOf(Collect(ks).parentId.value);
      } else {
        assert Collect(ks).parentId == Collect(init).parentId;
        if Collect(init).parentId.Some? {
          var j :| 0 <= j < n && init[j] == ChildOf(Collect(init).parentId.value)
                   && forall i :: j < i < n ==> !init[i].ChildOf?;
          assert ks[j] == init[j];
        }
      }
    }
  }

  /** Over variants: a flag holds iff its variant occurs. */
  lemma {:induction false} CollectFlags(ks: seq<TagKind>)
    ensures Collect(ks).inProgress <==> InProgressTag in ks
    ensures Collect(ks).canceled <==> CanceledTag in ks
    ensures Collect(ks).refined <==> RefinedTag in ks
  {
    if ks != [] {
      var n := |ks| - 1;
      CollectFlags(ks[..n]);
      assert ks == ks[..n] + [ks[n]];
    }
  }

  /** The depends-on values of the variants `ks`, in order, duplicates kept. */
  function Targets(ks: seq<TagKind>): seq<string> {
    if ks == [] then []
    else if ks[|ks| - 1].DependsOn? then Targets(ks[..|ks| - 1]) + [ks[|ks| - 1].target]
    else Targets(ks[..|ks| - 1])
  }

  /** Over variants: dependencies are the depends-on values, concatenated in
      order; a value is listed iff some variant carries it. */
  lemma {:induction false} CollectTargets(ks: seq<TagKind>)
    ensures Collect(ks).dependsOn == Targets(ks)
    ensures forall x :: x in Targets(ks) <==> DependsOn(x) in ks
  {
    if ks != [] {
      var n := |ks| - 1;
      CollectTargets(ks[..n]);
      assert ks == ks[..n] + [ks[n]];
    }
  }

  lemma {:induction false} TargetsConcat(a: seq<TagKind>, b: seq<TagKind>)
    decreases |b|
    ensures Targets(a + b) == Targets(a) + Targets(b)
  {
    if b == [] {
      assert a + b == a;
    } else {
      var n := |b| - 1;
      TargetsConcat(a, b[..n]);
      assert (a + b)[..|a + b| - 1] == a + b[..n];
      assert (a + b)[|a + b| - 1] == b[n];
    }
  }

  /** The priority of a tag list is that of its last priority tag, absent iff
      there is none, and always 1..9. */
  lemma PriorityIsLast(tags: seq<string>)
    ensures ReservedOf(tags).priority.None? <==> forall j :: 0 <= j < |tags| ==> !ParseTag(tags[j]).Priority?
    ensures ReservedOf(tags).priority.Some? ==>
      exists j :: 0 <= j < |tags| && ParseTag(tags[j]) == Priority(ReservedOf(tags).priority.value)
               && forall i :: j < i < |tags| ==> !ParseTag(tags[i]).Priority?
    ensures ReservedOf(tags).priority.Some? ==> 1 <= ReservedOf(tags).priority.value <= 9
  {
    CollectPriority(Kinds(tags));
  }

  /** The project of a tag list is that of its last `project:` tag, absent
      iff there is none. */
  lemma ProjectIsLast(tags: seq<string>)
    ensures ReservedOf(tags).project.None? <==> forall j :: 0 <= j < |tags| ==> !ParseTag(tags[j]).Project?
    ensures ReservedOf(tags).project.Some? ==>
      exists j :: 0 <= j < |tags| && ParseTag(tags[j]) == Project(ReservedOf(tags).project.value)
               && forall i :: j < i < |tags| ==> !ParseTag(tags[i]).Project?
  {
    CollectProject(Kinds(tags));
  }

  /** The parent of a tag list is that of its last `child-of-` tag, absent iff
      there is none. */
  lemma ParentIsLast(tags: seq<string>)
    ensures ReservedOf(tags).parentId.None? <==> forall j :: 0 <= j < |tags| ==> !ParseTag(tags[j]).ChildOf?
    ensures ReservedOf(tags).parentId.Some? ==>
      exists j :: 0 <= j < |tags| && ParseTag(tags[j]) == ChildOf(ReservedOf(tags).parentId.value)
               && forall i :: j < i < |tags| ==> !ParseTag(tags[i]).ChildOf?
  {
    CollectParent(Kinds(tags));
  }

  /** Each flag holds iff its literal tag occurs, however often. */
  lemma FlagsOf(tags: seq<string>)
    ensures ReservedOf(tags).inProgress <==> "in-progress" in tags
    ensures ReservedOf(tags).canceled <==> "canceled" in tags
    ensures ReservedOf(tags).refined <==> "refined" in tags
  {
    var ks := Kinds(tags);
    CollectFlags(ks);
    forall j | 0 <= j < |tags| {
      LiteralTags(tags[j]);
    }
    assert InProgressTag in ks <==> exists j :: 0 <= j < |tags| && ks[j] == InProgressTag;
    assert CanceledTag in ks <==> exists j :: 0 <= j < |tags| && ks[j] == CanceledTag;
    assert RefinedTag in ks <==> exists j :: 0 <= j < |tags| && ks[j] == RefinedTag;
  }

  lemma KindsConcat(tags: seq<string>, more: seq<string>)
    ensures Kinds(tags + more) == Kinds(tags) + Kinds(more)
  {
    var a, b, c := Kinds(tags), Kinds(more), Kinds(tags + more);
    forall j | 0 <= j < |c|
      ensures c[j] == (a + b)[j]
    {
      if j < |tags| {
        assert (tags + more)[j] == tags[j];
      } else {
        assert (tags + more)[j] == more[j - |tags|];
      }
    }
  }

  /** `dependsOn` lists the depends-on values in tag order, duplicates kept:
      it distributes over concatenation. */
  lemma DependsOnConcat(tags: seq<string>, more: seq<string>)
    ensures ReservedOf(tags + more).dependsOn == ReservedOf(tags).dependsOn + ReservedOf(more).dependsOn
  {
    CollectTargets(Kinds(tags));
    CollectTargets(Kinds(more));
    CollectTargets(Kinds(tags + more));
    KindsConcat(tags, more);
    TargetsConcat(Kinds(tags), Kinds(more));
  }

  /** A value is a dependency iff some tag is its depends-on tag. */
  lemma DependsOnMembers(tags: seq<string>, x: string)
    ensures x in ReservedOf(tags).dependsOn <==> exists j :: 0 <= j < |tags| && ParseTag(tags[j]) == DependsOn(x)
  {
    var ks := Kinds(tags);
    CollectTargets(ks);
    assert DependsOn(x) in ks <==> exists j :: 0 <= j < |tags| && ks[j] == DependsOn(x);
  }

  /** The empty tag list gives no dependencies, no flags, no optional field. */
  lemma NoTags()
    ensures ReservedOf([]) == NoReserved
  {
    assert Kinds([]) == [];
  }

  /** `["p2", "p1"]` gives priority 1. */
  lemma LastPriorityWins()
    ensures ReservedOf(["p2", "p1"]).priority == Some(1)
  {
    ReservedOfAppend(["p2"], "p1");
    assert ["p2"] + ["p1"] == ["p2", "p1"];
    assert ParseTag("p1") == Priority(1);
  }

  // ---- deriveStatus ----

  /** `deriveStatus`: canceled wins over everything, then the done section,
      then the in-progress tag. */
  function DeriveStatus(section: Section, reserved: Reserved): (s: Status)
    ensures s == Canceled <==> reserved.canceled
    ensures s == Done <==> !reserved.canceled && section == DoneSection
    ensures s == InProgress <==> !reserved.canceled && section == BacklogSection && reserved.inProgress
    ensures s == Backlog <==> !reserved.canceled && section == BacklogSection && !reserved.inProgress
  {
    if reserved.canceled then Canceled
    else if section.DoneSection? then Done
    else if reserved.inProgress then InProgress
    else Backlog
  }

  /** A task whose reserved record and status agree with its tags and section,
      as every parsed task does. */
  predicate Consistent(t: Task) {
    t.reserved == ReservedOf(t.tags) && t.status == DeriveStatus(t.section, t.reserved)
  }

  // ---- parseTagLine / formatTagLine ----

  /** Number of characters other than `]` at the start of `s`. */
  function OpenRun(s: string): (n: nat)
    ensures n <= |s| && (n == |s| || s[n] == ']')
  {
    if s != [] && s[0] != ']' then 1 + OpenRun(s[1..]) else 0
  }

  /** No `]` comes before the end of the run. */
  lemma {:induction false} OpenRunClean(s: string)
    ensures forall k :: 0 <= k < OpenRun(s) ==> s[k] != ']'
    decreases |s|
  {
    if s != [] && s[0] != ']' {
      OpenRunClean(s[1..]);
      forall k | 1 <= k < OpenRun(s) ensures s[k] != ']' {
        assert s[k] == s[1..][k - 1];
      }
    }
  }

  /** `/\[([^\]]+)\]/` matches at the start of `s`: a `[`, at least one
      character other than `]`, then `]`. The capture is everything up to
      the first `]` (it may contain `[`). */
  predicate MatchHere(s: string) {
    |s| > 0 && s[0] == '[' && 1 <= OpenRun(s[1..]) < |s| - 1
  }

  /** The tags of a tag line: the captures of the global regular expression,
      left to right, each match resuming after the previous one. */
  function TagsIn(s: string): (r: seq<string>)
    decreases |s|
  {
    if s == [] then []
    else if MatchHere(s) then
      var n := OpenRun(s[1..]);
      [s[1..n + 1]] + TagsIn(s[n + 2..])
    else TagsIn(s[1..])
  }

  /** Every capture is non-empty and holds no `]`. */
  lemma {:induction false} TagsInClean(s: string)
    ensures forall k :: 0 <= k < |TagsIn(s)| ==> TagsIn(s)[k] != [] && ']' !in TagsIn(s)[k]
    decreases |s|
  {
    if s != [] {
      if MatchHere(s) {
        var n := OpenRun(s[1..]);
        OpenRunClean(s[1..]);
        TagsInClean(s[n + 2..]);
        var t := s[1..n + 1];
        forall k | 0 <= k < |t| ensures t[k] != ']' {
          assert t[k] == s[1..][k];
        }
        assert TagsIn(s) == [t] + TagsIn(s[n + 2..]);
      } else {
        TagsInClean(s[1..]);
      }
    }
  }

  /** `regex.exec(line)` with `lastIndex == from`: the bounds `[start, end)`
      of the leftmost match at or after `from`. */
  function Exec(line: string, from: nat): (m: Option<(nat, nat)>)
    requires from <= |line|
    decreases |line| - from
    ensures m.Some? ==> from <= m.value.0 && m.value.0 + 3 <= m.value.1 <= |line|
  {
    if from == |line| then None
    else if MatchHere(line[from..]) then Some((from, from + OpenRun(line[from + 1..]) + 2))
    else Exec(line, from + 1)
  }

  /** The tags the matches from `from` onwards capture, found through `Exec`. */
  function ExecRest(line: string, m: Option<(nat, nat)>): seq<string>
    requires m.Some? ==> m.value.0 + 3 <= m.value.1 <= |line|
  {
    match m
    case None => []
    case Some((a, b)) => [line[a + 1..b - 1]] + TagsIn(line[b..])
  }

  lemma {:induction false} ExecTags(line: string, from: nat)
    requires from <= |line|
    decreases |line| - from
    ensures TagsIn(line[from..]) == ExecRest(line, Exec(line, from))
  {
    if from < |line| {
      if MatchHere(line[from..]) {
        ExecMatch(line, from);
        var b := from + OpenRun(line[from + 1..]) + 2;
        ExecRestSome(line, from, b);
      } else {
        ExecSkip(line, from);
        ExecTags(line, from + 1);
      }
    } else {
      assert line[from..] == [];
    }
  }

  lemma ExecRestSome(line: string, a: nat, b: nat)
    requires a + 3 <= b <= |line|
    ensures ExecRest(line, Some((a, b))) == [line[a + 1..b - 1]] + TagsIn(line[b..])
  {
  }

  /** A match at `from`: `Exec` stops there and `TagsIn` captures it. */
  lemma ExecMatch(line: string, from: nat)
    requires from < |line| && MatchHere(line[from..])
    ensures var b := from + OpenRun(line[from + 1..]) + 2;
      Exec(line, from) == Some((from, b))
      && TagsIn(line[from..]) == [line[from + 1..b - 1]] + TagsIn(line[b..])
  {
    var s := line[from..];
    assert s[1..] == line[from + 1..];
    var n := OpenRun(s[1..]);
    assert s[1..n + 1] == line[from + 1..from + n + 1];
    assert s[n + 2..] == line[from + n + 2..];
  }

  /** No match at `from`: both move on by one character. */
  lemma ExecSkip(line: string, from: nat)
    requires from < |line| && !MatchHere(line[from..])
    ensures Exec(line, from) == Exec(line, from + 1)
    ensures TagsIn(line[from..]) == TagsIn(line[from + 1..])
  {
    assert line[from..][1..] == line[from + 1..];
  }

  /** `parseTagLine` */
  method ParseTagLine(line: string) returns (tags: seq<string>)
    ensures tags == TagsIn(line)
  {
    tags := [];
    var lastIndex := 0;
    var m := Exec(line, lastIndex);
    assert line[0..] == line;
    while m.Some?
      invariant lastIndex <= |line|
      invariant m == Exec(line, lastIndex)
      invariant tags + TagsIn(line[lastIndex..]) == TagsIn(line)
      decreases |line| - lastIndex
    {
      var (a, b) := m.value;
      ExecTags(line, lastIndex);
      ExecRestSome(line, a, b);
      var tag := line[a + 1..b - 1];
      Reassociate(tags, [tag], TagsIn(line[b..]));
      tags := tags + [tag];
      lastIndex := b;
      m := Exec(line, lastIndex);
    }
    ExecTags(line, lastIndex);
    assert tags + [] == tags;
  }

  /** `formatTagLine`: each tag in brackets, side by side. */
  function FormatTagLine(tags: seq<string>): (s: string)
    ensures tags == [] ==> s == ""
    ensures tags != [] ==> |s| > 0 && s[0] == '['
  {
    if tags == [] then "" else "[" + tags[0] + "]" + FormatTagLine(tags[1..])
  }

  /** A tag that survives a tag line: non-empty and without `]`. */
  predicate Formattable(t: string) {
    t != [] && ']' !in t
  }

  lemma OpenRunOf(t: string, rest: string)
    requires ']' !in t
    ensures OpenRun(t + "]" + rest) == |t|
  {
    if t != [] {
      assert (t + "]" + rest)[1..] == t[1..] + "]" + rest;
      OpenRunOf(t[1..], rest);
    }
  }

  /** One bracketed tag at the front is read back, whatever follows. */
  lemma ReadBracket(t: string, rest: string)
    requires Formattable(t)
    ensures TagsIn("[" + t + "]" + rest) == [t] + TagsIn(rest)
  {
    var s := "[" + t + "]" + rest;
    assert s[1..] == t + "]" + rest;
    OpenRunOf(t, rest);
    assert s[1..|t| + 1] == t;
    assert s[|t| + 2..] == rest;
  }

  /** `parseTagLine(formatTagLine(ts)) == ts` for tags that are non-empty and
      contain no `]`. */
  lemma {:induction false} TagLineRoundTrip(tags: seq<string>)
    requires forall k :: 0 <= k < |tags| ==> Formattable(tags[k])
    ensures TagsIn(FormatTagLine(tags)) == tags
  {
    if tags != [] {
      ReadBracket(tags[0], FormatTagLine(tags[1..]));
      TagLineRoundTrip(tags[1..]);
    }
  }

  /** Text that holds no `[` is skipped, wherever it stands between tags. */
  lemma {:induction false} TextOutsideIgnored(x: string, rest: string)
    requires '[' !in x
    ensures TagsIn(x + rest) == TagsIn(rest)
  {
    if x == [] {
      assert x + rest == rest;
    } else {
      var s := x + rest;
      assert s[0] == x[0] && x[0] in x;
      assert !MatchHere(s);
      assert s[1..] == x[1..] + rest;
      assert '[' !in x[1..];
      TextOutsideIgnored(x[1..], rest);
    }
  }

  /** Two tags separated by text without brackets, as in `[p1] [design]`,
      are read as those two tags. */
  lemma TagsWithGap(a: string, gap: string, b: string)
    requires Formattable(a) && Formattable(b) && '[' !in gap
    ensures TagsIn("[" + a + "]" + gap + "[" + b + "]") == [a, b]
  {
    var tail := "[" + b + "]";
    assert "[" + a + "]" + gap + "[" + b + "]" == "[" + a + "]" + (gap + tail);
    ReadBracket(a, gap + tail);
    TextOutsideIgnored(gap, tail);
    ReadBracket(b, "");
    assert "[" + b + "]" + "" == tail;
    assert TagsIn("") == [];
  }
}
