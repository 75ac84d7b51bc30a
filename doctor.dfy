/** `simbl doctor`: the structural checks of `tasks.md` and the search for
    circular parent and dependency chains (src/cli/commands/doctor.ts). */
module Doctor {
  import opened Wrappers
  import opened JsString
  import opened Tasks
  import opened Parser
  import opened TaskGraph
  import opened TaskIds
  import opened Commands

  // ---- findCircularDependencies ----

  /** The depth-first search keeps, with `cycles` still empty, a finishing
      order: every visited id no longer on the recursion stack has a rank,
      and its successors are finished too, with smaller ranks. */
  ghost predicate Ranked(g: Graph, visited: set<string>, stack: set<string>, rank: map<string, nat>) {
    (forall v :: v in visited && v !in stack ==> v in rank)
    && (forall v, y :: v in visited && v !in stack && (v, y) in g ==>
          y in visited && y !in stack && y in rank && v in rank && rank[y] < rank[v])
  }

  /** `deps` in `dfs`: the dependencies, then the parent when there is one. */
  function DfsDeps(t: Task): (deps: seq<string>)
    ensures forall y :: y in deps <==> y in ParentEdge(t) + t.reserved.dependsOn
  {
    t.reserved.dependsOn + if t.reserved.parentId.Some? && t.reserved.parentId.value != "" then [t.reserved.parentId.value] else []
  }

  /** `dfs(taskId, path)`; `stack` is `recursionStack`, which holds exactly
      the ids of `path` on entry and is restored on exit. The ghost `rank`
      and `clock` record the order in which ids finish. */
  method Dfs(ts: seq<Task>, x: string, path: seq<string>, stack: set<string>, visited: set<string>,
             cycles: seq<seq<string>>, ghost rank: map<string, nat>, ghost clock: nat)
    returns (visited': set<string>, cycles': seq<seq<string>>, ghost rank': map<string, nat>, ghost clock': nat)
    requires forall v :: v in stack <==> v in path
    requires stack <= visited && IsPath(Edges(ts), path + [x])
    requires forall c :: c in cycles ==> IsCycle(Edges(ts), c)
    requires cycles == [] ==> Ranked(Edges(ts), visited, stack, rank)
    requires forall v :: v in rank ==> rank[v] < clock
    decreases |Ids(ts) - visited|, 2
    ensures visited <= visited' && x in visited' && cycles <= cycles'
    ensures forall c :: c in cycles' ==> IsCycle(Edges(ts), c)
    ensures cycles' == [] ==> x !in stack && Ranked(Edges(ts), visited', stack, rank')
    ensures forall v :: v in rank' ==> rank'[v] < clock'
  {
    if x in stack {
      var start := FirstIndex(path, x);
      CycleAt(Edges(ts), path, x, start);
      return visited, cycles + [path[start..] + [x]], rank, clock;
    }
    if x in visited {
      return visited, cycles, rank, clock;
    }
    visited' := visited + {x};
    cycles' := cycles;
    rank', clock' := rank, clock;
    if cycles == [] {
      Mark(Edges(ts), visited, stack, rank, x);
    }
    var task := Lookup(ts, x);
    if task.Some? {
      LookupIds(ts, x);
      visited', cycles', rank', clock' := Explore(ts, x, task.value, path, stack, visited', cycles', rank', clock', visited);
    }
    if cycles' == [] {
      Finish(Edges(ts), visited', stack, rank', clock', x);
    }
    rank', clock' := rank'[x := clock'], clock' + 1;
  }

  /** The loop of `dfs` over the successors of `x`, whose task is `t`;
      `before` is the visited set from before `x` was marked. */
  method Explore(ts: seq<Task>, x: string, t: Task, path: seq<string>, stack: set<string>, visited: set<string>,
                 cycles: seq<seq<string>>, ghost rank: map<string, nat>, ghost clock: nat, ghost before: set<string>)
    returns (visited': set<string>, cycles': seq<seq<string>>, ghost rank': map<string, nat>, ghost clock': nat)
    requires Lookup(ts, x) == Some(t) && x in Ids(ts) && x !in before && before + {x} <= visited
    requires forall v :: v in stack <==> v in path
    requires x !in stack && stack + {x} <= visited && IsPath(Edges(ts), path + [x])
    requires forall c :: c in cycles ==> IsCycle(Edges(ts), c)
    requires cycles == [] ==> Ranked(Edges(ts), visited, stack + {x}, rank)
    requires forall v :: v in rank ==> rank[v] < clock
    decreases |Ids(ts) - before|, 1
    ensures visited <= visited' && cycles <= cycles'
    ensures forall c :: c in cycles' ==> IsCycle(Edges(ts), c)
    ensures cycles' == [] ==> Ranked(Edges(ts), visited', stack + {x}, rank')
    ensures cycles' == [] ==> forall y :: (x, y) in Edges(ts) ==> y in visited' && y !in stack + {x}
    ensures forall v :: v in rank' ==> rank'[v] < clock'
  {
    var deps := DfsDeps(t);
    visited', cycles', rank', clock' := visited, cycles, rank, clock;
    var i := 0;
    while i < |deps|
      invariant 0 <= i <= |deps|
      invariant visited <= visited' && cycles <= cycles'
      invariant forall c :: c in cycles' ==> IsCycle(Edges(ts), c)
      invariant cycles' == [] ==> Ranked(Edges(ts), visited', stack + {x}, rank')
      invariant cycles' == [] ==> forall j :: 0 <= j < i ==> deps[j] in visited' && deps[j] !in stack + {x}
      invariant forall v :: v in rank' ==> rank'[v] < clock'
    {
      assert (x, deps[i]) in Edges(ts);
      visited', cycles', rank', clock' := Step(ts, x, deps, i, path, stack, visited', cycles', rank', clock', before);
      i := i + 1;
    }
    if cycles' == [] {
      forall y | (x, y) in Edges(ts) ensures y in visited' && y !in stack + {x} {
        assert y in deps;
      }
    }
  }

  /** One round of the loop of `dfs`: the search from the `i`-th successor
      `deps[i]` of `x`. */
  method Step(ts: seq<Task>, x: string, deps: seq<string>, i: nat, path: seq<string>, stack: set<string>,
              visited: set<string>, cycles: seq<seq<string>>, ghost rank: map<string, nat>, ghost clock: nat,
              ghost before: set<string>)
    returns (visited': set<string>, cycles': seq<seq<string>>, ghost rank': map<string, nat>, ghost clock': nat)
    requires i < |deps| && (x, deps[i]) in Edges(ts)
    requires x in Ids(ts) && x !in before && before + {x} <= visited
    requires forall v :: v in stack <==> v in path
    requires x !in stack && stack + {x} <= visited && IsPath(Edges(ts), path + [x])
    requires forall c :: c in cycles ==> IsCycle(Edges(ts), c)
    requires cycles == [] ==> Ranked(Edges(ts), visited, stack + {x}, rank)
    requires cycles == [] ==> forall j :: 0 <= j < i ==> deps[j] in visited && deps[j] !in stack + {x}
    requires forall v :: v in rank ==> rank[v] < clock
    decreases |Ids(ts) - before|, 0
    ensures visited <= visited' && cycles <= cycles'
    ensures forall c :: c in cycles' ==> IsCycle(Edges(ts), c)
    ensures cycles' == [] ==> Ranked(Edges(ts), visited', stack + {x}, rank')
    ensures cycles' == [] ==> forall j :: 0 <= j < i + 1 ==> deps[j] in visited' && deps[j] !in stack + {x}
    ensures forall v :: v in rank' ==> rank'[v] < clock'
  {
    MarkShrinks(Ids(ts), before, visited, x);
    PathSnoc(Edges(ts), path + [x], deps[i]);
    assert forall v :: v in stack + {x} <==> v in path + [x];
    visited', cycles', rank', clock' := Dfs(ts, deps[i], path + [x], stack + {x}, visited, cycles, rank, clock);
    if cycles' == [] {
      assert cycles == [];
      assert deps[i] in visited' && deps[i] !in stack + {x};
      forall j | 0 <= j < i + 1 ensures deps[j] in visited' && deps[j] !in stack + {x} {
        if j < i {
          assert deps[j] in visited;
        } else {
          assert j == i;
        }
      }
    }
  }

  /** Marking an unvisited id and pushing it keeps the finished part ranked. */
  lemma Mark(g: Graph, visited: set<string>, stack: set<string>, rank: map<string, nat>, x: string)
    requires x !in visited && Ranked(g, visited, stack, rank)
    ensures Ranked(g, visited + {x}, stack + {x}, rank)
  {
  }

  /** Popping `x` once all its successors are finished gives it the next
      rank. */
  lemma Finish(g: Graph, visited: set<string>, stack: set<string>, rank: map<string, nat>, clock: nat, x: string)
    requires x in visited && Ranked(g, visited, stack + {x}, rank)
    requires forall y :: (x, y) in g ==> y in visited && y !in stack + {x}
    requires forall v :: v in rank ==> rank[v] < clock
    ensures Ranked(g, visited, stack - {x}, rank[x := clock])
  {
  }

  /** `findCircularDependencies(tasks)`: every cycle it reports is a walk
      along parent and dependency edges that returns to its start, and it
      reports one exactly when such a walk exists. */
  method FindCircularDependencies(ts: seq<Task>) returns (cycles: seq<seq<string>>)
    ensures forall c :: c in cycles ==> IsCycle(Edges(ts), c)
    ensures cycles == [] <==> Acyclic(Edges(ts))
  {
    var visited: set<string> := {};
    cycles := [];
    ghost var rank: map<string, nat> := map[];
    ghost var clock: nat := 0;
    for i := 0 to |ts|
      invariant forall j :: 0 <= j < i ==> ts[j].id in visited
      invariant forall c :: c in cycles ==> IsCycle(Edges(ts), c)
      invariant cycles == [] ==> Ranked(Edges(ts), visited, {}, rank)
      invariant forall v :: v in rank ==> rank[v] < clock
    {
      if ts[i].id !in visited {
        assert IsPath(Edges(ts), [] + [ts[i].id]);
        visited, cycles, rank, clock := Dfs(ts, ts[i].id, [], {}, visited, cycles, rank, clock);
      }
    }
    if cycles == [] {
      forall x, y | (x, y) in Edges(ts) ensures x in visited {
        EdgeSource(ts, x, y);
      }
      RankedAcyclic(Edges(ts), visited, rank);
    } else {
      assert IsCycle(Edges(ts), cycles[0]);
    }
  }

  /** A graph whose every edge leaves a finished id has no cycle: ranks fall
      strictly along every walk. */
  lemma RankedAcyclic(g: Graph, visited: set<string>, rank: map<string, nat>)
    requires Ranked(g, visited, {}, rank)
    requires forall x, y :: (x, y) in g ==> x in visited
    ensures Acyclic(g)
  {
    forall p ensures !IsCycle(g, p) {
      if IsPath(g, p) && |p| >= 2 {
        assert (p[0], p[1]) in g;
        RankFalls(g, visited, rank, p, |p| - 1);
      }
    }
  }

  lemma {:induction false} RankFalls(g: Graph, visited: set<string>, rank: map<string, nat>, p: seq<string>, i: nat)
    requires Ranked(g, visited, {}, rank) && IsPath(g, p) && p[0] in visited && 0 < i < |p|
    ensures p[i] in visited && p[0] in rank && p[i] in rank && rank[p[i]] < rank[p[0]]
  {
    assert (p[i - 1], p[i]) in g;
    if i > 1 {
      RankFalls(g, visited, rank, p, i - 1);
    }
  }

  // ---- validateTasksFile ----

  datatype Level = ErrorLevel | WarningLevel

  /** An issue of the report; `taskId` is left out for file-level issues. */
  datatype Issue = Issue(level: Level, message: string, taskId: Option<string>)

  /** The lower-cased text of a top-level depth-1 heading, from its text
      children only: inline code in an H1 does not count here. */
  function H1Text(b: Block): seq<string> {
    if b.Heading? && b.depth == 1 then [Lower(b.plain)] else []
  }

  /** The texts of the depth-1 headings, in document order. */
  function H1Texts(nodes: seq<Block>): seq<string> {
    FlatMap(nodes, H1Text)
  }

  /** The H1 texts `allowedH1` lists. */
  predicate Allowed(text: string) {
    text == "backlog" || text == "done"
  }

  const MissingBacklog := "Missing required H1 heading \"# Backlog\""
  const MissingDone := "Missing required H1 heading \"# Done\""

  function UnexpectedMessage(text: string): string {
    "Unexpected H1 heading \"# " + text + "\" - only \"Backlog\" and \"Done\" are allowed"
  }

  /** The errors for the required headings that no H1 text matches. */
  function MissingIssues(texts: seq<string>): seq<Issue> {
    (if "backlog" in texts then [] else [Issue(ErrorLevel, MissingBacklog, None)])
    + (if "done" in texts then [] else [Issue(ErrorLevel, MissingDone, None)])
  }

  /** One error per H1 text outside the allowed two, in order. */
  function UnexpectedIssues(texts: seq<string>): seq<Issue> {
    if texts == [] then []
    else
      var last := texts[|texts| - 1];
      UnexpectedIssues(texts[..|texts| - 1])
        + if Allowed(last) then [] else [Issue(ErrorLevel, UnexpectedMessage(last), None)]
  }

  function HeadingIssues(texts: seq<string>): seq<Issue> {
    MissingIssues(texts) + UnexpectedIssues(texts)
  }

  function FormatMessage(id: string, prefix: string): string {
    "Task ID \"" + id + "\" doesn't match expected format \"" + prefix + "-N\""
  }

  function DuplicateMessage(id: string): string {
    "Duplicate task ID \"" + id + "\""
  }

  function PriorityMessage(priorityTags: seq<string>): string {
    "Task has multiple priority tags: " + Join(priorityTags, ", ")
  }

  function ParentMessage(p: string): string {
    "Parent task \"" + p + "\" not found"
  }

  function DependencyMessage(d: string): string {
    "Dependency task \"" + d + "\" not found"
  }

  function CycleMessage(cycle: seq<string>): string {
    "Circular dependency detected: " + Join(cycle, " -> ")
  }

  /** The id-format warning, for an id that is not `<prefix>-<digits>`. */
  function FormatIssues(prefix: string, t: Task): seq<Issue> {
    if PrefixFormat(t.id, prefix) then [] else [Issue(WarningLevel, FormatMessage(t.id, prefix), Some(t.id))]
  }

  /** The duplicate error, for an id already in `seenIds`. */
  function DuplicateIssues(t: Task, seen: set<string>): seq<Issue> {
    if t.id in seen then [Issue(ErrorLevel, DuplicateMessage(t.id), Some(t.id))] else []
  }

  /** The error for more than one tag matching `^p[1-9]$`. */
  function PriorityIssues(t: Task): seq<Issue> {
    var priorityTags := Filter(t.tags, IsPriorityTag);
    if |priorityTags| > 1 then [Issue(ErrorLevel, PriorityMessage(priorityTags), Some(t.id))] else []
  }

  /** The warning for a parent that no task has as its id. */
  function ParentIssues(all: seq<Task>, t: Task): seq<Issue> {
    if Given(t.reserved.parentId) && t.reserved.parentId.value !in Ids(all) then
      [Issue(WarningLevel, ParentMessage(t.reserved.parentId.value), Some(t.id))]
    else []
  }

  /** One warning per dependency that no task has as its id, in order. */
  function DependencyIssues(all: seq<Task>, id: string, deps: seq<string>): seq<Issue> {
    if deps == [] then []
    else
      var last := deps[|deps| - 1];
      DependencyIssues(all, id, deps[..|deps| - 1])
        + if last in Ids(all) then [] else [Issue(WarningLevel, DependencyMessage(last), Some(id))]
  }

  /** What one round of the task loop reports about `t`, with the ids of
      the tasks before it in `seen`. */
  function TaskChecks(all: seq<Task>, prefix: string, t: Task, seen: set<string>): seq<Issue> {
    FormatIssues(prefix, t) + DuplicateIssues(t, seen) + PriorityIssues(t)
      + ParentIssues(all, t) + DependencyIssues(all, t.id, t.reserved.dependsOn)
  }

  /** What the task loop reports about the first `n` tasks. */
  function TaskIssues(all: seq<Task>, prefix: string, n: nat): seq<Issue>
    requires n <= |all|
  {
    if n == 0 then []
    else TaskIssues(all, prefix, n - 1) + TaskChecks(all, prefix, all[n - 1], Ids(all[..n - 1]))
  }

  /** One error per cycle found, in order. */
  function CycleIssues(cycles: seq<seq<string>>): seq<Issue> {
    if cycles == [] then []
    else CycleIssues(cycles[..|cycles| - 1]) + [Issue(ErrorLevel, CycleMessage(cycles[|cycles| - 1]), None)]
  }

  /** The report on a document whose tasks are `all` and whose search found
      `cycles`. */
  function Report(nodes: seq<Block>, all: seq<Task>, prefix: string, cycles: seq<seq<string>>): seq<Issue> {
    HeadingIssues(H1Texts(nodes)) + TaskIssues(all, prefix, |all|) + CycleIssues(cycles)
  }

  lemma IdsPush(ts: seq<Task>, i: nat)
    requires i < |ts|
    ensures Ids(ts[..i + 1]) == Ids(ts[..i]) + {ts[i].id}
  {
    var a, b := ts[..i + 1], ts[..i];
    forall v ensures v in Ids(a) <==> v in Ids(b) + {ts[i].id} {
      if v in Ids(a) {
        var k :| 0 <= k < |a| && a[k].id == v;
        if k < i {
          assert b[k] == a[k];
        }
      }
      if v in Ids(b) {
        var k :| 0 <= k < |b| && b[k].id == v;
        assert a[k] == b[k];
      }
      if v == ts[i].id {
        assert a[i] == ts[i];
      }
    }
  }

  /** `validateTasksFile(content, prefix)` over the blocks of `content`;
      `cycles` is what `findCircularDependencies` returned. */
  method ValidateTasksFile(render: seq<Block> -> string, nodes: seq<Block>, prefix: string)
    returns (issues: seq<Issue>, ghost cycles: seq<seq<string>>)
    ensures var all := AllTasks(ParseBlocks(render, nodes));
      issues == Report(nodes, all, prefix, cycles)
      && (forall c :: c in cycles ==> IsCycle(Edges(all), c))
      && (cycles == [] <==> Acyclic(Edges(all)))
  {
    var h1Texts := CollectH1Texts(nodes);
    issues := CheckHeadings(h1Texts);
    var file := ParseSimblFile(render, nodes);
    var allTasks := AllTasks(file);
    issues := CheckTasks(allTasks, prefix, issues);
    var found := FindCircularDependencies(allTasks);
    cycles := found;
    issues := ReportCycles(found, issues);
  }

  /** The texts of the depth-1 headings, lower-cased. */
  method CollectH1Texts(nodes: seq<Block>) returns (h1Texts: seq<string>)
    ensures h1Texts == H1Texts(nodes)
  {
    h1Texts := [];
    for i := 0 to |nodes|
      invariant h1Texts == H1Texts(nodes[..i])
    {
      FlatMapPush(nodes[..i], nodes[i], H1Text);
      assert nodes[..i + 1] == nodes[..i] + [nodes[i]];
      if nodes[i].Heading? && nodes[i].depth == 1 {
        h1Texts := h1Texts + [Lower(nodes[i].plain)];
      }
    }
    assert nodes[..|nodes|] == nodes;
  }

  /** The checks of the H1 headings. */
  method CheckHeadings(h1Texts: seq<string>) returns (issues: seq<Issue>)
    ensures issues == HeadingIssues(h1Texts)
  {
    issues := [];
    if "backlog" !in h1Texts {
      issues := issues + [Issue(ErrorLevel, MissingBacklog, None)];
    }
    if "done" !in h1Texts {
      issues := issues + [Issue(ErrorLevel, MissingDone, None)];
    }
    assert issues == MissingIssues(h1Texts);
    ghost var missing := issues;
    for i := 0 to |h1Texts|
      invariant issues == missing + UnexpectedIssues(h1Texts[..i])
    {
      UnexpectedPush(h1Texts, i);
      ghost var tail := if Allowed(h1Texts[i]) then [] else [Issue(ErrorLevel, UnexpectedMessage(h1Texts[i]), None)];
      AppendAssoc(missing, UnexpectedIssues(h1Texts[..i]), tail);
      if !Allowed(h1Texts[i]) {
        issues := issues + [Issue(ErrorLevel, UnexpectedMessage(h1Texts[i]), None)];
      }
    }
    assert h1Texts[..|h1Texts|] == h1Texts;
  }

  lemma UnexpectedPush(texts: seq<string>, i: nat)
    requires i < |texts|
    ensures UnexpectedIssues(texts[..i + 1]) == UnexpectedIssues(texts[..i])
      + if Allowed(texts[i]) then [] else [Issue(ErrorLevel, UnexpectedMessage(texts[i]), None)]
  {
    assert texts[..i + 1][..i] == texts[..i];
  }

  /** One error per cycle, pushed onto `issues0`. */
  method ReportCycles(found: seq<seq<string>>, issues0: seq<Issue>) returns (issues: seq<Issue>)
    ensures issues == issues0 + CycleIssues(found)
  {
    issues := issues0;
    for i := 0 to |found|
      invariant issues == issues0 + CycleIssues(found[..i])
    {
      assert found[..i + 1][..i] == found[..i];
      issues := issues + [Issue(ErrorLevel, CycleMessage(found[i]), None)];
    }
    assert found[..|found|] == found;
  }

  /** The task loop of `validateTasksFile`, pushing onto `issues0`. */
  method CheckTasks(allTasks: seq<Task>, prefix: string, issues0: seq<Issue>) returns (issues: seq<Issue>)
    ensures issues == issues0 + TaskIssues(allTasks, prefix, |allTasks|)
  {
    issues := issues0;
    var seenIds: set<string> := {};
    for i := 0 to |allTasks|
      invariant issues == issues0 + TaskIssues(allTasks, prefix, i)
      invariant seenIds == Ids(allTasks[..i])
    {
      issues := CheckTask(allTasks, prefix, allTasks[i], seenIds, issues);
      Reassociate(issues0, TaskIssues(allTasks, prefix, i), TaskChecks(allTasks, prefix, allTasks[i], Ids(allTasks[..i])));
      assert TaskIssues(allTasks, prefix, i + 1)
        == TaskIssues(allTasks, prefix, i) + TaskChecks(allTasks, prefix, allTasks[i], Ids(allTasks[..i]));
      IdsPush(allTasks, i);
      seenIds := seenIds + {allTasks[i].id};
    }
  }

  /** One round of the task loop: the checks on `task`, pushed onto
      `issues0`. */
  method CheckTask(allTasks: seq<Task>, prefix: string, task: Task, seenIds: set<string>, issues0: seq<Issue>)
    returns (issues: seq<Issue>)
    ensures issues == issues0 + TaskChecks(allTasks, prefix, task, seenIds)
  {
    issues := issues0;
    if !PrefixFormat(task.id, prefix) {
      issues := issues + [Issue(WarningLevel, FormatMessage(task.id, prefix), Some(task.id))];
    }
    ghost var checks := FormatIssues(prefix, task);
    assert issues == issues0 + checks;
    if task.id in seenIds {
      issues := issues + [Issue(ErrorLevel, DuplicateMessage(task.id), Some(task.id))];
    }
    Reassociate(issues0, checks, DuplicateIssues(task, seenIds));
    checks := checks + DuplicateIssues(task, seenIds);
    var priorityTags := Filter(task.tags, IsPriorityTag);
    if |priorityTags| > 1 {
      issues := issues + [Issue(ErrorLevel, PriorityMessage(priorityTags), Some(task.id))];
    }
    Reassociate(issues0, checks, PriorityIssues(task));
    checks := checks + PriorityIssues(task);
    if Given(task.reserved.parentId) {
      var parentExists := task.reserved.parentId.value in Ids(allTasks);
      if !parentExists {
        issues := issues + [Issue(WarningLevel, ParentMessage(task.reserved.parentId.value), Some(task.id))];
      }
    }
    Reassociate(issues0, checks, ParentIssues(allTasks, task));
    checks := checks + ParentIssues(allTasks, task);
    assert issues == issues0 + checks;
    issues := CheckDependencies(allTasks, task.id, task.reserved.dependsOn, issues);
    Reassociate(issues0, checks, DependencyIssues(allTasks, task.id, task.reserved.dependsOn));
  }

  /** The loop over `task.reserved.dependsOn`, pushing onto `issues0`. */
  method CheckDependencies(allTasks: seq<Task>, id: string, deps: seq<string>, issues0: seq<Issue>)
    returns (issues: seq<Issue>)
    ensures issues == issues0 + DependencyIssues(allTasks, id, deps)
  {
    issues := issues0;
    for i := 0 to |deps|
      invariant issues == issues0 + DependencyIssues(allTasks, id, deps[..i])
    {
      assert deps[..i + 1][..i] == deps[..i];
      var depExists := deps[i] in Ids(allTasks);
      if !depExists {
        issues := issues + [Issue(WarningLevel, DependencyMessage(deps[i]), Some(id))];
      }
    }
    assert deps[..|deps|] == deps;
  }

  // ---- what the report says ----

  /** No issue of the report is an error. */
  predicate ErrorFree(issues: seq<Issue>) {
    forall k :: 0 <= k < |issues| ==> issues[k].level == WarningLevel
  }

  predicate IsError(issue: Issue) {
    issue.level == ErrorLevel
  }

  /** `doctor` exits with status 1 when the report holds an error, unless
      it printed the report as JSON, after which it returns normally. */
  function ExitCode(issues: seq<Issue>, json: bool): (code: nat)
    ensures code == 0 <==> json || ErrorFree(issues)
  {
    FilterMembers(issues, IsError);
    if json then 0
    else if |Filter(issues, IsError)| > 0 then
      assert Filter(issues, IsError)[0] in Filter(issues, IsError);
      1
    else
      assert forall k :: 0 <= k < |issues| ==> issues[k] !in Filter(issues, IsError);
      0
  }

  lemma ErrorFreeConcat(a: seq<Issue>, b: seq<Issue>)
    ensures ErrorFree(a + b) <==> ErrorFree(a) && ErrorFree(b)
  {
    forall k | 0 <= k < |a| ensures (a + b)[k] == a[k] {}
    forall k | 0 <= k < |b| ensures (a + b)[|a| + k] == b[k] {}
    if ErrorFree(a) && ErrorFree(b) {
      forall k | 0 <= k < |a + b| ensures (a + b)[k].level == WarningLevel {
        if k >= |a| {
          assert (a + b)[k] == b[k - |a|];
        }
      }
    }
  }

  /** A message `pre + x + post` gives back `x`. */
  lemma Unwrap(pre: string, a: string, b: string, post: string)
    requires pre + a + post == pre + b + post
    ensures a == b
  {
    var m := pre + a + post;
    assert a == m[|pre|..|pre| + |a|];
    assert b == (pre + b + post)[|pre|..|pre| + |b|];
  }

  /** The errors for unexpected headings are those for the H1 texts outside
      the allowed two. */
  lemma {:induction false} UnexpectedMembers(texts: seq<string>)
    ensures forall issue :: issue in UnexpectedIssues(texts) <==>
      issue.level == ErrorLevel && issue.taskId == None
      && exists j :: 0 <= j < |texts| && !Allowed(texts[j]) && issue.message == UnexpectedMessage(texts[j])
    decreases |texts|
  {
    if texts != [] {
      var init := texts[..|texts| - 1];
      UnexpectedMembers(init);
      forall j | 0 <= j < |init| ensures init[j] == texts[j] {}
    }
  }

  /** Each `# Backlog` and `# Done` heading missing, ignoring case, is an
      error, and no other issue of the heading checks reads the same. */
  lemma MissingHeadings(texts: seq<string>)
    ensures Issue(ErrorLevel, MissingBacklog, None) in HeadingIssues(texts) <==> "backlog" !in texts
    ensures Issue(ErrorLevel, MissingDone, None) in HeadingIssues(texts) <==> "done" !in texts
  {
    UnexpectedMembers(texts);
    forall text ensures UnexpectedMessage(text) != MissingBacklog && UnexpectedMessage(text) != MissingDone {
      assert UnexpectedMessage(text)[0] == 'U';
    }
  }

  predicate NotAllowed(text: string) {
    !Allowed(text)
  }

  /** Every H1 text other than `backlog` and `done` draws its own error,
      one per occurrence. */
  lemma UnexpectedHeadings(texts: seq<string>)
    ensures forall text :: Issue(ErrorLevel, UnexpectedMessage(text), None) in HeadingIssues(texts) <==>
      text in texts && !Allowed(text)
    ensures |UnexpectedIssues(texts)| == |Filter(texts, NotAllowed)|
  {
    UnexpectedMembers(texts);
    forall text | Issue(ErrorLevel, UnexpectedMessage(text), None) in HeadingIssues(texts)
      ensures text in texts && !Allowed(text)
    {
      assert UnexpectedMessage(text) != MissingBacklog && UnexpectedMessage(text) != MissingDone by {
        assert UnexpectedMessage(text)[0] == 'U';
      }
      var j :| 0 <= j < |texts| && !Allowed(texts[j]) && UnexpectedMessage(text) == UnexpectedMessage(texts[j]);
      Unwrap("Unexpected H1 heading \"# ", text, texts[j], "\" - only \"Backlog\" and \"Done\" are allowed");
    }
    UnexpectedCount(texts);
  }

  lemma {:induction false} UnexpectedCount(texts: seq<string>)
    ensures |UnexpectedIssues(texts)| == |Filter(texts, NotAllowed)|
    decreases |texts|
  {
    if texts != [] {
      UnexpectedCount(texts[..|texts| - 1]);
    }
  }

  /** The heading checks raise no error exactly when both sections are
      there and no other H1 heading is. */
  lemma HeadingsErrorFree(texts: seq<string>)
    ensures ErrorFree(HeadingIssues(texts)) <==>
      "backlog" in texts && "done" in texts && forall k :: 0 <= k < |texts| ==> Allowed(texts[k])
  {
    var m, u := MissingIssues(texts), UnexpectedIssues(texts);
    ErrorFreeConcat(m, u);
    assert ErrorFree(m) <==> "backlog" in texts && "done" in texts by {
      if "backlog" !in texts || "done" !in texts {
        assert m[0].level == ErrorLevel;
      }
    }
    UnexpectedErrorFree(texts);
  }

  /** An H1 written as inline code still opens its section for the parser,
      whose heading text includes inline code, but the doctor's H1 check sees
      an empty text: `# \`Backlog\`` and `# Done` are reported as an error. */
  lemma InlineCodeH1()
    ensures var nodes := [Heading(1, "Backlog", ""), Heading(1, "Done", "Done")];
      SectionOf(nodes[0].text) == Some(BacklogSection)
      && H1Texts(nodes) == ["", "done"]
      && !ErrorFree(HeadingIssues(H1Texts(nodes)))
  {
    BacklogOpens();
    LowerLiteral("Done", "done");
    InlineCodeTexts(Heading(1, "Backlog", ""), Heading(1, "Done", "Done"));
    UnexpectedOfEmpty(["", "done"]);
  }

  lemma BacklogOpens()
    ensures SectionOf("Backlog") == Some(BacklogSection)
  {
    LowerLiteral("Backlog", "backlog");
  }

  /** The H1 texts of two depth-1 headings, the first with no text child. */
  lemma InlineCodeTexts(a: Block, b: Block)
    requires a.Heading? && a.depth == 1 && a.plain == ""
    requires b.Heading? && b.depth == 1
    ensures H1Texts([a, b]) == ["", Lower(b.plain)]
  {
    assert H1Text(a) == [""];
    FlatMapPush([a], b, H1Text);
    FlatMapPush([], a, H1Text);
    assert [a, b] == [a] + [b];
    assert [a] == [] + [a];
  }

  /** An empty H1 text is never allowed, so the heading checks fail. */
  lemma UnexpectedOfEmpty(texts: seq<string>)
    requires texts != [] && texts[0] == ""
    ensures !ErrorFree(HeadingIssues(texts))
  {
    UnexpectedErrorFree(texts);
    ErrorFreeConcat(MissingIssues(texts), UnexpectedIssues(texts));
    assert !Allowed(texts[0]);
  }

  /** ASCII lower-casing of a short literal, character by character. */
  lemma LowerLiteral(s: string, t: string)
    requires |s| == |t| && forall k :: 0 <= k < |s| ==> LowerChar(s[k]) == t[k]
    ensures Lower(s) == t
  {
  }

  lemma {:induction false} UnexpectedErrorFree(texts: seq<string>)
    ensures ErrorFree(UnexpectedIssues(texts)) <==> forall k :: 0 <= k < |texts| ==> Allowed(texts[k])
    decreases |texts|
  {
    if texts != [] {
      var init, last := texts[..|texts| - 1], texts[|texts| - 1];
      UnexpectedErrorFree(init);
      var tail := if Allowed(last) then [] else [Issue(ErrorLevel, UnexpectedMessage(last), None)];
      ErrorFreeConcat(UnexpectedIssues(init), tail);
      assert (forall k :: 0 <= k < |texts| ==> Allowed(texts[k])) <==>
        (forall k :: 0 <= k < |init| ==> Allowed(init[k])) && Allowed(last) by {
        forall k | 0 <= k < |init| ensures init[k] == texts[k] {}
      }
      if !Allowed(last) {
        assert tail[0].level == ErrorLevel;
      }
    }
  }

  /** The warnings for unknown dependencies are those for the dependencies
      that no task has as its id. */
  lemma {:induction false} DependencyMembers(all: seq<Task>, id: string, deps: seq<string>)
    ensures forall issue :: issue in DependencyIssues(all, id, deps) <==>
      issue.level == WarningLevel && issue.taskId == Some(id)
      && exists j :: 0 <= j < |deps| && deps[j] !in Ids(all) && issue.message == DependencyMessage(deps[j])
    decreases |deps|
  {
    if deps != [] {
      var init := deps[..|deps| - 1];
      DependencyMembers(all, id, init);
      forall j | 0 <= j < |init| ensures init[j] == deps[j] {}
    }
  }

  /** An issue of one round of the task loop comes from one of its five
      checks. */
  lemma InChecks(all: seq<Task>, prefix: string, t: Task, seen: set<string>, issue: Issue)
    ensures issue in TaskChecks(all, prefix, t, seen) <==>
      issue in FormatIssues(prefix, t) || issue in DuplicateIssues(t, seen) || issue in PriorityIssues(t)
      || issue in ParentIssues(all, t) || issue in DependencyIssues(all, t.id, t.reserved.dependsOn)
  {
  }

  /** How often an issue is reported in one round is how often each check
      reports it, added up. */
  lemma CountInChecks(all: seq<Task>, prefix: string, t: Task, seen: set<string>, issue: Issue)
    ensures multiset(TaskChecks(all, prefix, t, seen))[issue] ==
      multiset(FormatIssues(prefix, t))[issue] + multiset(DuplicateIssues(t, seen))[issue]
      + multiset(PriorityIssues(t))[issue] + multiset(ParentIssues(all, t))[issue]
      + multiset(DependencyIssues(all, t.id, t.reserved.dependsOn))[issue]
  {
  }

  /** A dangling parent is reported, as a warning on the task, exactly when
      the task names a parent that no task has as its id. */
  lemma ParentWarning(all: seq<Task>, prefix: string, t: Task, seen: set<string>, p: string)
    ensures Issue(WarningLevel, ParentMessage(p), Some(t.id)) in TaskChecks(all, prefix, t, seen) <==>
      t.reserved.parentId == Some(p) && p != "" && p !in Ids(all)
  {
    InChecks(all, prefix, t, seen, Issue(WarningLevel, ParentMessage(p), Some(t.id)));
    DependencyMembers(all, t.id, t.reserved.dependsOn);
    assert FormatMessage(t.id, prefix)[0] == 'T' && ParentMessage(p)[0] == 'P';
    forall d ensures DependencyMessage(d) != ParentMessage(p) {
      assert DependencyMessage(d)[0] == 'D';
    }
    if Given(t.reserved.parentId) && ParentMessage(t.reserved.parentId.value) == ParentMessage(p) {
      Unwrap("Parent task \"", t.reserved.parentId.value, p, "\" not found");
    }
  }

  /** A dangling dependency is reported, as a warning on the task, exactly
      when the task depends on an id that no task has. */
  lemma DependencyWarning(all: seq<Task>, prefix: string, t: Task, seen: set<string>, d: string)
    ensures Issue(WarningLevel, DependencyMessage(d), Some(t.id)) in TaskChecks(all, prefix, t, seen) <==>
      d in t.reserved.dependsOn && d !in Ids(all)
  {
    var deps := t.reserved.dependsOn;
    InChecks(all, prefix, t, seen, Issue(WarningLevel, DependencyMessage(d), Some(t.id)));
    DependencyMembers(all, t.id, deps);
    assert FormatMessage(t.id, prefix)[0] == 'T' && DependencyMessage(d)[0] == 'D';
    if Given(t.reserved.parentId) {
      assert ParentMessage(t.reserved.parentId.value)[0] == 'P';
    }
    var issue := Issue(WarningLevel, DependencyMessage(d), Some(t.id));
    if issue in DependencyIssues(all, t.id, deps) {
      var j :| 0 <= j < |deps| && deps[j] !in Ids(all) && DependencyMessage(d) == DependencyMessage(deps[j]);
      Unwrap("Dependency task \"", d, deps[j], "\" not found");
    }
    if d in deps && d !in Ids(all) {
      var j :| 0 <= j < |deps| && deps[j] == d;
    }
  }

  /** The id-format warning fires exactly when the id is not the prefix, a
      hyphen and digits. */
  lemma FormatWarning(all: seq<Task>, prefix: string, t: Task, seen: set<string>)
    ensures Issue(WarningLevel, FormatMessage(t.id, prefix), Some(t.id)) in TaskChecks(all, prefix, t, seen) <==>
      !PrefixFormat(t.id, prefix)
  {
    DependencyMembers(all, t.id, t.reserved.dependsOn);
    forall d ensures DependencyMessage(d) != FormatMessage(t.id, prefix) {
      assert DependencyMessage(d)[0] == 'D' && FormatMessage(t.id, prefix)[0] == 'T';
    }
    if Given(t.reserved.parentId) {
      assert ParentMessage(t.reserved.parentId.value)[0] == 'P';
    }
  }

  /** An id made the way `generateNextId` makes it never draws the
      id-format warning. */
  lemma GeneratedIdHasFormat(prefix: string, n: nat, t: Task)
    requires t.id == prefix + "-" + NatToString(n)
    ensures FormatIssues(prefix, t) == []
  {
    NextNumber(prefix, n);
  }

  /** The multiple-priority error fires exactly for more than one tag matching
      `^p[1-9]$`, wherever they sit among the tags. */
  lemma PriorityConflict(t: Task)
    ensures PriorityIssues(t) != [] <==>
      exists i, j :: 0 <= i < j < |t.tags| && IsPriorityTag(t.tags[i]) && IsPriorityTag(t.tags[j])
  {
    FilterPairs(t.tags, IsPriorityTag);
  }

  /** How often `x` is the id of a task. */
  function Occurrences(ts: seq<Task>, x: string): nat {
    if ts == [] then 0 else Occurrences(ts[..|ts| - 1], x) + if ts[|ts| - 1].id == x then 1 else 0
  }

  lemma {:induction false} OccursIff(ts: seq<Task>, x: string)
    ensures Occurrences(ts, x) > 0 <==> x in Ids(ts)
    decreases |ts|
  {
    if ts != [] {
      var init := ts[..|ts| - 1];
      OccursIff(init, x);
      IdsPush(ts, |ts| - 1);
      assert ts[..|ts|] == ts;
    }
  }

  /** The duplicate-id error of one task, for `x`. */
  function DuplicateIssue(x: string): Issue {
    Issue(ErrorLevel, DuplicateMessage(x), Some(x))
  }

  /** One round of the task loop reports `x` as a duplicate once if `t` has
      that id and it was seen before, and otherwise not at all. */
  lemma DuplicateOnce(all: seq<Task>, prefix: string, t: Task, seen: set<string>, x: string)
    ensures multiset(TaskChecks(all, prefix, t, seen))[DuplicateIssue(x)] == if t.id == x && x in seen then 1 else 0
  {
    CountInChecks(all, prefix, t, seen, DuplicateIssue(x));
    DependencyMembers(all, t.id, t.reserved.dependsOn);
    var de := DependencyIssues(all, t.id, t.reserved.dependsOn);
    assert DuplicateIssue(x) !in de;
    assert multiset(de)[DuplicateIssue(x)] == 0;
    if |Filter(t.tags, IsPriorityTag)| > 1 {
      assert PriorityMessage(Filter(t.tags, IsPriorityTag))[0] == 'T' && DuplicateMessage(x)[0] == 'D';
    }
  }

  /** Every occurrence of an id after its first draws one duplicate error. */
  lemma {:induction false} DuplicateCount(all: seq<Task>, prefix: string, n: nat, x: string)
    requires n <= |all|
    ensures multiset(TaskIssues(all, prefix, n))[DuplicateIssue(x)] ==
      if Occurrences(all[..n], x) == 0 then 0 else Occurrences(all[..n], x) - 1
  {
    if n > 0 {
      var init, t := all[..n - 1], all[n - 1];
      DuplicateCount(all, prefix, n - 1, x);
      DuplicateOnce(all, prefix, t, Ids(init), x);
      OccursIff(init, x);
      var a, b := TaskIssues(all, prefix, n - 1), TaskChecks(all, prefix, t, Ids(init));
      assert multiset(a + b) == multiset(a) + multiset(b);
      PrefixSnoc(all, n - 1);
      assert Occurrences(all[..n], x) == Occurrences(init, x) + if t.id == x then 1 else 0;
    }
  }

  /** No two tasks share an id. */
  predicate DistinctIds(ts: seq<Task>) {
    forall i, j :: 0 <= i < j < |ts| ==> ts[i].id != ts[j].id
  }

  /** No task has more than one priority tag. */
  predicate OnePriority(ts: seq<Task>) {
    forall k :: 0 <= k < |ts| ==> |Filter(ts[k].tags, IsPriorityTag)| <= 1
  }

  lemma {:induction false} DependencyWarningsOnly(all: seq<Task>, id: string, deps: seq<string>)
    ensures ErrorFree(DependencyIssues(all, id, deps))
    decreases |deps|
  {
    if deps != [] {
      var init := deps[..|deps| - 1];
      DependencyWarningsOnly(all, id, init);
      ErrorFreeConcat(DependencyIssues(all, id, init),
        if deps[|deps| - 1] in Ids(all) then [] else [Issue(WarningLevel, DependencyMessage(deps[|deps| - 1]), Some(id))]);
    }
  }

  /** The checks on one task raise an error only for a repeated id or for
      several priority tags: the format and dangling references are
      warnings. */
  lemma TaskErrorFree(all: seq<Task>, prefix: string, t: Task, seen: set<string>)
    ensures ErrorFree(TaskChecks(all, prefix, t, seen)) <==> t.id !in seen && |Filter(t.tags, IsPriorityTag)| <= 1
  {
    var f, d, p, pa, de := FormatIssues(prefix, t), DuplicateIssues(t, seen), PriorityIssues(t),
      ParentIssues(all, t), DependencyIssues(all, t.id, t.reserved.dependsOn);
    DependencyWarningsOnly(all, t.id, t.reserved.dependsOn);
    ErrorFreeConcat(f, d);
    ErrorFreeConcat(f + d, p);
    ErrorFreeConcat(f + d + p, pa);
    ErrorFreeConcat(f + d + p + pa, de);
    assert ErrorFree(d) <==> t.id !in seen by {
      if t.id in seen {
        assert d[0].level == ErrorLevel;
      }
    }
    assert ErrorFree(p) <==> |Filter(t.tags, IsPriorityTag)| <= 1 by {
      if |Filter(t.tags, IsPriorityTag)| > 1 {
        assert p[0].level == ErrorLevel;
      }
    }
  }

  /** The task loop raises no error exactly when the ids are distinct and
      no task has two priority tags. */
  lemma {:induction false} TasksErrorFree(all: seq<Task>, prefix: string, n: nat)
    requires n <= |all|
    ensures ErrorFree(TaskIssues(all, prefix, n)) <==> DistinctIds(all[..n]) && OnePriority(all[..n])
  {
    if n > 0 {
      TasksErrorFree(all, prefix, n - 1);
      TasksErrorFreeStep(all, prefix, n);
    }
  }

  /** One more round of the task loop keeps the reports error-free exactly
      when the new task's id is fresh and it has at most one priority tag. */
  lemma TasksErrorFreeStep(all: seq<Task>, prefix: string, n: nat)
    requires 0 < n <= |all|
    requires ErrorFree(TaskIssues(all, prefix, n - 1)) <==> DistinctIds(all[..n - 1]) && OnePriority(all[..n - 1])
    ensures ErrorFree(TaskIssues(all, prefix, n)) <==> DistinctIds(all[..n]) && OnePriority(all[..n])
  {
    var init, t := all[..n - 1], all[n - 1];
    TaskErrorFree(all, prefix, t, Ids(init));
    ErrorFreeConcat(TaskIssues(all, prefix, n - 1), TaskChecks(all, prefix, t, Ids(init)));
    DistinctPush(all, n);
    OnePriorityPush(all, n);
  }

  lemma OnePriorityPush(all: seq<Task>, n: nat)
    requires 0 < n <= |all|
    ensures OnePriority(all[..n]) <==> OnePriority(all[..n - 1]) && |Filter(all[n - 1].tags, IsPriorityTag)| <= 1
  {
    var a, init := all[..n], all[..n - 1];
    if OnePriority(a) {
      forall k | 0 <= k < |init| ensures |Filter(init[k].tags, IsPriorityTag)| <= 1 {
        assert init[k] == a[k];
      }
      assert a[n - 1] == all[n - 1];
    }
    if OnePriority(init) && |Filter(all[n - 1].tags, IsPriorityTag)| <= 1 {
      forall k | 0 <= k < n ensures |Filter(a[k].tags, IsPriorityTag)| <= 1 {
        if k < n - 1 {
          assert a[k] == init[k];
        }
      }
    }
  }

  lemma DistinctPush(all: seq<Task>, n: nat)
    requires 0 < n <= |all|
    ensures DistinctIds(all[..n]) <==> DistinctIds(all[..n - 1]) && all[n - 1].id !in Ids(all[..n - 1])
  {
    var a, init := all[..n], all[..n - 1];
    if DistinctIds(a) {
      forall i, j | 0 <= i < j < |init| ensures init[i].id != init[j].id {
        assert init[i] == a[i] && init[j] == a[j];
      }
      forall k | 0 <= k < |init| ensures init[k].id != all[n - 1].id {
        assert a[k] == init[k] && a[n - 1] == all[n - 1];
      }
    }
    if DistinctIds(init) && all[n - 1].id !in Ids(init) {
      forall i, j | 0 <= i < j < |a| ensures a[i].id != a[j].id {
        assert a[i] == all[i] && a[j] == all[j];
        if j < n - 1 {
          assert init[i] == a[i] && init[j] == a[j];
        } else {
          assert init[i].id in Ids(init);
        }
      }
    }
  }

  lemma {:induction false} CyclesErrorFree(cycles: seq<seq<string>>)
    ensures ErrorFree(CycleIssues(cycles)) <==> cycles == []
  {
    if cycles != [] {
      var c := CycleIssues(cycles);
      assert c[|c| - 1].level == ErrorLevel;
    }
  }

  /** What `doctor` accepts without an error: both sections and no other H1
      heading, distinct ids, at most one priority tag per task, and no
      cycle through parents and dependencies. Ids of the wrong format and
      references to missing tasks are only warned about. */
  ghost predicate Healthy(nodes: seq<Block>, all: seq<Task>) {
    var texts := H1Texts(nodes);
    "backlog" in texts && "done" in texts && (forall k :: 0 <= k < |texts| ==> Allowed(texts[k]))
    && DistinctIds(all) && OnePriority(all) && Acyclic(Edges(all))
  }

  /** The report holds no error exactly when the document is healthy. */
  lemma ReportErrorFree(nodes: seq<Block>, all: seq<Task>, prefix: string, cycles: seq<seq<string>>)
    requires cycles == [] <==> Acyclic(Edges(all))
    ensures ErrorFree(Report(nodes, all, prefix, cycles)) <==> Healthy(nodes, all)
  {
    var h, t, c := HeadingIssues(H1Texts(nodes)), TaskIssues(all, prefix, |all|), CycleIssues(cycles);
    ErrorFreeConcat(h, t);
    ErrorFreeConcat(h + t, c);
    HeadingsErrorFree(H1Texts(nodes));
    TasksErrorFree(all, prefix, |all|);
    assert all[..|all|] == all;
    CyclesErrorFree(cycles);
  }
}
