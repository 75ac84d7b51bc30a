/** The relationship graph that `relate` and `doctor` search: an edge runs
    from a task to its parent and to every task it depends on, read from the
    task's reserved record (src/cli/commands/relate.ts,
    src/cli/commands/doctor.ts). */
module TaskGraph {
  import opened Wrappers
  import opened Tasks

  // ---- the task map ----

  /** The position whose task `new Map(tasks.map(t => [t.id, t]))` keeps for
      `id`: a later task with the same id overwrites an earlier one. */
  function LastWithId(ts: seq<Task>, id: string): (r: Option<nat>)
    ensures r.Some? ==> r.value < |ts| && ts[r.value].id == id
    ensures r.Some? ==> forall k :: r.value < k < |ts| ==> ts[k].id != id
    ensures r.None? ==> forall k :: 0 <= k < |ts| ==> ts[k].id != id
  {
    if ts == [] then None
    else if ts[|ts| - 1].id == id then Some(|ts| - 1)
    else LastWithId(ts[..|ts| - 1], id)
  }

  /** `taskMap.get(id)` */
  function Lookup(ts: seq<Task>, id: string): (r: Option<Task>)
    ensures r.Some? ==> r.value.id == id
  {
    match LastWithId(ts, id)
    case None => None
    case Some(k) => Some(ts[k])
  }

  /** The ids of the tasks, the keys of the task map. */
  function Ids(ts: seq<Task>): set<string> {
    set k | 0 <= k < |ts| :: ts[k].id
  }

  /** The map has an entry exactly for the ids of the tasks. */
  lemma LookupIds(ts: seq<Task>, id: string)
    ensures Lookup(ts, id).Some? <==> id in Ids(ts)
  {
    if id in Ids(ts) {
      var k :| 0 <= k < |ts| && ts[k].id == id;
    }
  }

  /** Replacing a task by one with the same id changes no other lookup, and
      this one only when the replaced task is the one the map keeps. */
  lemma LookupReplaced(ts: seq<Task>, k: nat, t: Task, id: string)
    requires k < |ts| && t.id == ts[k].id
    ensures LastWithId(ts[k := t], id) == LastWithId(ts, id)
    ensures Lookup(ts[k := t], id) ==
      if LastWithId(ts, id) == Some(k) then Some(t) else Lookup(ts, id)
  {
    var us := ts[k := t];
    match LastWithId(ts, id)
    case None =>
      assert forall j :: 0 <= j < |us| ==> us[j].id != id by {
        forall j | 0 <= j < |us| ensures us[j].id != id {
          assert us[j].id == ts[j].id;
        }
      }
    case Some(m) =>
      assert us[m].id == id;
      assert forall j :: m < j < |us| ==> us[j].id != id by {
        forall j | m < j < |us| ensures us[j].id != id {
          assert us[j].id == ts[j].id;
        }
      }
      LastIsUnique(us, id, m);
  }

  /** The kept position is the only position with that id and none after it. */
  lemma LastIsUnique(ts: seq<Task>, id: string, m: nat)
    requires m < |ts| && ts[m].id == id
    requires forall j :: m < j < |ts| ==> ts[j].id != id
    ensures LastWithId(ts, id) == Some(m)
  {
    var r := LastWithId(ts, id);
    assert ts[m].id == id;
  }

  // ---- edges and paths ----

  /** The parent edge: `task.reserved.parentId && ...` skips an absent or
      empty parent id. */
  function ParentEdge(t: Task): (r: seq<string>)
    ensures |r| <= 1 && forall y :: y in r <==> t.reserved.parentId == Some(y) && y != ""
  {
    if t.reserved.parentId.Some? && t.reserved.parentId.value != "" then [t.reserved.parentId.value] else []
  }

  /** The ids `hasCycle` goes on to from `id`, in the order it tries them:
      the parent, then the dependencies in tag order. An id that no task has
      is a dead end. */
  function Succ(ts: seq<Task>, id: string): (r: seq<string>)
    ensures Lookup(ts, id).None? ==> r == []
  {
    match Lookup(ts, id)
    case None => []
    case Some(t) => ParentEdge(t) + t.reserved.dependsOn
  }

  predicate Edge(ts: seq<Task>, x: string, y: string) {
    y in Succ(ts, x)
  }

  /** The edges, as a set of pairs: the paths below are walks in such a set,
      so that reasoning about them never looks inside `Succ`. */
  type Graph = set<(string, string)>

  ghost function Edges(ts: seq<Task>): (g: Graph)
    ensures forall x, y :: (x, y) in g <==> Edge(ts, x, y)
  {
    var g := set x, y | x in Ids(ts) && y in Succ(ts, x) :: (x, y);
    assert forall x, y :: Edge(ts, x, y) ==> (x, y) in g by {
      forall x, y | Edge(ts, x, y) ensures (x, y) in g {
        LookupIds(ts, x);
      }
    }
    g
  }

  /** A walk along edges, of one or more ids. */
  predicate IsPath(g: Graph, p: seq<string>) {
    |p| >= 1 && forall i :: 0 <= i < |p| - 1 ==> (p[i], p[i + 1]) in g
  }

  /** `y` can be reached from `x`, in zero or more steps. */
  ghost predicate Reaches(g: Graph, x: string, y: string) {
    exists p :: IsPath(g, p) && p[0] == x && p[|p| - 1] == y
  }

  /** A walk of at least one step that comes back to where it started. */
  predicate IsCycle(g: Graph, p: seq<string>) {
    IsPath(g, p) && |p| >= 2 && p[0] == p[|p| - 1]
  }

  ghost predicate Acyclic(g: Graph) {
    forall p :: !IsCycle(g, p)
  }

  lemma ReachesItself(g: Graph, x: string)
    ensures Reaches(g, x, x)
  {
    assert IsPath(g, [x]);
  }

  /** One edge followed by a walk is a walk. */
  lemma ReachStep(g: Graph, x: string, y: string, z: string)
    requires (x, y) in g && Reaches(g, y, z)
    ensures Reaches(g, x, z)
  {
    var p :| IsPath(g, p) && p[0] == y && p[|p| - 1] == z;
    var q := [x] + p;
    forall i | 0 <= i < |q| - 1 ensures (q[i], q[i + 1]) in g {
      if i > 0 {
        assert q[i] == p[i - 1] && q[i + 1] == p[i];
      }
    }
    assert IsPath(g, q) && q[0] == x && q[|q| - 1] == z;
  }

  /** Two walks that meet make one. */
  lemma PathJoin(g: Graph, p: seq<string>, q: seq<string>)
    requires IsPath(g, p) && IsPath(g, q) && p[|p| - 1] == q[0]
    ensures IsPath(g, p + q[1..]) && (p + q[1..])[0] == p[0]
    ensures (p + q[1..])[|p + q[1..]| - 1] == q[|q| - 1]
  {
    var r := p + q[1..];
    forall i | 0 <= i < |r| - 1 ensures (r[i], r[i + 1]) in g {
      if i < |p| - 1 {
        assert r[i] == p[i] && r[i + 1] == p[i + 1];
      } else {
        assert r[i] == q[i - |p| + 1] && r[i + 1] == q[i - |p| + 2];
      }
    }
  }

  /** Two walks that meet connect the start of the first to the end of the
      second. */
  lemma JoinReaches(g: Graph, p: seq<string>, q: seq<string>, x: string, y: string)
    requires IsPath(g, p) && IsPath(g, q) && p[|p| - 1] == q[0]
    requires p[0] == x && q[|q| - 1] == y
    ensures Reaches(g, x, y)
  {
    PathJoin(g, p, q);
  }

  /** A walk extended by one edge at its end. */
  lemma PathSnoc(g: Graph, p: seq<string>, y: string)
    requires IsPath(g, p) && (p[|p| - 1], y) in g
    ensures IsPath(g, p + [y])
  {
    var r := p + [y];
    forall i | 0 <= i < |r| - 1 ensures (r[i], r[i + 1]) in g {
      if i < |p| - 1 {
        assert r[i] == p[i] && r[i + 1] == p[i + 1];
      }
    }
  }

  /** A walk that comes back to `p[i]` closes a cycle from there. */
  lemma CycleAt(g: Graph, p: seq<string>, x: string, i: nat)
    requires IsPath(g, p + [x]) && i < |p| && p[i] == x
    ensures IsCycle(g, p[i..] + [x])
  {
    var w := p + [x];
    assert p[i..] + [x] == w[i..];
    Segment(g, w, i, |w|);
    assert w[i..|w|] == w[i..];
  }

  /** Edges leave only from the ids of tasks. */
  lemma EdgeSource(ts: seq<Task>, x: string, y: string)
    requires (x, y) in Edges(ts)
    ensures x in Ids(ts)
  {
    LookupIds(ts, x);
  }

  /** A stretch of a walk whose steps are all edges of `g`. */
  lemma Segment(g: Graph, p: seq<string>, i: nat, j: nat)
    requires i < j <= |p|
    requires forall k :: i <= k < j - 1 ==> (p[k], p[k + 1]) in g
    ensures var s := p[i..j]; IsPath(g, s) && s[0] == p[i] && s[|s| - 1] == p[j - 1]
  {
    var s := p[i..j];
    forall k | 0 <= k < |s| - 1 ensures (s[k], s[k + 1]) in g {
      assert s[k] == p[i + k] && s[k + 1] == p[i + k + 1];
    }
  }

  // ---- growing a graph ----

  /** The first step at or after `i` of `p` that is not an edge of `g`. */
  function FirstNew(g: Graph, p: seq<string>, i: nat): (r: Option<nat>)
    requires |p| >= 1 && i <= |p| - 1
    decreases |p| - i
    ensures r.None? ==> forall k :: i <= k < |p| - 1 ==> (p[k], p[k + 1]) in g
    ensures r.Some? ==> i <= r.value < |p| - 1 && (p[r.value], p[r.value + 1]) !in g
    ensures r.Some? ==> forall k :: i <= k < r.value ==> (p[k], p[k + 1]) in g
  {
    if i == |p| - 1 then None
    else if (p[i], p[i + 1]) !in g then Some(i)
    else FirstNew(g, p, i + 1)
  }

  /** The last step before `j` of `p` that is not an edge of `g`. */
  function LastNew(g: Graph, p: seq<string>, j: nat): (r: Option<nat>)
    requires j < |p|
    ensures r.None? ==> forall k :: 0 <= k < j ==> (p[k], p[k + 1]) in g
    ensures r.Some? ==> r.value < j && (p[r.value], p[r.value + 1]) !in g
    ensures r.Some? ==> forall k :: r.value < k < j ==> (p[k], p[k + 1]) in g
  {
    if j == 0 then None
    else if (p[j - 1], p[j]) !in g then Some(j - 1)
    else LastNew(g, p, j - 1)
  }

  /** The edges of `after` are those of `before` and edges from `a` to
      `targets`. */
  ghost predicate Grows(before: Graph, after: Graph, a: string, targets: set<string>) {
    forall x, y :: (x, y) in after ==> (x, y) in before || (x == a && y in targets)
  }

  /** Edges out of `a` towards ids from which `a` cannot be reached close no
      cycle. */
  lemma GrowsAcyclic(before: Graph, after: Graph, a: string, targets: set<string>)
    requires Acyclic(before) && Grows(before, after, a, targets)
    requires forall b :: b in targets ==> !Reaches(before, b, a)
    ensures Acyclic(after)
  {
    forall p ensures !IsCycle(after, p) {
      CycleBack(before, after, a, targets, p);
    }
  }

  /** A cycle of the grown graph is a cycle of the old one, or it uses a new
      edge and then gives a walk of old edges back to `a`: from the target of
      its last new edge round to the source of its first. */
  lemma CycleBack(before: Graph, after: Graph, a: string, targets: set<string>, p: seq<string>)
    requires Grows(before, after, a, targets)
    ensures IsCycle(after, p) ==>
      IsCycle(before, p) || exists b :: b in targets && Reaches(before, b, a)
  {
    if IsCycle(after, p) && !IsPath(before, p) {
      var f := FirstNew(before, p, 0).value;
      var l := LastNew(before, p, |p| - 1).value;
      assert (p[f], p[f + 1]) in after && (p[l], p[l + 1]) in after;
      Segment(before, p, 0, f + 1);
      Segment(before, p, l + 1, |p|);
      JoinReaches(before, p[l + 1..], p[..f + 1], p[l + 1], a);
    }
  }

  // ---- searching from a closed set ----

  /** Every id of `visited` outside `open` has all its successors in
      `visited`. */
  ghost predicate Closed(g: Graph, visited: set<string>, open: set<string>) {
    forall v, y :: v in visited && v !in open && (v, y) in g ==> y in visited
  }

  /** A walk that starts in a closed set stays in it. */
  lemma {:induction false} ClosedWalk(g: Graph, visited: set<string>, p: seq<string>, i: nat)
    requires IsPath(g, p) && p[0] in visited && Closed(g, visited, {}) && i < |p|
    ensures p[i] in visited
  {
    if i > 0 {
      ClosedWalk(g, visited, p, i - 1);
      assert (p[i - 1], p[i]) in g;
    }
  }

  /** Nothing outside a closed set is reachable from inside it. */
  lemma ClosedUnreachable(g: Graph, visited: set<string>, x: string, y: string)
    requires Closed(g, visited, {}) && x in visited && y !in visited
    ensures !Reaches(g, x, y)
  {
    if Reaches(g, x, y) {
      var p :| IsPath(g, p) && p[0] == x && p[|p| - 1] == y;
      ClosedWalk(g, visited, p, |p| - 1);
    }
  }

  lemma {:induction false} SubsetCard<T>(s: set<T>, t: set<T>)
    requires s <= t
    ensures |s| <= |t|
    decreases |t|
  {
    if s != {} {
      var x :| x in s;
      SubsetCard(s - {x}, t - {x});
    }
  }

  /** Marking a fresh id of `ids` leaves fewer ids unmarked. */
  lemma MarkShrinks(ids: set<string>, visited: set<string>, later: set<string>, x: string)
    requires x in ids && x !in visited && visited + {x} <= later
    ensures |ids - later| < |ids - visited|
  {
    SubsetCard(ids - later, (ids - visited) - {x});
  }
}
