/** The `log` command (src/cli/commands/log.ts): which entries it shows,
    newest first and cut to `--limit`, the summary line it prints above them,
    and the grouping of the shown entries by UTC date. Console output, the
    local-time rendering of each entry and the `--since`/`--until` filters
    are not part of this model. */
module LogCommand {
  import opened Wrappers
  import opened JsString
  import opened Calendar
  import opened Sorting
  import opened Log
  import opened CentralLog
  import opened Commands

  /** The arguments that decide which entries are shown. */
  datatype LogArgs = LogArgs(id: Option<string>, all: bool, limit: Option<string>)

  function UsageError(): string {
    "Provide a task ID or use --all to show all logs."
  }

  function InvalidLimit(limit: string): string {
    "Invalid limit: " + limit
  }

  /** `readLogFile` with `--all`, `getTaskLog` of the id otherwise. */
  function Selected(args: LogArgs, log: seq<FileLogEntry>): seq<FileLogEntry>
    requires args.all || Given(args.id)
  {
    if args.all then log else TaskEntries(log, args.id.value)
  }

  /** The entries `log` shows, or the error it exits with: a task id or
      `--all` is required, the entries are sorted newest first, and a given
      `--limit` must parse as a number of at least 1 and keeps that many. */
  function ShownEntries(args: LogArgs, log: seq<FileLogEntry>): (r: Result<seq<FileLogEntry>>)
  {
    if !args.all && !Given(args.id) then Err(UsageError())
    else
      var sorted := SortBy(Selected(args, log), NewestFirst);
      if Given(args.limit) then
        var n := ParseIntJs(args.limit.value);
        if n.None? || n.value < 1 then Err(InvalidLimit(args.limit.value))
        else Ok(sorted[..if n.value < |sorted| then n.value else |sorted|])
      else Ok(sorted)
  }

  // ---- groupEntriesByDate ----

  /** `entry.timestamp.toISOString().split('T')[0]`, or `None` for an
      invalid date, where `toISOString()` throws, and for a time outside the
      years 0000–9999, whose expanded `±YYYYYY` form is not rendered here. */
  function DateKey(e: FileLogEntry): Option<string> {
    if e.timestamp.Valid? && Renderable(e.timestamp) then Some(IsoDate(FromMs(e.timestamp.ms))) else None
  }

  /** The `Map` the grouping builds: its keys in insertion order, and the
      array under each key. */
  datatype Groups = Groups(keys: seq<string>, byKey: map<string, seq<FileLogEntry>>)

  /** One pass of the loop: the entry pushed onto the array of its key,
      which a first entry of that date creates. */
  function AddEntry(g: Groups, k: string, e: FileLogEntry): Groups {
    if k in g.byKey then Groups(g.keys, g.byKey[k := g.byKey[k] + [e]])
    else Groups(g.keys + [k], g.byKey[k := [e]])
  }

  /** The grouping of `es` by `key`, or the RangeError that a missing key
      throws; `groupEntriesByDate` is this with `DateKey`. */
  function Grouped(es: seq<FileLogEntry>, key: FileLogEntry -> Option<string>): Result<Groups>
    decreases |es|
  {
    if es == [] then Ok(Groups([], map[]))
    else
      var r := Grouped(es[..|es| - 1], key);
      var e := es[|es| - 1];
      if r.Err? then r
      else if key(e).None? then Err(RangeError)
      else Ok(AddEntry(r.value, key(e).value, e))
  }

  /** `groupEntriesByDate`: one loop over the entries, updating a `Map`. */
  method GroupEntriesByDate(entries: seq<FileLogEntry>) returns (r: Result<Groups>)
    ensures r == Grouped(entries, DateKey)
  {
    var keys: seq<string> := [];
    var groups: map<string, seq<FileLogEntry>> := map[];
    var i := 0;
    while i < |entries|
      invariant 0 <= i <= |entries|
      invariant Grouped(entries[..i], DateKey) == Ok(Groups(keys, groups))
    {
      var entry := entries[i];
      GroupedSnoc(entries, DateKey, i);
      var dateKey := DateKey(entry);
      if dateKey.None? {
        ErrSticks(entries, DateKey, i + 1);
        return Err(RangeError);
      }
      var existing := if dateKey.value in groups then groups[dateKey.value] else [];
      existing := existing + [entry];
      if dateKey.value !in groups {
        keys := keys + [dateKey.value];
        assert existing == [entry];
      }
      groups := groups[dateKey.value := existing];
      i := i + 1;
    }
    WholePrefix(entries);
    r := Ok(Groups(keys, groups));
  }

  /** `toISOString()` writes the date, a `T` and the time, and the date
      holds no `T`: the first part of the split is the date. */
  lemma DateKeyIsSplit(ms: int)
    requires MinMs <= ms <= MaxMs
    ensures Split(IsoMillis(ms), 'T')[0] == IsoDate(FromMs(ms))
  {
    IsoSplit(FromMs(ms));
  }

  lemma IsoSplit(d: DateTime)
    ensures Split(IsoDateTime(d) + ("." + Pad(d.milli, 3) + "Z"), 'T')[0] == IsoDate(d)
  {
    var date := IsoDate(d);
    var rest := IsoTime(d) + ("." + Pad(d.milli, 3) + "Z");
    assert IsoDateTime(d) + ("." + Pad(d.milli, 3) + "Z") == date + ['T'] + rest;
    NoTInDate(d);
    SplitFirst(date, rest, 'T');
  }

  /** The date part is digits and dashes only. */
  lemma NoTInDate(d: DateTime)
    ensures 'T' !in IsoDate(d)
  {
    var y, m, x := Pad(d.year, 4), Pad(d.month, 2), Pad(d.day, 2);
    PadOnlyDigits(d.year, 4);
    PadOnlyDigits(d.month, 2);
    PadOnlyDigits(d.day, 2);
    assert IsoDate(d) == y + "-" + m + "-" + x;
    assert 'T' !in y && 'T' !in m && 'T' !in x;
  }

  /** Text before the first separator is the first part. */
  lemma SplitFirst(x: string, y: string, c: char)
    requires c !in x
    ensures Split(x + [c] + y, c)[0] == x
  {
    SplitConcat(x, y, c);
    SplitJoin([x], c);
  }

  // ---- getStatsSummary ----

  function TaskIdsOf(es: seq<FileLogEntry>): (r: seq<string>)
    ensures |r| == |es| && forall k :: 0 <= k < |es| ==> r[k] == es[k].taskId
  {
    seq(|es|, k requires 0 <= k < |es| => es[k].taskId)
  }

  /** `new Set(entries.map((e) => e.taskId)).size` */
  function UniqueTasks(es: seq<FileLogEntry>): nat {
    |Distinct(TaskIdsOf(es))|
  }

  predicate AllValid(es: seq<FileLogEntry>) {
    forall k :: 0 <= k < |es| ==> es[k].timestamp.Valid?
  }

  /** `Math.max(...timestamps)` and `Math.min(...timestamps)` of valid times. */
  function Latest(es: seq<FileLogEntry>): int
    requires es != [] && AllValid(es)
    decreases |es|
  {
    var ms := es[|es| - 1].timestamp.ms;
    if |es| == 1 then ms
    else var m := Latest(es[..|es| - 1]); if ms > m then ms else m
  }

  function Earliest(es: seq<FileLogEntry>): int
    requires es != [] && AllValid(es)
    decreases |es|
  {
    var ms := es[|es| - 1].timestamp.ms;
    if |es| == 1 then ms
    else var m := Earliest(es[..|es| - 1]); if ms < m then ms else m
  }

  /** `Math.ceil((newest - oldest) / 86400000)`, with `None` for NaN: an
      invalid time makes both `Math.max` and `Math.min` NaN. */
  function DaysDiff(es: seq<FileLogEntry>): Option<int>
    requires es != []
  {
    if AllValid(es) then
      var span := Latest(es) - Earliest(es);
      Some(if span <= 0 then 0 else (span + MsPerDay - 1) / MsPerDay)
    else None
  }

  /** The opening words of the summary: the entry count and the task count. */
  function SummaryHead(es: seq<FileLogEntry>): string {
    NatToString(|es|) + " event(s) across " + NatToString(UniqueTasks(es)) + " task(s)"
  }

  /** `getStatsSummary`: NaN is not at most 1, so a log with an invalid time
      is summarised over `NaN` days. Otherwise the day count is the number of
      whole days the time span needs, rounded up. */
  function StatsSummary(es: seq<FileLogEntry>): (r: string)
    ensures es == [] ==> r == "No log entries"
    ensures es != [] && AllValid(es) && Latest(es) - Earliest(es) <= MsPerDay ==>
      r == SummaryHead(es) + " today"
    ensures es != [] && !AllValid(es) ==> r == SummaryHead(es) + " over NaN day(s)"
    ensures es != [] && AllValid(es) && Latest(es) - Earliest(es) > MsPerDay ==>
      exists n: nat :: 2 <= n && (n - 1) * MsPerDay < Latest(es) - Earliest(es) <= n * MsPerDay
        && r == SummaryHead(es) + " over " + NatToString(n) + " day(s)"
  {
    if es == [] then "No log entries"
    else
      var days := DaysDiff(es);
      SummaryToday(es);
      if days.Some? && days.value <= 1 then SummaryHead(es) + " today"
      else
        var text := if days.Some? && days.value >= 0 then NatToString(days.value) else "NaN";
        var r := SummaryHead(es) + " over " + text + " day(s)";
        if days.Some? then
          CeilSpan(Latest(es) - Earliest(es));
          assert NatToString(days.value) == text;
          r
        else r
  }

  // ---- properties of the shown entries ----

  /** Without a task id and without `--all` the command refuses to run. */
  lemma NeedsTarget(args: LogArgs, log: seq<FileLogEntry>)
    requires !args.all && !Given(args.id)
    ensures ShownEntries(args, log) == Err(UsageError())
  {
  }

  /** A given limit that is not a number, or is below 1, is refused. */
  lemma RejectsLimit(args: LogArgs, log: seq<FileLogEntry>)
    requires args.all || Given(args.id)
    requires Given(args.limit)
    ensures ShownEntries(args, log).Err? <==>
      ParseIntJs(args.limit.value).None? || ParseIntJs(args.limit.value).value < 1
  {
  }

  /** The entries shown are the first ones of the selected entries sorted
      newest first: as many as the limit says, or all of them. Every one
      is an entry of the log, of the task when an id is given, and the
      times with a value go from latest to earliest. */
  lemma ShownSpec(args: LogArgs, log: seq<FileLogEntry>)
    requires ShownEntries(args, log).Ok?
    ensures var r := ShownEntries(args, log).value;
      var sorted := SortBy(Selected(args, log), NewestFirst);
      multiset(sorted) == multiset(Selected(args, log))
      && r == sorted[..|r|]
      && (!Given(args.limit) ==> |r| == |sorted|)
      && (Given(args.limit) ==> |r| == if ParseIntJs(args.limit.value).value < |sorted| then ParseIntJs(args.limit.value).value else |sorted|)
      && (forall x :: x in r ==> x in log && (!args.all ==> x.taskId == args.id.value))
      && (forall i, j :: 0 <= i < j < |r| && r[i].timestamp.Valid? && r[j].timestamp.Valid? ==>
            r[i].timestamp.ms >= r[j].timestamp.ms)
  {
    var sel := Selected(args, log);
    var r := ShownEntries(args, log).value;
    SelectedSpec(args, log);
    SortByPermutation(sel, NewestFirst);
    SortedPrefix(sel, |r|);
  }

  /** The selected entries come from the log, and from the task's entries
      when an id is given. */
  lemma SelectedSpec(args: LogArgs, log: seq<FileLogEntry>)
    requires args.all || Given(args.id)
    ensures forall x :: x in Selected(args, log) ==> x in log && (!args.all ==> x.taskId == args.id.value)
  {
    if !args.all {
      TaskEntriesSpec(log, args.id.value);
    }
  }

  /** A prefix of the newest-first sort holds entries of the input, latest
      first. */
  lemma SortedPrefix(sel: seq<FileLogEntry>, n: nat)
    requires n <= |sel|
    ensures var sorted := SortBy(sel, NewestFirst);
      multiset(sorted) == multiset(sel) && |sorted| == |sel|
      && (forall x :: x in sorted[..n] ==> x in sel)
      && (forall i, j :: 0 <= i < j < n && sorted[i].timestamp.Valid? && sorted[j].timestamp.Valid? ==>
            sorted[i].timestamp.ms >= sorted[j].timestamp.ms)
  {
    var sorted := SortBy(sel, NewestFirst);
    SortByPermutation(sel, NewestFirst);
    SortBySorted(sel, NewestFirst);
    forall x | x in sorted[..n] ensures x in sel {
      assert x in multiset(sorted);
    }
    forall i, j | 0 <= i < j < n && sorted[i].timestamp.Valid? && sorted[j].timestamp.Valid?
      ensures sorted[i].timestamp.ms >= sorted[j].timestamp.ms
    {
      assert KeyLe(NewestFirst(sorted[i]), NewestFirst(sorted[j]));
    }
  }

  // ---- properties of the grouping ----

  /** The entries of `es` whose key is `k`, in their order. */
  function WithKey(es: seq<FileLogEntry>, key: FileLogEntry -> Option<string>, k: string): (r: seq<FileLogEntry>)
    decreases |es|
  {
    if es == [] then []
    else WithKey(es[..|es| - 1], key, k) + if key(es[|es| - 1]) == Some(k) then [es[|es| - 1]] else []
  }

  predicate AllKeyed(es: seq<FileLogEntry>, key: FileLogEntry -> Option<string>) {
    forall i :: 0 <= i < |es| ==> key(es[i]).Some?
  }

  /** The keys of the entries, in their order. */
  function KeysOf(es: seq<FileLogEntry>, key: FileLogEntry -> Option<string>): (r: seq<string>)
    requires AllKeyed(es, key)
    ensures |r| == |es| && forall i :: 0 <= i < |es| ==> Some(r[i]) == key(es[i])
  {
    seq(|es|, i requires 0 <= i < |es| && AllKeyed(es, key) => key(es[i]).value)
  }

  /** One more entry of the loop. */
  lemma GroupedSnoc(es: seq<FileLogEntry>, key: FileLogEntry -> Option<string>, i: nat)
    requires i < |es|
    ensures var r := Grouped(es[..i], key);
      Grouped(es[..i + 1], key) ==
        if r.Err? then r
        else if key(es[i]).None? then Err(RangeError)
        else Ok(AddEntry(r.value, key(es[i]).value, es[i]))
  {
    assert es[..i + 1][..i] == es[..i];
  }

  /** Once a key is missing, the whole grouping throws `RangeError`. */
  lemma {:induction false} ErrSticks(es: seq<FileLogEntry>, key: FileLogEntry -> Option<string>, n: nat)
    requires 0 < n <= |es| && key(es[n - 1]).None?
    ensures Grouped(es, key) == Err(RangeError)
    decreases |es|
  {
    if n < |es| {
      ErrSticks(es[..|es| - 1], key, n);
    } else {
      GroupedFails(es[..|es| - 1], key);
    }
  }

  /** An entry without a key makes the grouping throw `RangeError`;
      otherwise it succeeds. For `DateKey`, that is an entry whose time
      `toISOString()` rejects. */
  lemma {:induction false} GroupedFails(es: seq<FileLogEntry>, key: FileLogEntry -> Option<string>)
    ensures Grouped(es, key).Err? <==> !AllKeyed(es, key)
    ensures Grouped(es, key).Err? ==> Grouped(es, key).error == RangeError
    decreases |es|
  {
    if es != [] {
      var init := es[..|es| - 1];
      GroupedFails(init, key);
      if !AllKeyed(init, key) {
        var i :| 0 <= i < |init| && key(init[i]).None?;
        assert es[i] == init[i];
      }
      if AllKeyed(es, key) {
        assert forall i :: 0 <= i < |init| ==> init[i] == es[i];
      }
    }
  }

  /** No entry has the key `k` when `k` is none of their keys. */
  lemma {:induction false} WithKeyNone(es: seq<FileLogEntry>, key: FileLogEntry -> Option<string>, k: string)
    requires AllKeyed(es, key) && k !in KeysOf(es, key)
    ensures WithKey(es, key, k) == []
    decreases |es|
  {
    if es != [] {
      var init := es[..|es| - 1];
      assert forall i :: 0 <= i < |init| ==> init[i] == es[i];
      assert KeysOf(es, key) == KeysOf(init, key) + [KeysOf(es, key)[|es| - 1]];
      WithKeyNone(init, key, k);
    }
  }

  /** The groups: one key per date, in the order the dates first occur,
      and under each key exactly the entries of that date in their order.
      So every entry is in exactly one group. */
  lemma {:induction false} GroupedSpec(es: seq<FileLogEntry>, key: FileLogEntry -> Option<string>)
    requires AllKeyed(es, key)
    ensures Grouped(es, key).Ok?
    ensures var g := Grouped(es, key).value;
      g.keys == Distinct(KeysOf(es, key))
      && (forall k :: k in g.byKey <==> k in KeysOf(es, key))
      && (forall k :: k in g.byKey ==> g.byKey[k] == WithKey(es, key, k))
    decreases |es|
  {
    if es != [] {
      var init, e := es[..|es| - 1], es[|es| - 1];
      KeysSnoc(es, key);
      GroupedSpec(init, key);
      var g0 := Grouped(init, key).value;
      var k := key(e).value;
      var ds := KeysOf(init, key);
      SetHas(ds, k);
      if k !in g0.byKey {
        WithKeyNone(init, key, k);
      }
      assert key(e).Some?;
      assert Grouped(es, key) == Ok(AddEntry(g0, k, e));
      SplitLast(es);
      GroupStep(g0, init, key, ds, k, e);
    }
  }

  lemma KeysSnoc(es: seq<FileLogEntry>, key: FileLogEntry -> Option<string>)
    requires es != [] && AllKeyed(es, key)
    ensures var init := es[..|es| - 1];
      AllKeyed(init, key) && KeysOf(es, key) == KeysOf(init, key) + [key(es[|es| - 1]).value]
  {
    var init := es[..|es| - 1];
    assert forall i :: 0 <= i < |init| ==> init[i] == es[i];
  }

  /** `set.has(x)` of a `Set` built from `xs` is membership in `xs`. */
  lemma SetHas(xs: seq<string>, x: string)
    ensures x in Distinct(xs) <==> x in xs
  {
    DistinctMembers(xs);
  }

  lemma GroupStep(g0: Groups, init: seq<FileLogEntry>, key: FileLogEntry -> Option<string>,
                  ds: seq<string>, k: string, e: FileLogEntry)
    requires g0.keys == Distinct(ds)
    requires forall x :: x in g0.byKey <==> x in ds
    requires forall x :: x in g0.byKey ==> g0.byKey[x] == WithKey(init, key, x)
    requires k !in g0.byKey ==> WithKey(init, key, k) == []
    requires key(e) == Some(k)
    ensures var g := AddEntry(g0, k, e);
      g.keys == Distinct(ds + [k])
      && (forall x :: x in g.byKey <==> x in ds + [k])
      && (forall x :: x in g.byKey ==> g.byKey[x] == WithKey(init + [e], key, x))
  {
    var g := AddEntry(g0, k, e);
    assert (ds + [k])[..|ds|] == ds;
    assert (init + [e])[..|init|] == init;
    forall x | x in g.byKey ensures g.byKey[x] == WithKey(init + [e], key, x) {
      if x != k {
        assert WithKey(init + [e], key, x) == WithKey(init, key, x) + [];
      }
    }
  }

  // ---- properties of the summary ----

  /** A `Set` of the task ids holds each once, so its size is the number of
      different task ids, at most one per entry, and at least one for a
      log that is not empty. */
  lemma UniqueTasksSpec(es: seq<FileLogEntry>)
    ensures UniqueTasks(es) == |set k | 0 <= k < |es| :: es[k].taskId|
    ensures UniqueTasks(es) <= |es|
    ensures es != [] ==> UniqueTasks(es) >= 1
  {
    var ids := TaskIdsOf(es);
    DistinctMembers(ids);
    DistinctCard(Distinct(ids));
    assert (set x | x in Distinct(ids)) == (set k | 0 <= k < |es| :: es[k].taskId) by {
      forall x ensures x in Distinct(ids) <==> x in (set k | 0 <= k < |es| :: es[k].taskId) {
        if x in ids {
          var k :| 0 <= k < |ids| && ids[k] == x;
          assert es[k].taskId == x;
        }
      }
    }
    if es != [] {
      assert ids[0] in Distinct(ids);
    }
  }

  /** A list without duplicates has as many elements as its set. */
  lemma {:induction false} DistinctCard(xs: seq<string>)
    requires NoDuplicates(xs)
    ensures |set x | x in xs| == |xs|
    decreases |xs|
  {
    if xs != [] {
      var init, y := xs[..|xs| - 1], xs[|xs| - 1];
      DistinctCard(init);
      SplitLast(xs);
      assert (set x | x in xs) == (set x | x in init) + {y};
      assert y !in (set x | x in init);
    }
  }

  lemma {:induction false} LatestBounds(es: seq<FileLogEntry>)
    requires es != [] && AllValid(es)
    ensures forall k :: 0 <= k < |es| ==> Earliest(es) <= es[k].timestamp.ms <= Latest(es)
    decreases |es|
  {
    if |es| > 1 {
      var init := es[..|es| - 1];
      assert forall k :: 0 <= k < |init| ==> init[k] == es[k];
      LatestBounds(init);
    }
  }

  /** The summary says "today" exactly when all the times are valid and lie
      within one day of each other. */
  lemma SummaryToday(es: seq<FileLogEntry>)
    requires es != []
    ensures (DaysDiff(es).Some? && DaysDiff(es).value <= 1) <==>
      AllValid(es) && Latest(es) - Earliest(es) <= MsPerDay
    ensures DaysDiff(es).Some? ==> DaysDiff(es).value >= 0
  {
    if AllValid(es) {
      LatestBounds(es);
      var span := Latest(es) - Earliest(es);
      assert es[0].timestamp.ms <= Latest(es);
      if span > 0 {
        CeilDays(span);
      }
    }
  }

  /** `Math.ceil(span / 86400000)` is the least whole number of days that
      covers the span. */
  lemma CeilSpan(span: int)
    requires span > 0
    ensures var n := (span + MsPerDay - 1) / MsPerDay;
      (n - 1) * MsPerDay < span <= n * MsPerDay
  {
  }

  lemma CeilDays(span: int)
    requires span > 0
    ensures (span + MsPerDay - 1) / MsPerDay <= 1 <==> span <= MsPerDay
    ensures (span + MsPerDay - 1) / MsPerDay >= 1
  {
  }
}
