/** The subcommands of `simbl ac` that edit a task's acceptance criteria
    (src/cli/commands/ac.ts): `add`, `meets`, `fails`, `update` and
    `delete`. Each finds the task, reads its criteria with
    `parseAcceptanceCriteria`, edits the list and writes it back with
    `updateTaskContent`. */
module AcCommand {
  import opened Wrappers
  import opened JsString
  import opened Tasks
  import opened Parser
  import opened TaskGraph
  import opened Commands
  import opened Criteria

  /** A subcommand with the arguments it reads. */
  datatype AcEdit =
    | Add(rawArgs: seq<string>)
    | Meets(index: string)
    | Fails(index: string)
    | Update(index: string, text: string)
    | Delete(index: string)

  const NoCriteria := "At least one acceptance criterion is required."

  function InvalidIndex(arg: string, n: nat): string {
    "Invalid criterion index \"" + arg + "\". Task has " + NatToString(n) + " criteria."
  }

  // ---- arguments ----

  /** `rawArgs.indexOf(id)`, which is -1 when the id is not there. */
  function ArgIndex(rawArgs: seq<string>, id: string): int {
    if id in rawArgs then FirstIndex(rawArgs, id) else -1
  }

  /** An argument `add` takes as a criterion: neither `--json` nor any
      other flag. */
  predicate IsCriterionText(arg: string) {
    arg != "--json" && !StartsWith(arg, "-")
  }

  /** The criterion texts: the arguments after the task id that are not
      flags. */
  function TextsAfter(rawArgs: seq<string>, id: string): seq<string> {
    Filter(rawArgs[ArgIndex(rawArgs, id) + 1..], IsCriterionText)
  }

  /** The loop of `add` that gathers the criterion texts. */
  method CriteriaTexts(rawArgs: seq<string>, id: string) returns (criteriaTexts: seq<string>)
    ensures criteriaTexts == TextsAfter(rawArgs, id)
  {
    var taskIdIndex := ArgIndex(rawArgs, id);
    var from := taskIdIndex + 1;
    criteriaTexts := [];
    var i := from;
    while i < |rawArgs|
      invariant from <= i <= |rawArgs|
      invariant criteriaTexts == Filter(rawArgs[from..i], IsCriterionText)
    {
      var arg := rawArgs[i];
      assert rawArgs[from..i + 1] == rawArgs[from..i] + [arg];
      FilterPush(rawArgs[from..i], arg, IsCriterionText);
      if arg == "--json" {
      } else if StartsWith(arg, "-") {
      } else {
        criteriaTexts := criteriaTexts + [arg];
      }
      i := i + 1;
    }
    assert rawArgs[from..i] == rawArgs[from..];
  }

  /** The criteria `add` keeps: exactly the arguments after the first
      occurrence of the id that do not start with `-`. */
  lemma TextsAfterMembers(rawArgs: seq<string>, id: string)
    ensures forall a :: a in TextsAfter(rawArgs, id) <==>
      a in rawArgs[ArgIndex(rawArgs, id) + 1..] && !StartsWith(a, "-")
  {
    FilterMembers(rawArgs[ArgIndex(rawArgs, id) + 1..], IsCriterionText);
    assert StartsWith("--json", "-");
  }

  /** The criterion index `parseInt(index, 10)` names, when it is in
      1..n. */
  function Chosen(arg: string, n: nat): Option<nat> {
    match ParseIntJs(arg)
    case None => None
    case Some(v) => if v < 1 || v > n then None else Some(v)
  }

  // ---- the criterion list ----

  /** `criteria.forEach((c, i) => { c.index = i + 1; })` on the list as a
      value. */
  function Renumbered(cs: seq<Criterion>): seq<Criterion> {
    seq(|cs|, k requires 0 <= k < |cs| => cs[k].(index := k + 1))
  }

  /** The re-indexing loop. */
  method Reindex(criteria: seq<Criterion>) returns (r: seq<Criterion>)
    ensures r == Renumbered(criteria)
  {
    r := criteria;
    var i := 0;
    while i < |r|
      invariant 0 <= i <= |r| == |criteria|
      invariant forall k :: 0 <= k < i ==> r[k] == criteria[k].(index := k + 1)
      invariant forall k :: i <= k < |r| ==> r[k] == criteria[k]
    {
      r := r[i := r[i].(index := i + 1)];
      i := i + 1;
    }
  }

  /** The criteria `add` pushes after `n` existing ones, unmet, each with
      the index the list's length gives it. */
  function Unmet(texts: seq<string>, n: nat): seq<Criterion> {
    seq(|texts|, k requires 0 <= k < |texts| => Criterion(n + k + 1, texts[k], false))
  }

  /** The push loop of `add`. */
  method PushAll(criteria: seq<Criterion>, texts: seq<string>) returns (r: seq<Criterion>)
    ensures r == criteria + Unmet(texts, |criteria|)
  {
    r := criteria;
    var i := 0;
    while i < |texts|
      invariant 0 <= i <= |texts|
      invariant r == criteria + Unmet(texts[..i], |criteria|)
    {
      assert Unmet(texts[..i + 1], |criteria|) == Unmet(texts[..i], |criteria|) + [Criterion(|r| + 1, texts[i], false)];
      r := r + [Criterion(|r| + 1, texts[i], false)];
      i := i + 1;
    }
    assert texts[..i] == texts;
  }

  /** `add` on the criteria `cs`: the new ones go after them, unmet, and the
      list is re-indexed. */
  function AddEdit(cs: seq<Criterion>, texts: seq<string>): Result<Option<seq<Criterion>>> {
    if texts == [] then Err(NoCriteria) else Ok(Some(Renumbered(cs + Unmet(texts, |cs|))))
  }

  /** `meets` (`met` true) or `fails` (`met` false): a criterion that is
      already so is left alone and nothing is written. */
  function MarkEdit(cs: seq<Criterion>, arg: string, met: bool): Result<Option<seq<Criterion>>> {
    match Chosen(arg, |cs|)
    case None => Err(InvalidIndex(arg, |cs|))
    case Some(i) => if cs[i - 1].met == met then Ok(None) else Ok(Some(cs[i - 1 := cs[i - 1].(met := met)]))
  }

  /** `update`: the one criterion gets the new text. */
  function TextEdit(cs: seq<Criterion>, arg: string, text: string): Result<Option<seq<Criterion>>> {
    match Chosen(arg, |cs|)
    case None => Err(InvalidIndex(arg, |cs|))
    case Some(i) => Ok(Some(cs[i - 1 := cs[i - 1].(text := text)]))
  }

  /** `delete`: the one criterion is spliced out and the rest re-indexed. */
  function DeleteEdit(cs: seq<Criterion>, arg: string): Result<Option<seq<Criterion>>> {
    match Chosen(arg, |cs|)
    case None => Err(InvalidIndex(arg, |cs|))
    case Some(i) => Ok(Some(Renumbered(cs[..i - 1] + cs[i..])))
  }

  /** The criterion list a subcommand leaves, `None` when it returns without
      writing, or the message it exits with. */
  function Edited(cs: seq<Criterion>, edit: AcEdit, id: string): Result<Option<seq<Criterion>>> {
    match edit
    case Add(rawArgs) => AddEdit(cs, TextsAfter(rawArgs, id))
    case Meets(arg) => MarkEdit(cs, arg, true)
    case Fails(arg) => MarkEdit(cs, arg, false)
    case Update(arg, text) => TextEdit(cs, arg, text)
    case Delete(arg) => DeleteEdit(cs, arg)
  }

  /** What `run` does to the document, or the message it exits with. */
  function AcOutcome(file: SimblFile, id: string, edit: AcEdit): Result<SimblFile> {
    match FirstWithId(AllTasks(file), id)
    case None => Err("Task \"" + id + "\" not found.")
    case Some(k) =>
      var t := AllTasks(file)[k];
      match Edited(CriteriaOf(t.content), edit, id)
      case Err(e) => Err(e)
      case Ok(None) => Ok(file)
      case Ok(Some(cs)) => Ok(Replaced(file, k, t.(content := Rebuilt(t.content, cs))))
  }

  /** The body of `add` after the task is found. */
  method AddCriteria(criteria: seq<Criterion>, rawArgs: seq<string>, id: string) returns (r: Result<Option<seq<Criterion>>>)
    ensures r == AddEdit(criteria, TextsAfter(rawArgs, id))
  {
    var criteriaTexts := CriteriaTexts(rawArgs, id);
    if |criteriaTexts| == 0 {
      return Err(NoCriteria);
    }
    var pushed := PushAll(criteria, criteriaTexts);
    var reindexed := Reindex(pushed);
    r := Ok(Some(reindexed));
  }

  /** The body of `meets` (`met` true) or `fails` (`met` false). */
  method MarkCriterion(criteria: seq<Criterion>, arg: string, met: bool) returns (r: Result<Option<seq<Criterion>>>)
    ensures r == MarkEdit(criteria, arg, met)
  {
    var idx := ParseIntJs(arg);
    if idx.None? || idx.value < 1 || idx.value > |criteria| {
      return Err(InvalidIndex(arg, |criteria|));
    }
    var criterion := criteria[idx.value - 1];
    if criterion.met == met {
      return Ok(None);
    }
    r := Ok(Some(criteria[idx.value - 1 := criterion.(met := met)]));
  }

  /** The body of `update`. */
  method SetText(criteria: seq<Criterion>, arg: string, text: string) returns (r: Result<Option<seq<Criterion>>>)
    ensures r == TextEdit(criteria, arg, text)
  {
    var idx := ParseIntJs(arg);
    if idx.None? || idx.value < 1 || idx.value > |criteria| {
      return Err(InvalidIndex(arg, |criteria|));
    }
    var criterion := criteria[idx.value - 1];
    r := Ok(Some(criteria[idx.value - 1 := criterion.(text := text)]));
  }

  /** The body of `delete`. */
  method DeleteCriterion(criteria: seq<Criterion>, arg: string) returns (r: Result<Option<seq<Criterion>>>)
    ensures r == DeleteEdit(criteria, arg)
  {
    var idx := ParseIntJs(arg);
    if idx.None? || idx.value < 1 || idx.value > |criteria| {
      return Err(InvalidIndex(arg, |criteria|));
    }
    var rest := criteria[..idx.value - 1] + criteria[idx.value..];
    var reindexed := Reindex(rest);
    r := Ok(Some(reindexed));
  }

  /** `run` of the subcommand: a refusal exits before writing, and so does
      a `meets` or `fails` that changes nothing. */
  method Run(doc: TasksFile, id: string, edit: AcEdit) returns (r: Result<()>)
    modifies doc
    ensures var outcome := AcOutcome(old(doc.File()), id, edit);
      r == (if outcome.Ok? then Ok(()) else Err(outcome.error))
      && doc.File() == (if outcome.Ok? then outcome.value else old(doc.File()))
  {
    var file := doc.File();
    var allTasks := AllTasks(file);
    var position := FirstWithId(allTasks, id);
    if position.None? {
      return Err("Task \"" + id + "\" not found.");
    }
    var task := allTasks[position.value];
    var criteria := ParseAcceptanceCriteria(task.content);
    var edited: Result<Option<seq<Criterion>>>;
    match edit {
      case Add(rawArgs) => edited := AddCriteria(criteria, rawArgs, id);
      case Meets(arg) => edited := MarkCriterion(criteria, arg, true);
      case Fails(arg) => edited := MarkCriterion(criteria, arg, false);
      case Update(arg, text) => edited := SetText(criteria, arg, text);
      case Delete(arg) => edited := DeleteCriterion(criteria, arg);
    }
    assert edited == Edited(criteria, edit, id);
    if edited.Err? {
      return Err(edited.error);
    }
    if edited.value.None? {
      return Ok(());
    }
    var newContent := UpdateTaskContent(task.content, edited.value.value);
    doc.SetTask(position.value, task.(content := newContent));
    r := Ok(());
  }

  // ---- properties ----

  /** Renumbering keeps every text and mark in place and numbers the list
      from 1; a list of texts a checkbox line holds is then well formed. */
  lemma RenumberedKeeps(cs: seq<Criterion>)
    ensures var r := Renumbered(cs);
      |r| == |cs| && (forall k :: 0 <= k < |cs| ==> r[k].text == cs[k].text && r[k].met == cs[k].met && r[k].index == k + 1)
      && ((forall k :: 0 <= k < |cs| ==> DotPlus(cs[k].text)) ==> WellFormed(r))
  {
  }

  /** `meets`, `fails`, `update` and `delete` refuse exactly the indices
      that do not parse to a number in 1..n, with the message naming the
      argument and n. */
  lemma IndexRule(cs: seq<Criterion>, edit: AcEdit, id: string)
    requires !edit.Add?
    ensures Edited(cs, edit, id).Err? <==>
      ParseIntJs(edit.index).None? || ParseIntJs(edit.index).value < 1 || ParseIntJs(edit.index).value > |cs|
    ensures Edited(cs, edit, id).Err? ==> Edited(cs, edit, id).error == InvalidIndex(edit.index, |cs|)
  {
  }

  /** `meets` on a met criterion and `fails` on an unmet one write
      nothing; otherwise they flip that one mark and leave every other
      criterion, and the list's numbering, as it was. */
  lemma MarkRule(cs: seq<Criterion>, i: nat, met: bool, arg: string)
    requires Chosen(arg, |cs|) == Some(i) && WellFormed(cs)
    ensures var r := MarkEdit(cs, arg, met);
      r.Ok? && (r.value.None? <==> cs[i - 1].met == met)
      && (r.value.Some? ==>
        var cs' := r.value.value;
        |cs'| == |cs| && cs'[i - 1].met == met && cs'[i - 1].text == cs[i - 1].text
        && (forall k :: 0 <= k < |cs| && k != i - 1 ==> cs'[k] == cs[k]) && WellFormed(cs'))
  {
  }

  /** `update` replaces the one text; the list stays well formed when the
      new text is one a checkbox line holds. */
  lemma UpdateRule(cs: seq<Criterion>, i: nat, arg: string, text: string)
    requires Chosen(arg, |cs|) == Some(i) && WellFormed(cs)
    ensures var r := TextEdit(cs, arg, text);
      r.Ok? && r.value.Some? &&
      var cs' := r.value.value;
      |cs'| == |cs| && cs'[i - 1].text == text && cs'[i - 1].met == cs[i - 1].met
      && (forall k :: 0 <= k < |cs| && k != i - 1 ==> cs'[k] == cs[k])
      && (DotPlus(text) ==> WellFormed(cs'))
  {
  }

  /** `add` refuses when no criterion text is given; otherwise the new
      criteria come after the existing ones, unmet and in argument order,
      and the whole list is numbered 1..n. */
  lemma AddRule(cs: seq<Criterion>, texts: seq<string>)
    requires WellFormed(cs)
    ensures var r := AddEdit(cs, texts);
      (r.Err? <==> texts == []) && (r.Err? ==> r.error == NoCriteria)
      && (r.Ok? ==> r.value.Some?)
      && (r.Ok? ==>
            var cs' := r.value.value;
            |cs'| == |cs| + |texts|
            && (forall k :: 0 <= k < |cs| ==> cs'[k] == cs[k])
            && (forall k :: 0 <= k < |texts| ==> cs'[|cs| + k] == Criterion(|cs| + k + 1, texts[k], false))
            && ((forall k :: 0 <= k < |texts| ==> DotPlus(texts[k])) ==> WellFormed(cs')))
  {
    if texts != [] {
      var all := cs + Unmet(texts, |cs|);
      RenumberedKeeps(all);
      forall k | 0 <= k < |cs| ensures Renumbered(all)[k] == cs[k] {
        assert all[k] == cs[k];
      }
      forall k | 0 <= k < |texts| ensures Renumbered(all)[|cs| + k] == Criterion(|cs| + k + 1, texts[k], false) {
        assert all[|cs| + k] == Unmet(texts, |cs|)[k];
      }
    }
  }

  /** `delete` removes the one criterion; the others keep their texts and
      marks in order and are numbered 1..n-1. */
  lemma DeleteRule(cs: seq<Criterion>, i: nat, arg: string)
    requires Chosen(arg, |cs|) == Some(i) && WellFormed(cs)
    ensures var r := DeleteEdit(cs, arg);
      r.Ok? && r.value.Some? &&
      var cs' := r.value.value;
      |cs'| == |cs| - 1
      && (forall k :: 0 <= k < i - 1 ==> cs'[k] == cs[k])
      && (forall k :: i - 1 <= k < |cs'| ==> cs'[k].text == cs[k + 1].text && cs'[k].met == cs[k + 1].met && cs'[k].index == k + 1)
      && WellFormed(cs')
  {
    var rest := cs[..i - 1] + cs[i..];
    RenumberedKeeps(rest);
    forall k | 0 <= k < i - 1 ensures Renumbered(rest)[k] == cs[k] {
      assert rest[k] == cs[k];
    }
    forall k | i - 1 <= k < |rest| ensures rest[k] == cs[k + 1] {
    }
  }

  /** The subcommand succeeds exactly when a task has the id and the edit
      of its criteria is accepted; it then changes the first such task's
      content and no other task, and the content it writes reads back as
      the edited criteria. */
  lemma OutcomeRule(file: SimblFile, id: string, edit: AcEdit)
    ensures AcOutcome(file, id, edit).Ok? <==>
      id in Ids(AllTasks(file)) && Edited(CriteriaOf(AllTasks(file)[FirstWithId(AllTasks(file), id).value].content), edit, id).Ok?
    ensures AcOutcome(file, id, edit).Ok? ==>
      var k := FirstWithId(AllTasks(file), id).value;
      var t := AllTasks(file)[k];
      var e := Edited(CriteriaOf(t.content), edit, id).value;
      (e.None? ==> AcOutcome(file, id, edit).value == file)
      && (e.Some? ==> AllTasks(AcOutcome(file, id, edit).value) == AllTasks(file)[k := t.(content := Rebuilt(t.content, e.value))])
  {
    if id in Ids(AllTasks(file)) {
      var j :| 0 <= j < |AllTasks(file)| && AllTasks(file)[j].id == id;
    }
  }

  /** What the subcommand writes holds the criteria it computed: parsing the
      new content gives them back. */
  lemma WrittenCriteria(content: string, cs: seq<Criterion>)
    requires cs != [] && WellFormed(cs)
    ensures CriteriaOf(Rebuilt(content, cs)) == cs
  {
    UpdateRoundTrip(content, cs);
  }
}
