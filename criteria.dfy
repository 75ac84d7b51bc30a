/** Acceptance criteria: a checklist section inside a task's content,
    found, read, written and replaced line by line
    (src/cli/commands/ac.ts). */
module Criteria {
  import opened Wrappers
  import opened JsString

  datatype Criterion = Criterion(index: nat, text: string, met: bool)

  /** Lines `[start, end)` of the content: the header line and the body. */
  datatype Span = Span(start: nat, end: nat)

  /** The header the section is written with: H5, as the content shifts
      task headings down. */
  const AcHeader := "##### Acceptance Criteria"

  predicate IsAcHeader(line: string) {
    Trim(line) == "##### Acceptance Criteria" || Trim(line) == "###### Acceptance Criteria"
  }

  /** A heading of any level or a thematic break ends the section. */
  predicate EndsSection(line: string) {
    var t := Trim(line);
    StartsWith(t, "#") || t == "***" || t == "---" || t == "___"
  }

  // ---- findACSection ----

  /** No line is an Acceptance Criteria header. */
  predicate HeaderFree(lines: seq<string>) {
    forall k :: 0 <= k < |lines| ==> !IsAcHeader(lines[k])
  }

  /** The header line and the line that ends the section, or `|lines|`. */
  function SectionIn(lines: seq<string>): (r: Option<Span>)
    ensures r.Some? ==> r.value.start < r.value.end <= |lines|
  {
    var h := FirstFrom(lines, 0, IsAcHeader);
    if h == |lines| then None else Some(Span(h, FirstFrom(lines, h + 1, EndsSection)))
  }

  function Lines(content: string): seq<string> {
    Split(content, '\n')
  }

  /** `findACSection`: the first header line, then the first line after
      it that ends the section. */
  method FindAcSection(content: string) returns (section: Option<Span>)
    ensures section == SectionIn(Lines(content))
  {
    var lines := Split(content, '\n');
    var headerIndex := ScanFor(lines, 0, IsAcHeader);
    if headerIndex == |lines| {
      return None;
    }
    var endIndex := ScanFor(lines, headerIndex + 1, EndsSection);
    section := Some(Span(headerIndex, endIndex));
  }

  /** One of the scans of `findACSection`: the first line from `from` on
      that satisfies `p`, or `|lines|`. */
  method ScanFor(lines: seq<string>, from: nat, p: string -> bool) returns (k: nat)
    requires from <= |lines|
    ensures k == FirstFrom(lines, from, p)
  {
    k := |lines|;
    var i := from;
    while i < |lines|
      invariant from <= i <= |lines|
      invariant FirstFrom(lines, from, p) == FirstFrom(lines, i, p)
      decreases |lines| - i
    {
      if p(lines[i]) {
        k := i;
        break;
      }
      i := i + 1;
    }
  }

  // ---- parseAcceptanceCriteria ----

  /** `/^- \[([ xX])\] (.+)$/` on one line: whether it is checked, and its
      text. */
  function CheckboxOf(line: string): (r: Option<(bool, string)>)
    ensures r.Some? ==> DotPlus(r.value.1)
  {
    if |line| >= 7 && line[..3] == "- [" && (line[3] == ' ' || line[3] == 'x' || line[3] == 'X')
       && line[4..6] == "] " && DotPlus(line[6..])
    then Some((line[3] != ' ', line[6..]))
    else None
  }

  /** The mark of one line, if it is a checkbox. */
  function MarkOf(line: string): seq<(bool, string)> {
    var m := CheckboxOf(line);
    if m.Some? then [m.value] else []
  }

  /** The checkbox lines among `lines`, in order. */
  function Marks(lines: seq<string>): seq<(bool, string)> {
    FlatMap(lines, MarkOf)
  }

  /** The marks numbered from 1. */
  function Numbered(marks: seq<(bool, string)>): (cs: seq<Criterion>)
    ensures |cs| == |marks|
  {
    seq(|marks|, k requires 0 <= k < |marks| => Criterion(k + 1, marks[k].1, marks[k].0))
  }

  function CriteriaIn(lines: seq<string>): seq<Criterion> {
    match SectionIn(lines)
    case None => []
    case Some(s) => Numbered(Marks(lines[s.start + 1..s.end]))
  }

  /** What `parseAcceptanceCriteria` returns. */
  function CriteriaOf(content: string): seq<Criterion> {
    CriteriaIn(Lines(content))
  }

  /** `parseAcceptanceCriteria` */
  method ParseAcceptanceCriteria(content: string) returns (criteria: seq<Criterion>)
    ensures criteria == CriteriaOf(content)
  {
    var section := FindAcSection(content);
    if section.None? {
      return [];
    }
    var lines := Split(content, '\n');
    criteria := Collect(lines, section.value.start + 1, section.value.end);
  }

  /** The loop of `parseAcceptanceCriteria` over the section's body. */
  method Collect(lines: seq<string>, lo: nat, hi: nat) returns (criteria: seq<Criterion>)
    requires lo <= hi <= |lines|
    ensures criteria == Numbered(Marks(lines[lo..hi]))
  {
    criteria := [];
    var index := 1;
    var i := lo;
    assert lines[lo..lo] == [];
    while i < hi
      invariant lo <= i <= hi
      invariant criteria == Numbered(Marks(lines[lo..i])) && index == |criteria| + 1
      decreases hi - i
    {
      var line := lines[i];
      var m := CheckboxOf(line);
      assert lines[lo..i + 1] == lines[lo..i] + [line];
      FlatMapPush(lines[lo..i], line, MarkOf);
      if m.Some? {
        NumberedPush(Marks(lines[lo..i]), m.value);
        criteria := criteria + [Criterion(index, m.value.1, m.value.0)];
        index := index + 1;
      }
      i := i + 1;
    }
  }

  lemma NumberedPush(marks: seq<(bool, string)>, m: (bool, string))
    ensures Numbered(marks + [m]) == Numbered(marks) + [Criterion(|marks| + 1, m.1, m.0)]
  {
  }

  // ---- serializeAcceptanceCriteria ----

  function CheckboxLine(c: Criterion): string {
    "- " + (if c.met then "[x]" else "[ ]") + " " + c.text
  }

  function CheckboxItem(c: Criterion): seq<string> {
    [CheckboxLine(c)]
  }

  /** One checkbox line per criterion, in order. */
  function CheckboxLines(cs: seq<Criterion>): seq<string> {
    FlatMap(cs, CheckboxItem)
  }

  lemma {:induction false} CheckboxLinesAt(cs: seq<Criterion>)
    ensures |CheckboxLines(cs)| == |cs|
    ensures forall k :: 0 <= k < |cs| ==> CheckboxLines(cs)[k] == CheckboxLine(cs[k])
    decreases |cs|
  {
    if cs != [] {
      var init, c := cs[..|cs| - 1], cs[|cs| - 1];
      CheckboxLinesAt(init);
      SplitLast(cs);
      FlatMapPush(init, c, CheckboxItem);
      forall k | 0 <= k < |cs| ensures CheckboxLines(cs)[k] == CheckboxLine(cs[k]) {
        if k < |init| {
          assert CheckboxLines(cs)[k] == CheckboxLines(init)[k];
        }
      }
    }
  }

  /** The section's lines: the header, a blank line, one line each. */
  function SectionLines(cs: seq<Criterion>): seq<string> {
    [AcHeader, ""] + CheckboxLines(cs)
  }

  /** What `serializeAcceptanceCriteria` returns. */
  function Serialized(cs: seq<Criterion>): string {
    if cs == [] then "" else Join(SectionLines(cs), "\n")
  }

  /** `serializeAcceptanceCriteria` */
  method SerializeAcceptanceCriteria(criteria: seq<Criterion>) returns (text: string)
    ensures text == Serialized(criteria)
  {
    if |criteria| == 0 {
      return "";
    }
    var lines := [AcHeader, ""];
    for i := 0 to |criteria|
      invariant lines == [AcHeader, ""] + CheckboxLines(criteria[..i])
    {
      var c := criteria[i];
      var checkbox := if c.met then "[x]" else "[ ]";
      assert criteria[..i + 1] == criteria[..i] + [c];
      FlatMapPush(criteria[..i], c, CheckboxItem);
      lines := lines + ["- " + checkbox + " " + c.text];
    }
    assert criteria[..|criteria|] == criteria;
    text := Join(lines, "\n");
  }

  // ---- updateTaskContent ----

  predicate Blank(line: string) {
    Trim(line) == ""
  }

  function DropTrailingBlank(ls: seq<string>): (r: seq<string>)
    ensures |r| <= |ls| && r == ls[..|r|]
  {
    if ls != [] && Blank(ls[|ls| - 1]) then DropTrailingBlank(ls[..|ls| - 1]) else ls
  }

  function DropLeadingBlank(ls: seq<string>): (r: seq<string>)
    ensures |r| <= |ls| && r == ls[|ls| - |r|..]
  {
    if ls != [] && Blank(ls[0]) then DropLeadingBlank(ls[1..]) else ls
  }

  /** The parts joined into the new content when a section exists: the
      lines before it without trailing blanks, the new section unless it is
      empty, and the lines from its end on without leading blanks, with a
      blank line between. */
  function Parts(before: seq<string>, cs: seq<Criterion>, after: seq<string>): seq<string> {
    WithRest(WithSection(Head(before), cs), after)
  }

  function Head(before: seq<string>): seq<string> {
    if before != [] then [Join(DropTrailingBlank(before), "\n")] else []
  }

  /** `parts` followed by `p`, after a blank part unless `parts` is empty. */
  function Then(parts: seq<string>, p: string): seq<string> {
    parts + (if parts != [] then [""] else []) + [p]
  }

  function WithSection(parts: seq<string>, cs: seq<Criterion>): seq<string> {
    if cs != [] then Then(parts, Serialized(cs)) else parts
  }

  function WithRest(parts: seq<string>, after: seq<string>): seq<string> {
    var rest := DropLeadingBlank(after);
    if rest != [] then Then(parts, Join(rest, "\n")) else parts
  }

  /** What `updateTaskContent` returns. */
  function Rebuilt(content: string, cs: seq<Criterion>): string {
    match SectionIn(Lines(content))
    case None =>
      if cs == [] then content
      else if TrimEnd(content) == "" then Serialized(cs)
      else TrimEnd(content) + "\n\n" + Serialized(cs)
    case Some(s) =>
      var lines := Lines(content);
      Join(Parts(lines[..s.start], cs, lines[s.end..]), "\n")
  }

  /** `updateTaskContent` */
  method UpdateTaskContent(content: string, criteria: seq<Criterion>) returns (r: string)
    ensures r == Rebuilt(content, criteria)
  {
    var section := FindAcSection(content);
    var acText := SerializeAcceptanceCriteria(criteria);
    if section.None? {
      if |criteria| == 0 {
        return content;
      }
      var trimmed := TrimEnd(content);
      if |trimmed| == 0 {
        return acText;
      }
      return trimmed + "\n\n" + acText;
    }
    var lines := Split(content, '\n');
    r := Reassemble(lines[..section.value.start], acText, criteria, lines[section.value.end..]);
  }

  /** The joining of `updateTaskContent` when the section exists. */
  method Reassemble(before: seq<string>, acText: string, criteria: seq<Criterion>, after: seq<string>) returns (r: string)
    requires acText == Serialized(criteria)
    ensures r == Join(Parts(before, criteria, after), "\n")
  {
    var parts: seq<string> := [];
    if |before| > 0 {
      var b := PopBlank(before);
      parts := parts + [Join(b, "\n")];
    }
    assert parts == Head(before);
    ghost var p1 := parts;
    if |criteria| > 0 {
      if |parts| > 0 {
        parts := parts + [""];
      }
      parts := parts + [acText];
      assert parts == Then(p1, acText);
    }
    assert parts == WithSection(p1, criteria);
    ghost var p2 := parts;
    if |after| > 0 {
      var a := ShiftBlank(after);
      if |a| > 0 {
        if |parts| > 0 {
          parts := parts + [""];
        }
        parts := parts + [Join(a, "\n")];
        assert parts == Then(p2, Join(a, "\n"));
      }
    }
    assert parts == WithRest(p2, after);
    r := Join(parts, "\n");
  }

  /** `while (before.length > 0 && before[before.length - 1].trim() === '') before.pop()` */
  method PopBlank(lines: seq<string>) returns (r: seq<string>)
    ensures r == DropTrailingBlank(lines)
  {
    r := lines;
    while |r| > 0 && Trim(r[|r| - 1]) == ""
      invariant DropTrailingBlank(r) == DropTrailingBlank(lines)
      decreases |r|
    {
      r := r[..|r| - 1];
    }
  }

  /** `while (after.length > 0 && after[0].trim() === '') after.shift()` */
  method ShiftBlank(lines: seq<string>) returns (r: seq<string>)
    ensures r == DropLeadingBlank(lines)
  {
    r := lines;
    while |r| > 0 && Trim(r[0]) == ""
      invariant DropLeadingBlank(r) == DropLeadingBlank(lines)
      decreases |r|
    {
      r := r[1..];
    }
  }

  // ---- properties ----

  /** Criteria numbered from 1 whose texts a checkbox line can hold: what
      the parser returns, and what the commands write back. */
  predicate WellFormed(cs: seq<Criterion>) {
    forall k :: 0 <= k < |cs| ==> cs[k].index == k + 1 && DotPlus(cs[k].text)
  }

  /** Every line the parser reads as a criterion yields a well-formed list:
      numbered from 1 in order, with non-empty single-line texts. */
  lemma CriteriaWellFormed(content: string)
    ensures WellFormed(CriteriaOf(content))
  {
    var lines := Lines(content);
    match SectionIn(lines)
    case None =>
    case Some(sec) => MarkTexts(lines[sec.start + 1..sec.end]);
  }

  lemma {:induction false} MarkTexts(lines: seq<string>)
    ensures forall k :: 0 <= k < |Marks(lines)| ==> DotPlus(Marks(lines)[k].1)
    decreases |lines|
  {
    if lines != [] {
      var init, last := lines[..|lines| - 1], lines[|lines| - 1];
      MarkTexts(init);
      assert lines == init + [last];
      FlatMapPush(init, last, MarkOf);
      var m := Marks(lines);
      forall k | 0 <= k < |m| ensures DotPlus(m[k].1) {
        if k < |Marks(init)| {
          assert m[k] == Marks(init)[k];
        }
      }
    }
  }

  /** A checkbox line reads back as the criterion's mark and text. */
  lemma CheckboxRoundTrip(c: Criterion)
    requires DotPlus(c.text)
    ensures CheckboxOf(CheckboxLine(c)) == Some((c.met, c.text))
  {
    var line := CheckboxLine(c);
    assert line[..3] == "- [" && line[4..6] == "] " && line[6..] == c.text;
  }

  /** `[X]` reads as met, and a met criterion is written back with `[x]`. */
  lemma UpperCaseMark(text: string)
    requires DotPlus(text)
    ensures CheckboxOf("- [X] " + text) == Some((true, text))
    ensures CheckboxLine(Criterion(1, text, true)) == "- [x] " + text
  {
    var line := "- [X] " + text;
    assert line[..3] == "- [" && line[3] == 'X' && line[4..6] == "] " && line[6..] == text;
  }

  /** The marks of criteria, as their checkbox lines carry them. */
  function MarksOf(cs: seq<Criterion>): seq<(bool, string)> {
    seq(|cs|, k requires 0 <= k < |cs| => (cs[k].met, cs[k].text))
  }

  lemma {:induction false} MarksOfLines(cs: seq<Criterion>)
    requires forall k :: 0 <= k < |cs| ==> DotPlus(cs[k].text)
    ensures Marks(CheckboxLines(cs)) == MarksOf(cs)
    decreases |cs|
  {
    if cs != [] {
      var init, c := cs[..|cs| - 1], cs[|cs| - 1];
      MarksOfLines(init);
      SplitLast(cs);
      FlatMapPush(init, c, CheckboxItem);
      FlatMapPush(CheckboxLines(init), CheckboxLine(c), MarkOf);
      CheckboxRoundTrip(c);
      assert MarksOf(cs) == MarksOf(init) + [(c.met, c.text)];
    }
  }

  /** A checkbox line neither opens nor ends a section. */
  lemma CheckboxLineKind(c: Criterion)
    requires DotPlus(c.text)
    ensures !IsAcHeader(CheckboxLine(c)) && !EndsSection(CheckboxLine(c))
  {
    var line := CheckboxLine(c);
    assert line[0] == '-' && line[1] == ' ' && line[2] == '[';
    ListItemKind(line);
  }

  /** A line starting `- [` neither opens nor ends a section. */
  lemma ListItemKind(line: string)
    requires |line| >= 3 && line[0] == '-' && line[1] == ' ' && line[2] == '['
    ensures !IsAcHeader(line) && !EndsSection(line)
  {
    assert TrimStart(line) == line;
    TrimEndKeepsChar(line, 2);
    var t := Trim(line);
    assert t[0] == '-' && t[1] == ' ';
  }

  /** A line that ends a section is not blank. */
  lemma EnderNotBlank(line: string)
    requires EndsSection(line)
    ensures !Blank(line)
  {
  }

  /** The header the section is written with, as a value to reason about. */
  lemma Header() returns (h: string)
    ensures h == AcHeader && IsAcHeader(h)
  {
    h := AcHeader;
    HeaderLineKind(h);
  }

  lemma HeaderLineKind(line: string)
    requires line == AcHeader
    ensures IsAcHeader(line)
  {
    TrimKeeps(line);
  }

  /** An empty line neither opens nor ends a section. */
  lemma EmptyLineKind(line: string)
    requires |line| == 0
    ensures !IsAcHeader(line) && !EndsSection(line) && CheckboxOf(line).None?
  {
    assert Trim(line) == line;
  }

  /** A checkbox line holds no newline. */
  lemma CheckboxLineSingle(c: Criterion)
    requires DotPlus(c.text)
    ensures '\n' !in CheckboxLine(c)
  {
    var line := CheckboxLine(c);
    forall i | 0 <= i < |line| ensures line[i] != '\n' {
      if i >= 6 {
        assert line[i] == c.text[i - 6];
      }
    }
  }

  /** The serialised section splits into its lines. */
  lemma SectionSplits(cs: seq<Criterion>)
    requires cs != [] && WellFormed(cs)
    ensures Lines(Serialized(cs)) == SectionLines(cs)
  {
    var ls := SectionLines(cs);
    CheckboxLinesAt(cs);
    forall k | 0 <= k < |ls| ensures '\n' !in ls[k] {
      if k >= 2 {
        assert ls[k] == CheckboxLine(cs[k - 2]);
        CheckboxLineSingle(cs[k - 2]);
      } else {
        assert ls[k] == AcHeader || ls[k] == "";
      }
    }
    SplitJoin(ls, '\n');
  }

  /** The lines after a section that `SectionFirst` allows. */
  predicate AfterSection(post: seq<string>) {
    post == [] || (|post| >= 2 && post[0] == "" && EndsSection(post[1]))
  }

  /** After lines without a header, a new section is the first one, and the
      lines after it, if any, start with a blank line and a line that ends
      the section: so its criteria are exactly those written. */
  lemma SectionFirst(pre: seq<string>, cs: seq<Criterion>, post: seq<string>)
    requires WellFormed(cs)
    requires HeaderFree(pre)
    requires AfterSection(post)
    ensures CriteriaIn(pre + SectionLines(cs) + post) == cs
  {
    var h := HeaderSplit(pre, cs, post);
    var body := BodyParts(cs, post);
    SectionOf(pre + SectionLines(cs) + post, pre, h, body, post);
    NumberedMarks(cs);
  }

  /** The blank line a section is followed by, if anything follows it. */
  function Gap(post: seq<string>): seq<string> {
    post[..if post == [] then 0 else 1]
  }

  /** The lines of a section: its header, then its body. */
  lemma HeaderSplit(pre: seq<string>, cs: seq<Criterion>, post: seq<string>) returns (h: string)
    ensures IsAcHeader(h)
    ensures pre + SectionLines(cs) + post == pre + ([h] + (([""] + CheckboxLines(cs)) + post))
  {
    h := Header();
    SectionLinesSplit(pre, cs, post);
  }

  /** The body of a section: no line of it ends the section, and its marks,
      with the blank line after it, are those of the criteria. */
  lemma BodyParts(cs: seq<Criterion>, post: seq<string>) returns (body: seq<string>)
    requires WellFormed(cs)
    requires AfterSection(post)
    ensures body == [""] + CheckboxLines(cs)
    ensures forall k :: 0 <= k < |body| ==> !EndsSection(body[k])
    ensures Marks(body + Gap(post)) == MarksOf(cs)
  {
    body := [""] + CheckboxLines(cs);
    BodyNoEnder(cs);
    AfterPrefix(post);
    BodyMarks(cs, Gap(post));
  }

  /** The section found after header-free lines, a header and a body that
      does not end it, followed by nothing or by a blank line and a line
      that ends it. */
  lemma SectionOf(lines: seq<string>, pre: seq<string>, h: string, body: seq<string>, post: seq<string>)
    requires lines == pre + ([h] + (body + post)) && IsAcHeader(h)
    requires HeaderFree(pre)
    requires forall k :: 0 <= k < |body| ==> !EndsSection(body[k])
    requires AfterSection(post)
    ensures CriteriaIn(lines) == Numbered(Marks(body + Gap(post)))
  {
    var n := if post == [] then 0 else 1;
    var e := |pre| + 1 + |body| + n;
    HeaderAt(pre, h, body + post);
    EndAt(pre, h, body, post);
    SectionAt(lines, |pre|, e);
    SliceMiddle(lines, pre, h, body, post, n, e);
    CriteriaAt(lines, |pre|, e, body + post[..n]);
  }

  lemma CriteriaAt(lines: seq<string>, h: nat, e: nat, body: seq<string>)
    requires SectionIn(lines) == Some(Span(h, e)) && lines[h + 1..e] == body
    ensures CriteriaIn(lines) == Numbered(Marks(body))
  {
  }

  lemma SectionLinesSplit(pre: seq<string>, cs: seq<Criterion>, post: seq<string>)
    ensures pre + SectionLines(cs) + post == pre + ([AcHeader] + (([""] + CheckboxLines(cs)) + post))
  {
  }

  /** The header after header-free lines is the first one. */
  lemma HeaderAt(pre: seq<string>, h: string, tail: seq<string>)
    requires HeaderFree(pre) && IsAcHeader(h)
    ensures FirstFrom(pre + ([h] + tail), 0, IsAcHeader) == |pre|
  {
    var rest := [h] + tail;
    FirstFromSkip(pre, rest, IsAcHeader);
  }

  /** The section's end: the line after its body, or the end of the lines. */
  lemma EndAt(pre: seq<string>, h: string, body: seq<string>, post: seq<string>)
    requires forall k :: 0 <= k < |body| ==> !EndsSection(body[k])
    requires AfterSection(post)
    ensures FirstFrom(pre + ([h] + (body + post)), |pre| + 1, EndsSection)
      == |pre| + 1 + |body| + if post == [] then 0 else 1
  {
    var rest := [h] + (body + post);
    EndOfAfter(post);
    FirstFromSkip(body, post, EndsSection);
    FirstFromShift([h], body + post, 0, EndsSection);
    FirstFromShift(pre, rest, 1, EndsSection);
  }

  lemma AfterPrefix(post: seq<string>)
    requires AfterSection(post)
    ensures Gap(post) == [] || Gap(post) == [""]
  {
  }

  lemma SectionAt(lines: seq<string>, h: nat, e: nat)
    requires h < |lines| && FirstFrom(lines, 0, IsAcHeader) == h && FirstFrom(lines, h + 1, EndsSection) == e
    ensures SectionIn(lines) == Some(Span(h, e))
  {
  }

  lemma SliceMiddle<T>(xs: seq<T>, a: seq<T>, x: T, b: seq<T>, c: seq<T>, n: nat, e: nat)
    requires xs == a + ([x] + (b + c)) && n <= |c| && e == |a| + 1 + |b| + n
    ensures xs[|a| + 1..e] == b + c[..n]
  {
  }

  /** No line of a section's body ends it. */
  lemma BodyNoEnder(cs: seq<Criterion>)
    requires WellFormed(cs)
    ensures var body := [""] + CheckboxLines(cs); forall k :: 0 <= k < |body| ==> !EndsSection(body[k])
  {
    var body := [""] + CheckboxLines(cs);
    CheckboxLinesAt(cs);
    forall k | 0 <= k < |body| ensures !EndsSection(body[k]) {
      if k == 0 {
        EmptyLineKind(body[k]);
      } else {
        assert body[k] == CheckboxLine(cs[k - 1]);
        CheckboxLineKind(cs[k - 1]);
      }
    }
  }

  /** The lines after a new section end it at once, or there are none. */
  lemma EndOfAfter(post: seq<string>)
    requires AfterSection(post)
    ensures FirstFrom(post, 0, EndsSection) == if post == [] then 0 else 1
  {
    if post != [] {
      EmptyLineKind(post[0]);
      FirstFromIs(post, 0, EndsSection, 1);
    }
  }

  lemma BodyMarks(cs: seq<Criterion>, tail: seq<string>)
    requires forall k :: 0 <= k < |cs| ==> DotPlus(cs[k].text)
    requires tail == [] || tail == [""]
    ensures Marks([""] + CheckboxLines(cs) + tail) == MarksOf(cs)
  {
    var e: string := [];
    var ls := CheckboxLines(cs);
    assert Marks([e]) == [] by {
      FlatMapOne(e, MarkOf);
      EmptyLineKind(e);
    }
    assert Marks(tail) == [] by {
      if tail != [] {
        assert tail == [e];
        FlatMapOne(e, MarkOf);
        EmptyLineKind(e);
      }
    }
    assert Marks(ls) == MarksOf(cs) by {
      MarksOfLines(cs);
    }
    assert Marks([e] + ls) == Marks([e]) + Marks(ls) by {
      FlatMapConcat([e], ls, MarkOf);
    }
    assert Marks([e] + ls + tail) == Marks([e] + ls) + Marks(tail) by {
      FlatMapConcat([e] + ls, tail, MarkOf);
    }
    assert [""] + ls + tail == [e] + ls + tail;
  }

  lemma NumberedMarks(cs: seq<Criterion>)
    requires WellFormed(cs)
    ensures Numbered(MarksOf(cs)) == cs
  {
  }

  /** `serializeAcceptanceCriteria` and `parseAcceptanceCriteria` are
      inverse: the serialised section parses back to the criteria. */
  lemma SerializeRoundTrip(cs: seq<Criterion>)
    requires WellFormed(cs)
    ensures CriteriaOf(Serialized(cs)) == cs
  {
    if cs == [] {
      NothingToParse(Serialized(cs));
    } else {
      SectionSplits(cs);
      SectionAlone(cs);
      ReadBack(Serialized(cs), SectionLines(cs), cs);
    }
  }

  /** The section alone reads back as its criteria. */
  lemma SectionAlone(cs: seq<Criterion>)
    requires WellFormed(cs)
    ensures CriteriaIn(SectionLines(cs)) == cs
  {
    var none: seq<string> := [];
    SectionFirst(none, cs, none);
    NoneAround(SectionLines(cs), none);
  }

  lemma NoneAround<T>(xs: seq<T>, none: seq<T>)
    requires none == []
    ensures none + xs + none == xs
  {
  }

  lemma ReadBack(content: string, lines: seq<string>, cs: seq<Criterion>)
    requires Lines(content) == lines && CriteriaIn(lines) == cs
    ensures CriteriaOf(content) == cs
  {
  }

  /** Empty content holds no criteria. */
  lemma NothingToParse(content: string)
    requires |content| == 0
    ensures CriteriaOf(content) == []
  {
    var lines := Lines(content);
    SplitNothing(content, '\n');
    EmptyLineKind(lines[0]);
    FirstFromIs(lines, 0, IsAcHeader, 1);
  }

  /** Two newlines between two texts make a blank line between their lines. */
  lemma BlankBetween(x: string, y: string)
    ensures Lines(x + "\n\n" + y) == Lines(x) + [""] + Lines(y)
  {
    SplitDouble(x, y, '\n', "\n\n");
  }

  lemma JoinThen(parts: seq<string>, p: string)
    ensures Join(Then(parts, p), "\n") == if parts == [] then p else Join(parts, "\n") + "\n\n" + p
  {
    if parts != [] {
      JoinAppend(parts, "", "\n");
      JoinAppend(parts + [""], p, "\n");
    }
  }

  /** `updateTaskContent` and `parseAcceptanceCriteria` are inverse: after
      the section is replaced by (or, without one, appended as) a non-empty
      list, the content reads back as exactly that list. */
  lemma UpdateRoundTrip(content: string, cs: seq<Criterion>)
    requires cs != [] && WellFormed(cs)
    ensures CriteriaOf(Rebuilt(content, cs)) == cs
  {
    SectionSplits(cs);
    match SectionIn(Lines(content))
    case None =>
      var t := TrimEnd(content);
      if t == "" {
        SerializeRoundTrip(cs);
      } else {
        NoHeaderBeforeTrim(content);
        AppendRoundTrip(t, cs);
      }
    case Some(sec) =>
      ReplaceRoundTrip(Lines(content), sec, cs);
  }

  /** A section appended after text without a header reads back. */
  lemma AppendRoundTrip(t: string, cs: seq<Criterion>)
    requires cs != [] && WellFormed(cs)
    requires Lines(Serialized(cs)) == SectionLines(cs)
    requires HeaderFree(Lines(t))
    ensures CriteriaOf(t + "\n\n" + Serialized(cs)) == cs
  {
    BlankBetween(t, Serialized(cs));
    var pre := Lines(t) + [""];
    forall k | 0 <= k < |pre| ensures !IsAcHeader(pre[k]) {
      if k < |Lines(t)| {
        assert pre[k] == Lines(t)[k];
      } else {
        EmptyLineKind(pre[k]);
      }
    }
    SectionFirst(pre, cs, []);
    assert pre + SectionLines(cs) + [] == Lines(t) + [""] + SectionLines(cs);
  }

  /** A section written in place of the one found reads back. */
  lemma ReplaceRoundTrip(lines: seq<string>, sec: Span, cs: seq<Criterion>)
    requires cs != [] && WellFormed(cs)
    requires Lines(Serialized(cs)) == SectionLines(cs)
    requires forall k :: 0 <= k < |lines| ==> '\n' !in lines[k]
    requires SectionIn(lines) == Some(sec)
    ensures CriteriaOf(Join(Parts(lines[..sec.start], cs, lines[sec.end..]), "\n")) == cs
  {
    SectionBounds(lines, sec);
    PreLinesNoHeader(lines, sec.start);
    HeadLines(lines, sec.start, cs);
    var after := AfterLines(lines, sec.end);
    ReplacedParts(lines[..sec.start], PreLines(lines, sec.start), cs, after);
  }

  /** No header precedes the section found, and the line its end points at,
      if any, ends it. */
  lemma SectionBounds(lines: seq<string>, sec: Span)
    requires SectionIn(lines) == Some(sec)
    ensures forall k :: 0 <= k < sec.start ==> !IsAcHeader(lines[k])
    ensures sec.end < |lines| ==> EndsSection(lines[sec.end])
  {
  }

  /** The lines from a position on, with what is known of the whole. */
  lemma AfterLines(lines: seq<string>, end: nat) returns (after: seq<string>)
    requires end <= |lines|
    requires forall k :: 0 <= k < |lines| ==> '\n' !in lines[k]
    requires end < |lines| ==> EndsSection(lines[end])
    ensures after == lines[end..]
    ensures forall k :: 0 <= k < |after| ==> '\n' !in after[k]
    ensures after != [] ==> EndsSection(after[0])
  {
    after := lines[end..];
    forall k | 0 <= k < |after| ensures '\n' !in after[k] {
      assert after[k] == lines[end + k];
    }
    if after != [] {
      assert after[0] == lines[end];
    }
  }

  /** The parts joined around the new section read back as it. */
  lemma ReplacedParts(before: seq<string>, pre: seq<string>, cs: seq<Criterion>, after: seq<string>)
    requires cs != [] && WellFormed(cs) && HeaderFree(pre)
    requires Lines(Join(WithSection(Head(before), cs), "\n")) == pre + SectionLines(cs)
    requires forall k :: 0 <= k < |after| ==> '\n' !in after[k]
    requires after != [] ==> EndsSection(after[0])
    ensures CriteriaOf(Join(Parts(before, cs, after), "\n")) == cs
  {
    var w := WithSection(Head(before), cs);
    if DropLeadingBlank(after) == [] {
      ReplacedAlone(w, pre, cs);
    } else {
      EnderNotBlank(after[0]);
      ReplacedBefore(w, pre, cs, after);
    }
  }

  /** The new section, with no lines after it, reads back. */
  lemma ReplacedAlone(w: seq<string>, pre: seq<string>, cs: seq<Criterion>)
    requires WellFormed(cs) && HeaderFree(pre)
    requires Lines(Join(w, "\n")) == pre + SectionLines(cs)
    ensures CriteriaOf(Join(w, "\n")) == cs
  {
    var none: seq<string> := [];
    SectionFirst(pre, cs, none);
    NoneAfter(pre + SectionLines(cs), none);
    ReadBack(Join(w, "\n"), pre + SectionLines(cs), cs);
  }

  /** The new section, followed by the lines from the old section's end, reads
      back. */
  lemma ReplacedBefore(w: seq<string>, pre: seq<string>, cs: seq<Criterion>, after: seq<string>)
    requires WellFormed(cs) && HeaderFree(pre) && w != []
    requires Lines(Join(w, "\n")) == pre + SectionLines(cs)
    requires after != [] && EndsSection(after[0]) && !Blank(after[0])
    requires forall k :: 0 <= k < |after| ==> '\n' !in after[k]
    ensures CriteriaOf(Join(WithRest(w, after), "\n")) == cs
  {
    RestLines(w, after);
    RestFirst(pre, cs, after);
    ReadBack(Join(WithRest(w, after), "\n"), Lines(Join(w, "\n")) + [""] + after, cs);
  }

  lemma NoneAfter<T>(xs: seq<T>, none: seq<T>)
    requires none == []
    ensures xs + none == xs
  {
  }

  /** The lines before the new section and the section itself. */
  lemma HeadLines(lines: seq<string>, start: nat, cs: seq<Criterion>)
    requires cs != [] && start <= |lines|
    requires Lines(Serialized(cs)) == SectionLines(cs)
    ensures Lines(Join(WithSection(Head(lines[..start]), cs), "\n")) == PreLines(lines, start) + SectionLines(cs)
  {
    var before := lines[..start];
    JoinThen(Head(before), Serialized(cs));
    if before != [] {
      BlankBetween(Join(DropTrailingBlank(before), "\n"), Serialized(cs));
    }
  }

  /** The lines kept after the old section follow after a blank line. */
  lemma RestLines(w: seq<string>, after: seq<string>)
    requires w != [] && after != [] && !Blank(after[0])
    requires forall k :: 0 <= k < |after| ==> '\n' !in after[k]
    ensures Lines(Join(WithRest(w, after), "\n")) == Lines(Join(w, "\n")) + [""] + after
  {
    assert DropLeadingBlank(after) == after;
    JoinThen(w, Join(after, "\n"));
    BlankBetween(Join(w, "\n"), Join(after, "\n"));
    SplitJoin(after, '\n');
  }

  lemma RestFirst(pre: seq<string>, cs: seq<Criterion>, after: seq<string>)
    requires WellFormed(cs)
    requires HeaderFree(pre)
    requires after != [] && EndsSection(after[0])
    ensures CriteriaIn(pre + SectionLines(cs) + [""] + after) == cs
  {
    SectionFirst(pre, cs, [""] + after);
    assert pre + SectionLines(cs) + ([""] + after) == pre + SectionLines(cs) + [""] + after;
  }

  /** The lines a rebuilt content has before its new section, when the old
      section started at line `start`. */
  function PreLines(lines: seq<string>, start: nat): seq<string>
    requires start <= |lines|
  {
    if start == 0 then [] else Lines(Join(DropTrailingBlank(lines[..start]), "\n")) + [""]
  }

  /** Those lines hold no header when the old section's header was the
      first. */
  lemma PreLinesNoHeader(lines: seq<string>, start: nat)
    requires start <= |lines|
    requires forall k :: 0 <= k < |lines| ==> '\n' !in lines[k]
    requires forall k :: 0 <= k < start ==> !IsAcHeader(lines[k])
    ensures HeaderFree(PreLines(lines, start))
  {
    if start > 0 {
      var kept := DropTrailingBlank(lines[..start]);
      if kept == [] {
        assert Lines("") == [""];
      } else {
        forall k | 0 <= k < |kept| ensures '\n' !in kept[k] {
          assert kept[k] == lines[k];
        }
        SplitJoin(kept, '\n');
      }
      var pre := PreLines(lines, start);
      forall k | 0 <= k < |pre| ensures !IsAcHeader(pre[k]) {
        if kept != [] && k < |kept| {
          assert pre[k] == lines[k];
        } else {
          assert |pre[k]| == 0;
          EmptyLineKind(pre[k]);
        }
      }
    }
  }

  /** Without a header in the content there is none in its lines once its
      trailing white space is trimmed. */
  lemma NoHeaderBeforeTrim(content: string)
    requires SectionIn(Lines(content)).None?
    ensures HeaderFree(Lines(TrimEnd(content)))
  {
    var q := Lines(content);
    assert FirstFrom(q, 0, IsAcHeader) == |q|;
    HeaderFreeTrim(content);
  }

  lemma HeaderFreeTrim(content: string)
    requires HeaderFree(Lines(content))
    ensures HeaderFree(Lines(TrimEnd(content)))
  {
    var t := TrimEnd(content);
    var w := content[|t|..];
    assert content == t + w && AllWhitespace(w) by {
      TrimEndSplit(content);
    }
    var p, q := Lines(t), Lines(content);
    assert Extends(p, q) by {
      SplitAppendWhitespace(t, w, '\n');
    }
    ExtendsTrimAll(p, q);
    SameTrimHeaderFree(p, q);
  }

  /** Lines that trim like header-free ones are header-free. */
  lemma SameTrimHeaderFree(p: seq<string>, q: seq<string>)
    requires |p| <= |q| && HeaderFree(q)
    requires forall k :: 0 <= k < |p| ==> Trim(p[k]) == Trim(q[k])
    ensures HeaderFree(p)
  {
    forall k | 0 <= k < |p| ensures !IsAcHeader(p[k]) {
      assert !IsAcHeader(q[k]);
    }
  }
}
