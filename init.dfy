/** The SIMBL section that `init` writes into a project's instruction file
    (src/cli/commands/init.ts): the marker-delimited block, how text the
    user added inside it is found again, and how an existing block is
    rebuilt around that text. The prompts, the file reads and writes and
    the rest of the command are not part of this model. */
module Init {
  import opened Wrappers
  import opened JsString

  const BeginMarker: string := "<!-- SIMBL:BEGIN -->"
  const EndMarker: string := "<!-- SIMBL:END -->"
  const SectionHeading: string := "## SIMBL"
  /** The last line of the standard block: the end of its code example. */
  const Fence: string := "```"

  /** `hasSimblSection`: the begin marker or the `## SIMBL` heading occurs. */
  predicate HasSimblSection(content: string) {
    Contains(content, BeginMarker) || Contains(content, SectionHeading)
  }

  /** `s || null` for a string: the empty string is falsy. */
  function NonEmpty(s: string): Option<string> {
    if s == [] then None else Some(s)
  }

  /** `s.slice(i, j)` for indices within the string: empty when `j <= i`. */
  function Slice(s: string, i: nat, j: nat): string
    requires i <= |s| && j <= |s|
  {
    if i < j then s[i..j] else []
  }

  /** The second half of `extractUserContent`: the trimmed text after the
      last fence between the markers, or all of it when there is no fence. */
  function UserPart(inner: string): Option<string> {
    NonEmpty(Trim(AfterLastFence(inner)))
  }

  /** The text after the last fence, or all of it when there is none. */
  function AfterLastFence(inner: string): string {
    match LastIndexOf(inner, Fence)
    case None => inner
    case Some(k) => inner[k + |Fence|..]
  }

  /** `extractUserContent`: `None` unless both markers occur with the first
      end marker after the first begin marker. */
  function ExtractUserContent(content: string): (r: Option<string>)
    ensures r.Some? ==>
      IndexOf(content, BeginMarker).Some? && IndexOf(content, EndMarker).Some?
      && IndexOf(content, BeginMarker).value < IndexOf(content, EndMarker).value
  {
    var b := IndexOf(content, BeginMarker);
    var e := IndexOf(content, EndMarker);
    if b.None? || e.None? || e.value <= b.value then None
    else UserPart(Slice(content, b.value + |BeginMarker|, e.value))
  }

  /** The text of the standard block, paragraph by paragraph; the id
      prefix goes in twice, after `Intro` and after `ExampleStart`. */
  const Heading: string := "\n## SIMBL Backlog\n\n"
  const Intro: string :=
    "This project uses SIMBL for task management. "
    + "Run `simbl usage` for all commands. Tasks have a custom prefix: `"
  const DataFiles: string :=
    "-`.\n\n"
    + "**Data files** (in `.simbl/`):\n"
    + "- `tasks.md` - active backlog and done tasks\n"
    + "- `tasks-archive.md` - archived tasks\n"
    + "- `config.yaml` - project configuration\n\n"
  const CommonCommands: string :=
    "**Common commands:**\n"
    + "- `simbl list` - view all tasks\n"
    + "- `simbl add \"title\"` - add a task\n"
    + "- `simbl done <id>` - mark task complete\n\n"
  const Important: string :=
    "**IMPORTANT:** When working on a task, proactively update its description "
    + "with discoveries, surprises, course-corrections, or architectural decisions. Example:\n"
  const ExampleStart: string := "```bash\nsimbl update "
  const ExampleEnd: string := "-1 --append \"### Notes\\nDiscovered that X requires Y...\"\n"

  /** The standard block between the begin marker and the user's text,
      ending with the fence of its code example. */
  function StandardBlock(prefix: string): string {
    Heading + StandardBody(prefix) + Fence
  }

  /** The block without its first line and its final fence. */
  function StandardBody(prefix: string): string {
    Intro + prefix + DataFiles + CommonCommands + Important + ExampleStart + prefix + ExampleEnd
  }

  /** What comes between the block and the end marker: a blank line and the
      user's text when there is any, else just a line break. */
  function Closing(userContent: Option<string>): string {
    if userContent.Some? && userContent.value != [] then "\n\n" + userContent.value + "\n" else "\n"
  }

  /** A section around a block: the begin marker on its own line, the
      block, the closing part and the end marker, ending with a line break. */
  function Section(block: string, userContent: Option<string>): string {
    "\n" + BeginMarker + block + Closing(userContent) + EndMarker + "\n"
  }

  /** `buildSimblSection` */
  function BuildSimblSection(userContent: Option<string>, prefix: string): string {
    Section(StandardBlock(prefix), userContent)
  }

  /** `replaceSimblSection`: without both markers a fresh section is appended;
      otherwise everything from the first begin marker to the end of the
      first end marker is replaced by the trimmed rebuilt section. */
  function ReplaceSimblSection(content: string, prefix: string): string {
    ReplaceSection(content, StandardBlock(prefix))
  }

  // ---- occurrences ----

  /** `p` occurs nowhere in `s`. */
  ghost predicate NoOcc(s: string, p: string) {
    forall k :: !OccursAt(s, p, k)
  }

  /** A text lacking one of the pattern's characters cannot hold it. */
  lemma NoOccByChar(s: string, p: string, j: nat)
    requires j < |p| && p[j] !in s
    ensures NoOcc(s, p)
  {
    forall k | 0 <= k && k + |p| <= |s| ensures !OccursAt(s, p, k) {
      assert s[k..k + |p|][j] == s[k + j];
    }
  }

  /** Two texts without the pattern, joined where one side has a character
      the pattern lacks, hold no occurrence across the join either. */
  lemma NoOccConcat(x: string, y: string, p: string)
    requires NoOcc(x, p) && NoOcc(y, p)
    requires (|x| > 0 && x[|x| - 1] !in p) || (|y| > 0 && y[0] !in p)
    ensures NoOcc(x + y, p)
  {
    var s := x + y;
    forall k | 0 <= k && k + |p| <= |s| ensures !OccursAt(s, p, k) {
      if k + |p| <= |x| {
        ConcatSliceLeft(x, y, k, k + |p|);
        assert !OccursAt(x, p, k);
      } else if k >= |x| {
        ConcatSliceRight(x, y, k, k + |p|);
        assert !OccursAt(y, p, k - |x|);
      } else if |x| > 0 && x[|x| - 1] !in p {
        assert s[k..k + |p|][|x| - 1 - k] == x[|x| - 1];
      } else {
        assert s[k..k + |p|][|x| - k] == y[0];
      }
    }
  }

  /** A slice of a text without the pattern is without it. */
  lemma NoOccSlice(s: string, p: string, i: nat, j: nat)
    requires NoOcc(s, p) && i <= j <= |s|
    ensures NoOcc(s[i..j], p)
  {
    var t := s[i..j];
    forall k | 0 <= k && k + |p| <= |t| ensures !OccursAt(t, p, k) {
      SliceOfSlice(s, i, j, k, k + |p|);
      assert !OccursAt(s, p, i + k);
    }
  }

  /** Trimming keeps a text free of the pattern. */
  lemma NoOccTrim(s: string, p: string)
    requires NoOcc(s, p)
    ensures NoOcc(Trim(s), p)
  {
    var t := TrimStart(s);
    NoOccTrimParts(s, t, TrimEnd(t), |s| - |t|, p);
  }

  /** A pattern missing from a text is missing from a part of a suffix of it. */
  lemma NoOccTrimParts(s: string, t: string, r: string, i: nat, p: string)
    requires NoOcc(s, p) && i <= |s| && t == s[i..] && |r| <= |t| && r == t[..|r|]
    ensures NoOcc(r, p)
  {
    assert s[i..|s|] == t && t[0..|r|] == r;
    NoOccSlice(s, p, i, |s|);
    NoOccSlice(t, p, 0, |r|);
  }

  /** Everything before the first occurrence is free of the pattern. */
  lemma NoOccBefore(s: string, p: string, i: nat, e: nat)
    requires IndexOf(s, p) == Some(e) && i <= e && |p| > 0
    ensures NoOcc(s[i..e], p)
  {
    var t := s[i..e];
    forall k | 0 <= k && k + |p| <= |t| ensures !OccursAt(t, p, k) {
      SliceOfSlice(s, i, e, k, k + |p|);
      assert !OccursAt(s, p, i + k);
    }
  }

  /** The pattern placed after a text without it, across a join the pattern
      cannot span, is its first occurrence. */
  lemma FirstAt(x: string, p: string, y: string)
    requires NoOcc(x, p) && |x| > 0 && x[|x| - 1] !in p
    ensures IndexOf(x + p + y, p) == Some(|x|)
  {
    var s := x + p + y;
    MiddleOf(x, p, y);
    assert OccursAt(s, p, |x|);
    forall k | 0 <= k < |x| ensures !OccursAt(s, p, k) {
      if k + |p| <= |x| {
        ConcatSliceLeft(x, p + y, k, k + |p|);
        assert s == x + (p + y);
        assert !OccursAt(x, p, k);
      } else if k + |p| <= |s| {
        assert s[k..k + |p|][|x| - 1 - k] == x[|x| - 1];
      }
    }
  }

  /** The pattern placed before a text without it, across a join the
      pattern cannot span, is its last occurrence. */
  lemma LastAt(x: string, p: string, y: string)
    requires NoOcc(y, p) && |y| > 0 && y[0] !in p
    ensures LastIndexOf(x + p + y, p) == Some(|x|)
  {
    var s := x + p + y;
    MiddleOf(x, p, y);
    assert OccursAt(s, p, |x|);
    forall k | |x| < k ensures !OccursAt(s, p, k) {
      if k + |p| <= |s| {
        if k < |x| + |p| {
          assert s[k..k + |p|][|x| + |p| - k] == y[0];
        } else {
          ConcatSliceRight(x + p, y, k, k + |p|);
          assert !OccursAt(y, p, k - |x| - |p|);
        }
      }
    }
  }

  /** Between such joins the pattern occurs exactly once. */
  lemma OnlyAt(x: string, p: string, y: string)
    requires NoOcc(x, p) && |x| > 0 && x[|x| - 1] !in p
    requires NoOcc(y, p) && |y| > 0 && y[0] !in p
    ensures forall i :: OccursAt(x + p + y, p, i) <==> i == |x|
  {
    FirstAt(x, p, y);
    LastAt(x, p, y);
  }

  /** A text that agrees with another up to the end of the other's first
      occurrence has its first occurrence at the same place. */
  lemma AgreeFirst(s: string, t: string, p: string, i: nat)
    requires IndexOf(t, p) == Some(i) && i + |p| <= |s|
    requires s[..i + |p|] == t[..i + |p|]
    ensures IndexOf(s, p) == Some(i)
  {
    var n := i + |p|;
    forall k | 0 <= k <= i ensures OccursAt(s, p, k) <==> OccursAt(t, p, k) {
      SliceOfSlice(s, 0, n, k, k + |p|);
      SliceOfSlice(t, 0, n, k, k + |p|);
      assert s[0..n] == s[..n] && t[0..n] == t[..n];
    }
  }

  // ---- the section around a block ----

  /** No character of the begin marker after its first is a `<`, so the end
      marker cannot start inside it. */
  lemma MarkersApart(content: string, b: nat, e: nat)
    requires OccursAt(content, BeginMarker, b) && OccursAt(content, EndMarker, e) && b < e
    ensures b + |BeginMarker| <= e
  {
    assert content[e] == content[e..e + |EndMarker|][0];
    forall j | b < j < b + |BeginMarker| && j < |content| ensures content[j] != '<' {
      assert content[j] == content[b..b + |BeginMarker|][j - b];
    }
  }

  /** The begin marker has no `D`, which the end marker has. */
  lemma EndNotInBegin()
    ensures NoOcc(BeginMarker, EndMarker)
  {
    NoOccByChar(BeginMarker, EndMarker, 13);
  }

  lemma LineBreaks()
    ensures '\n' !in BeginMarker && '\n' !in EndMarker && '\n' !in Fence
  {
  }

  lemma BacktickNotInEnd()
    ensures '`' !in EndMarker
  {
  }

  /** Regroupings of a section's parts, over plain parameters. */
  lemma SectionRegroup(n: string, b: string, k: string, c: string, e: string)
    ensures n + b + k + c + e + n == n + (b + k + c + e + n)
    ensures n + b + k + c + e + n == n + (b + k + c + e) + n
    ensures n + b + k + c + e + n == n + b + (k + c + e + n)
    ensures n + b + k + c + e + n == n + b + (k + c) + (e + n)
    ensures n + b + k + c == n + b + (k + c)
  {
  }

  /** Regroupings of a text with a section spliced in, over plain parameters. */
  lemma SpliceRegroup(x: string, b: string, k: string, c: string, e: string, y: string)
    ensures x + (b + k + c + e) + y == x + b + (k + c + e + y)
    ensures x + (b + k + c + e) + y == x + (b + k + c) + e + y
    ensures x + (b + k + c + e) + y == x + b + (k + c) + (e + y)
    ensures x + (b + k + c + e) + y == x + (b + k + c + e + y)
  {
  }

  /** What the proofs need of a block: no end marker, a line break first
      and the fence last. */
  ghost predicate BlockShape(block: string) {
    NoOcc(block, EndMarker) && |block| >= |Fence| && block[0] == '\n' && block[|block| - |Fence|..] == Fence
  }

  /** The standard block starts with a line break and ends with the fence. */
  lemma StandardShape(prefix: string)
    requires NoOcc(StandardBlock(prefix), EndMarker)
    ensures BlockShape(StandardBlock(prefix))
  {
    Framed(Heading, StandardBody(prefix), Fence);
    assert Heading[0] == '\n';
  }

  /** The first character and the last part of a text built from three. */
  lemma Framed(h: string, m: string, f: string)
    requires |h| > 0
    ensures var s := h + m + f; s[0] == h[0] && |s| >= |f| && s[|s| - |f|..] == f
  {
    var s := h + m + f;
    ConcatSliceRight(h + m, f, |h + m|, |s|);
  }

  /** A text starting and ending with other than white space, on a line of
      its own, trims back to itself. */
  lemma TrimLine(m: string)
    requires m != [] && !IsWhitespace(m[0]) && !IsWhitespace(m[|m| - 1])
    ensures Trim("\n" + m + "\n") == m
  {
    assert "\n" + m + "\n" == "\n" + (m + "\n");
    TrimStartSkip("\n", m + "\n");
    TrimEndSkip(m, "\n");
    TrimKeeps(m);
  }

  /** The closing part holds the pattern only if the user's text does. */
  lemma ClosingFacts(u: Option<string>, p: string)
    requires |p| > 2 && '\n' !in p
    requires u.Some? ==> NoOcc(u.value, p)
    ensures var c := Closing(u); NoOcc(c, p) && |c| > 0 && c[0] == '\n' && c[|c| - 1] == '\n'
  {
    if u.Some? && u.value != [] {
      assert NoOcc("\n\n", p);
      NoOccConcat("\n\n", u.value, p);
      assert NoOcc("\n", p);
      NoOccConcat("\n\n" + u.value, "\n", p);
    } else {
      assert NoOcc("\n", p);
    }
  }

  /** A trimmed, non-empty text between line breaks trims back to itself. */
  lemma TrimPadded(u: string)
    requires u != [] && Trim(u) == u
    ensures Trim("\n\n" + u + "\n") == u
  {
    var v := u + "\n";
    assert "\n\n" + u + "\n" == "\n\n" + v;
    TrimStartSkip("\n\n", v);
    TrimEndSkip(u, "\n");
  }

  /** The text after a block's final fence is the user's text. */
  lemma UserPartOfBlock(block: string, u: Option<string>)
    requires |block| >= |Fence| && block[|block| - |Fence|..] == Fence
    requires u.Some? ==> NoOcc(u.value, Fence) && Trim(u.value) == u.value
    ensures UserPart(block + Closing(u)) == if u.Some? && u.value != [] then u else None
  {
    var s0 := block[..|block| - |Fence|];
    var c := Closing(u);
    ClosingFacts(u, Fence);
    assert block == s0 + Fence;
    assert block + c == s0 + Fence + c;
    LastAt(s0, Fence, c);
    ConcatSliceRight(s0 + Fence, c, |s0| + |Fence|, |block + c|);
    if u.Some? && u.value != [] {
      TrimPadded(u.value);
    }
  }

  /** `trim()` of a section drops exactly its first and last line breaks. */
  lemma TrimSection(block: string, u: Option<string>)
    ensures Trim(Section(block, u)) == BeginMarker + block + Closing(u) + EndMarker
  {
    var c := Closing(u);
    SectionRegroup("\n", BeginMarker, block, c, EndMarker);
    var m := BeginMarker + block + c + EndMarker;
    Framed(BeginMarker + block, c, EndMarker);
    assert m[0] == BeginMarker[0] == '<';
    assert m[|m| - 1] == EndMarker[|EndMarker| - 1] == '>';
    TrimLine(m);
  }

  /** In a section the begin marker occurs first right after its first line
      break. */
  lemma SectionBegin(block: string, u: Option<string>)
    ensures IndexOf(Section(block, u), BeginMarker) == Some(1)
  {
    LineBreaks();
    SectionRegroup("\n", BeginMarker, block, Closing(u), EndMarker);
    assert NoOcc("\n", BeginMarker);
    FirstAt("\n", BeginMarker, block + Closing(u) + EndMarker + "\n");
  }

  /** In a section around a block without the begin marker, starting with a
      line break, and a text without it, the begin marker occurs exactly
      once, right after the first line break. */
  lemma SectionBeginOnce(block: string, u: Option<string>)
    requires |block| > 0 && block[0] == '\n' && NoOcc(block, BeginMarker)
    requires u.Some? ==> NoOcc(u.value, BeginMarker)
    ensures forall i :: OccursAt(Section(block, u), BeginMarker, i) <==> i == 1
  {
    var c := Closing(u);
    LineBreaks();
    ClosingFacts(u, BeginMarker);
    NoOccByChar(EndMarker, BeginMarker, 13);
    assert NoOcc("\n", BeginMarker);
    NoOccConcat(block, c, BeginMarker);
    NoOccConcat(block + c, EndMarker, BeginMarker);
    NoOccConcat(block + c + EndMarker, "\n", BeginMarker);
    SectionRegroup("\n", BeginMarker, block, c, EndMarker);
    OnlyAt("\n", BeginMarker, block + c + EndMarker + "\n");
  }

  /** In a section around a block without the end marker and a text without
      it, the end marker occurs exactly once, right before the final line
      break. */
  lemma SectionEnd(block: string, u: Option<string>)
    requires BlockShape(block)
    requires u.Some? ==> NoOcc(u.value, EndMarker)
    ensures var r := Section(block, u);
      |r| >= |EndMarker| + 1 && IndexOf(r, EndMarker) == Some(|r| - |EndMarker| - 1)
      && forall i :: OccursAt(r, EndMarker, i) <==> i == |r| - |EndMarker| - 1
  {
    var c := Closing(u);
    EndNotInBegin();
    LineBreaks();
    ClosingFacts(u, EndMarker);
    var x := "\n" + BeginMarker + block + c;
    assert NoOcc("\n", EndMarker);
    NoOccConcat("\n", BeginMarker, EndMarker);
    NoOccConcat("\n" + BeginMarker, block, EndMarker);
    NoOccConcat("\n" + BeginMarker + block, c, EndMarker);
    FirstAt(x, EndMarker, "\n");
    OnlyAt(x, EndMarker, "\n");
  }

  /** Between the two markers of a section stand the block and the closing
      part. */
  lemma SectionInner(block: string, u: Option<string>)
    ensures var r := Section(block, u);
      1 + |BeginMarker| <= |r| - |EndMarker| - 1
      && Slice(r, 1 + |BeginMarker|, |r| - |EndMarker| - 1) == block + Closing(u)
  {
    var c := Closing(u);
    SectionRegroup("\n", BeginMarker, block, c, EndMarker);
    MiddleOf("\n" + BeginMarker, block + c, EndMarker + "\n");
    assert |Closing(u)| > 0;
  }

  // ---- replacing the section of a text ----

  /** `replaceSimblSection` with the block as a parameter. */
  function ReplaceSection(content: string, block: string): string {
    var b := IndexOf(content, BeginMarker);
    var e := IndexOf(content, EndMarker);
    if b.None? || e.None? then TrimEnd(content) + "\n" + Section(block, None)
    else content[..b.value] + Trim(Section(block, ExtractUserContent(content))) + content[e.value + |EndMarker|..]
  }

  /** The text with the section of `block` and `u` spliced in place of the
      one from `b` to the end of the end marker at `e`. */
  function Splice(content: string, b: nat, e: nat, block: string, u: Option<string>): string
    requires b <= |content| && e + |EndMarker| <= |content|
  {
    content[..b] + (BeginMarker + block + Closing(u) + EndMarker) + content[e + |EndMarker|..]
  }

  /** Where the section of a text lies: its first begin marker before its
      first end marker. */
  predicate MarkersInOrder(content: string, b: nat, e: nat) {
    IndexOf(content, BeginMarker) == Some(b) && IndexOf(content, EndMarker) == Some(e) && b < e
  }

  /** With both markers the text before the first begin marker and after
      the first end marker stays as it was, and between them stand the
      begin marker, the block, the user's text found there and the end
      marker. */
  lemma ReplaceKeeps(content: string, block: string)
    requires IndexOf(content, BeginMarker).Some? && IndexOf(content, EndMarker).Some?
    ensures var b, e := IndexOf(content, BeginMarker).value, IndexOf(content, EndMarker).value;
      b <= |content| && e + |EndMarker| <= |content|
      && ReplaceSection(content, block) == Splice(content, b, e, block, ExtractUserContent(content))
  {
    TrimSection(block, ExtractUserContent(content));
  }

  /** After the splice the first begin marker is where it was, and so is
      the text before it. */
  lemma SpliceBegin(content: string, b: nat, e: nat, block: string, u: Option<string>)
    requires MarkersInOrder(content, b, e)
    ensures b <= |content| && e + |EndMarker| <= |content|
    ensures var r := Splice(content, b, e, block, u);
      IndexOf(r, BeginMarker) == Some(b) && r[..b] == content[..b]
  {
    MarkersApart(content, b, e);
    var c := Closing(u);
    var before, after := content[..b], content[e + |EndMarker|..];
    var r := Splice(content, b, e, block, u);
    SpliceRegroup(before, BeginMarker, block, c, EndMarker, after);
    assert r[..b + |BeginMarker|] == content[..b + |BeginMarker|] by {
      ConcatSliceLeft(before + BeginMarker, block + c + EndMarker + after, 0, b + |BeginMarker|);
      assert content[..b + |BeginMarker|] == before + content[b..b + |BeginMarker|];
    }
    AgreeFirst(r, content, BeginMarker, b);
    ConcatSliceLeft(before, BeginMarker + block + c + EndMarker + after, 0, b);
  }

  /** Before the new end marker the spliced text holds no end marker. */
  lemma SpliceNoEnd(content: string, b: nat, e: nat, block: string, u: Option<string>)
    requires MarkersInOrder(content, b, e) && BlockShape(block)
    requires u.Some? ==> NoOcc(u.value, EndMarker)
    ensures b <= |content|
    ensures var t0 := BeginMarker + block + Closing(u);
      NoOcc(content[..b] + t0, EndMarker) && content[..b] + t0 != []
      && (content[..b] + t0)[|content[..b] + t0| - 1] !in EndMarker
  {
    MarkersApart(content, b, e);
    var c := Closing(u);
    var t0 := BeginMarker + block + c;
    EndNotInBegin();
    LineBreaks();
    ClosingFacts(u, EndMarker);
    NoOccConcat(BeginMarker, block, EndMarker);
    NoOccConcat(BeginMarker + block, c, EndMarker);
    assert t0[..|BeginMarker|] == BeginMarker by {
      assert t0 == BeginMarker + (block + c);
    }
    NoEndBefore(content, b, e, t0);
    LastChar(BeginMarker + block, c);
    LastChar(content[..b], t0);
  }

  /** The last character of a concatenation is that of its non-empty right part. */
  lemma LastChar(x: string, y: string)
    requires y != []
    ensures x + y != [] && (x + y)[|x + y| - 1] == y[|y| - 1]
  {
  }

  /** After the splice the first end marker is the new one. */
  lemma SpliceEnd(content: string, b: nat, e: nat, block: string, u: Option<string>)
    requires MarkersInOrder(content, b, e) && BlockShape(block)
    requires u.Some? ==> NoOcc(u.value, EndMarker)
    ensures b <= |content| && e + |EndMarker| <= |content|
    ensures IndexOf(Splice(content, b, e, block, u), EndMarker) == Some(b + |BeginMarker + block + Closing(u)|)
  {
    MarkersApart(content, b, e);
    var c := Closing(u);
    var before, after := content[..b], content[e + |EndMarker|..];
    SpliceRegroup(before, BeginMarker, block, c, EndMarker, after);
    SpliceNoEnd(content, b, e, block, u);
    FirstAt(before + (BeginMarker + block + c), EndMarker, after);
  }

  /** After the splice the text after the new end marker is what came after
      the old one. */
  lemma SpliceAfter(content: string, b: nat, e: nat, block: string, u: Option<string>)
    requires b <= |content| && e + |EndMarker| <= |content|
    ensures var r, n := Splice(content, b, e, block, u), b + |BeginMarker + block + Closing(u)|;
      n + |EndMarker| <= |r| && r[n + |EndMarker|..] == content[e + |EndMarker|..]
  {
    var c := Closing(u);
    var t0 := BeginMarker + block + c;
    var before, after := content[..b], content[e + |EndMarker|..];
    SpliceRegroup(before, BeginMarker, block, c, EndMarker, after);
    ConcatSliceRight(before + t0 + EndMarker, after, b + |t0| + |EndMarker|, |before + t0 + EndMarker + after|);
  }

  /** Where the markers are decides what is extracted. */
  lemma ExtractAt(r: string, b: nat, n: nat, inner: string)
    requires IndexOf(r, BeginMarker) == Some(b) && IndexOf(r, EndMarker) == Some(n) && b + |BeginMarker| <= n
    requires Slice(r, b + |BeginMarker|, n) == inner
    ensures ExtractUserContent(r) == UserPart(inner)
  {
    var i, j := IndexOf(r, BeginMarker).value + |BeginMarker|, IndexOf(r, EndMarker).value;
    assert ExtractUserContent(r) == UserPart(Slice(r, i, j));
    assert i == b + |BeginMarker| && j == n;
  }

  /** Extracting from the spliced text gives back the user's text. */
  lemma ExtractSplice(content: string, b: nat, e: nat, block: string, u: Option<string>)
    requires MarkersInOrder(content, b, e) && BlockShape(block)
    requires u.Some? ==> NoOcc(u.value, EndMarker) && NoOcc(u.value, Fence) && Trim(u.value) == u.value
    ensures b <= |content| && e + |EndMarker| <= |content|
    ensures ExtractUserContent(Splice(content, b, e, block, u)) == if u.Some? && u.value != [] then u else None
  {
    SpliceMarkers(content, b, e, block, u);
    ExtractOfParts(Splice(content, b, e, block, u), b, b + |BeginMarker + block + Closing(u)|, block, u);
  }

  /** Where the markers of the spliced text are, and what they enclose. */
  lemma SpliceMarkers(content: string, b: nat, e: nat, block: string, u: Option<string>)
    requires MarkersInOrder(content, b, e) && BlockShape(block)
    requires u.Some? ==> NoOcc(u.value, EndMarker)
    ensures b <= |content| && e + |EndMarker| <= |content|
    ensures var r, n := Splice(content, b, e, block, u), b + |BeginMarker + block + Closing(u)|;
      IndexOf(r, BeginMarker) == Some(b) && IndexOf(r, EndMarker) == Some(n)
      && b + |BeginMarker| <= n <= |r| && Slice(r, b + |BeginMarker|, n) == block + Closing(u)
  {
    SpliceBegin(content, b, e, block, u);
    SpliceEnd(content, b, e, block, u);
    SpliceInner(content, b, e, block, u);
  }

  /** After the splice the block and the closing part stand between the
      markers. */
  lemma SpliceInner(content: string, b: nat, e: nat, block: string, u: Option<string>)
    requires b <= |content| && e + |EndMarker| <= |content|
    ensures var r, n := Splice(content, b, e, block, u), b + |BeginMarker + block + Closing(u)|;
      b + |BeginMarker| <= n <= |r| && Slice(r, b + |BeginMarker|, n) == block + Closing(u)
  {
    var c := Closing(u);
    var before, after := content[..b], content[e + |EndMarker|..];
    SpliceRegroup(before, BeginMarker, block, c, EndMarker, after);
    MiddleOf(before + BeginMarker, block + c, EndMarker + after);
    assert |Closing(u)| > 0;
  }

  /** The text before the first begin marker followed by a new section that
      starts with that marker holds no end marker before the section's
      own, when the first end marker came later. */
  lemma NoEndBefore(content: string, b: nat, e: nat, t0: string)
    requires IndexOf(content, EndMarker) == Some(e) && OccursAt(content, BeginMarker, b) && b + |BeginMarker| <= e
    requires |t0| >= |BeginMarker| && t0[..|BeginMarker|] == BeginMarker && NoOcc(t0, EndMarker)
    ensures NoOcc(content[..b] + t0, EndMarker)
  {
    var s := content[..b] + t0;
    var n := b + |BeginMarker|;
    assert s[..n] == content[..n] by {
      ConcatSliceLeft(content[..b] + t0[..|BeginMarker|], t0[|BeginMarker|..], 0, n);
      assert s == content[..b] + t0[..|BeginMarker|] + t0[|BeginMarker|..];
      assert content[..n] == content[..b] + content[b..n];
    }
    forall k | 0 <= k && k + |EndMarker| <= |s| ensures !OccursAt(s, EndMarker, k) {
      if k + |EndMarker| <= n {
        SliceOfSlice(s, 0, n, k, k + |EndMarker|);
        SliceOfSlice(content, 0, n, k, k + |EndMarker|);
        assert s[0..n] == s[..n] && content[0..n] == content[..n];
        assert !OccursAt(content, EndMarker, k);
      } else {
        ConcatSliceRight(content[..b], t0, k, k + |EndMarker|);
        assert !OccursAt(t0, EndMarker, k - b);
      }
    }
  }

  // ---- properties ----

  /** A section is recognised exactly when either marker text occurs. */
  lemma HasSectionIff(content: string)
    ensures HasSimblSection(content) <==>
      (exists i :: OccursAt(content, BeginMarker, i)) || (exists i :: OccursAt(content, SectionHeading, i))
  {
    if IndexOf(content, BeginMarker).Some? {
      assert OccursAt(content, BeginMarker, IndexOf(content, BeginMarker).value);
    }
    if IndexOf(content, SectionHeading).Some? {
      assert OccursAt(content, SectionHeading, IndexOf(content, SectionHeading).value);
    }
  }

  /** Without both markers, or with the first end marker not after the
      first begin marker, there is no user content. */
  lemma ExtractNeedsMarkers(content: string)
    requires (forall i :: !OccursAt(content, BeginMarker, i)) || (forall i :: !OccursAt(content, EndMarker, i))
      || (IndexOf(content, BeginMarker).Some? && IndexOf(content, EndMarker).Some?
          && IndexOf(content, EndMarker).value <= IndexOf(content, BeginMarker).value)
    ensures ExtractUserContent(content) == None
  {
    if IndexOf(content, BeginMarker).Some? {
      assert OccursAt(content, BeginMarker, IndexOf(content, BeginMarker).value);
    }
    if IndexOf(content, EndMarker).Some? {
      assert OccursAt(content, EndMarker, IndexOf(content, EndMarker).value);
    }
  }

  /** The text after the last fence holds no fence, and no pattern the
      whole text lacks. */
  lemma AfterLastFenceShape(inner: string, p: string)
    requires NoOcc(inner, p)
    ensures NoOcc(AfterLastFence(inner), Fence) && NoOcc(AfterLastFence(inner), p)
  {
    match LastIndexOf(inner, Fence)
    case None =>
    case Some(k) =>
      var rest := inner[k + |Fence|..];
      NoOccSlice(inner, p, k + |Fence|, |inner|);
      assert inner[k + |Fence|..|inner|] == rest;
      forall j | 0 <= j && j + |Fence| <= |rest| ensures !OccursAt(rest, Fence, j) {
        SliceOfSlice(inner, k + |Fence|, |inner|, j, j + |Fence|);
        assert !OccursAt(inner, Fence, k + |Fence| + j);
      }
  }

  /** The part `UserPart` keeps is non-empty and trimmed, and lacks the
      fence and every pattern the inner text lacks. */
  lemma InnerShape(inner: string, p: string)
    requires NoOcc(inner, p)
    ensures var r := UserPart(inner);
      r.Some? ==> r.value != [] && Trim(r.value) == r.value && NoOcc(r.value, Fence) && NoOcc(r.value, p)
  {
    var rest := AfterLastFence(inner);
    AfterLastFenceShape(inner, p);
    NoOccTrim(rest, Fence);
    NoOccTrim(rest, p);
    if Trim(rest) != [] {
      TrimKeeps(Trim(rest));
    }
  }

  /** What is found is non-empty and trimmed, and it holds neither a fence
      (it comes after the last one) nor the end marker (it comes before the
      first one). */
  lemma ExtractShape(content: string)
    ensures var r := ExtractUserContent(content);
      r.Some? ==>
        r.value != [] && Trim(r.value) == r.value && NoOcc(r.value, Fence) && NoOcc(r.value, EndMarker)
  {
    var r := ExtractUserContent(content);
    if r.Some? {
      var b := IndexOf(content, BeginMarker).value;
      var e := IndexOf(content, EndMarker).value;
      MarkersApart(content, b, e);
      var inner := content[b + |BeginMarker|..e];
      assert Slice(content, b + |BeginMarker|, e) == inner;
      NoOccBefore(content, EndMarker, b + |BeginMarker|, e);
      InnerShape(inner, EndMarker);
    }
  }

  /** A built section holds the begin marker right after its first line
      break, so it counts as a section; when neither the standard block (it
      holds none for a prefix without `!`) nor the user's text holds a begin
      marker, that is its only one. */
  lemma BuildBegins(u: Option<string>, prefix: string)
    ensures var r := BuildSimblSection(u, prefix);
      IndexOf(r, BeginMarker) == Some(1) && HasSimblSection(r)
    ensures NoOcc(StandardBlock(prefix), BeginMarker) && (u.Some? ==> NoOcc(u.value, BeginMarker)) ==>
      forall i :: OccursAt(BuildSimblSection(u, prefix), BeginMarker, i) <==> i == 1
  {
    SectionBegin(StandardBlock(prefix), u);
    if NoOcc(StandardBlock(prefix), BeginMarker) && (u.Some? ==> NoOcc(u.value, BeginMarker)) {
      Framed(Heading, StandardBody(prefix), Fence);
      assert Heading[0] == '\n';
      SectionBeginOnce(StandardBlock(prefix), u);
    }
  }

  /** A built section holds the end marker exactly once, right before its
      last line break; the standard block must hold no end marker (it holds
      none for a prefix without `!`) and the user's text none either. */
  lemma BuildEndsOnce(u: Option<string>, prefix: string)
    requires NoOcc(StandardBlock(prefix), EndMarker)
    requires u.Some? ==> NoOcc(u.value, EndMarker)
    ensures var r := BuildSimblSection(u, prefix);
      forall i :: OccursAt(r, EndMarker, i) <==> i == |r| - |EndMarker| - 1
  {
    StandardShape(prefix);
    SectionEnd(StandardBlock(prefix), u);
  }

  /** Extracting from a section gives back the user's text: a non-empty
      trimmed text without the end marker or a fence comes back as it is,
      and no text gives none. */
  lemma ExtractOfSection(block: string, u: Option<string>)
    requires BlockShape(block)
    requires u.Some? ==> NoOcc(u.value, EndMarker) && NoOcc(u.value, Fence) && Trim(u.value) == u.value
    ensures ExtractUserContent(Section(block, u)) == if u.Some? && u.value != [] then u else None
  {
    var r := Section(block, u);
    var e := |r| - |EndMarker| - 1;
    assert IndexOf(r, EndMarker) == Some(e) && e <= |r| by { SectionEnd(block, u); }
    SectionBegin(block, u);
    SectionInner(block, u);
    ExtractOfParts(r, 1, e, block, u);
  }

  /** A text whose first markers enclose a block ending in a fence and then
      the closing part of `u` gives back the user's text. */
  lemma ExtractOfParts(r: string, b: nat, n: nat, block: string, u: Option<string>)
    requires IndexOf(r, BeginMarker) == Some(b) && IndexOf(r, EndMarker) == Some(n) && b + |BeginMarker| <= n <= |r|
    requires Slice(r, b + |BeginMarker|, n) == block + Closing(u)
    requires |block| >= |Fence| && block[|block| - |Fence|..] == Fence
    requires u.Some? ==> NoOcc(u.value, Fence) && Trim(u.value) == u.value
    ensures ExtractUserContent(r) == if u.Some? && u.value != [] then u else None
  {
    ExtractAt(r, b, n, block + Closing(u));
    UserPartOfBlock(block, u);
  }

  /** The same for the section `buildSimblSection` builds. */
  lemma ExtractOfBuilt(u: Option<string>, prefix: string)
    requires NoOcc(StandardBlock(prefix), EndMarker)
    requires u.Some? ==> NoOcc(u.value, EndMarker) && NoOcc(u.value, Fence) && Trim(u.value) == u.value
    ensures ExtractUserContent(BuildSimblSection(u, prefix)) == if u.Some? && u.value != [] then u else None
  {
    StandardShape(prefix);
    ExtractOfSection(StandardBlock(prefix), u);
  }

  /** Without both markers the fresh section is appended after the trimmed
      text and a line break. */
  lemma ReplaceWithoutMarkers(content: string, prefix: string)
    requires (forall i :: !OccursAt(content, BeginMarker, i)) || (forall i :: !OccursAt(content, EndMarker, i))
    ensures ReplaceSimblSection(content, prefix) == TrimEnd(content) + "\n" + BuildSimblSection(None, prefix)
  {
    AppendedSection(content, StandardBlock(prefix));
  }

  /** Without both markers the result has a section. */
  lemma ReplaceAddsSection(content: string, prefix: string)
    requires (forall i :: !OccursAt(content, BeginMarker, i)) || (forall i :: !OccursAt(content, EndMarker, i))
    ensures HasSimblSection(ReplaceSimblSection(content, prefix))
  {
    AppendedSection(content, StandardBlock(prefix));
  }

  /** A section appended after a text makes a text that has a section. */
  lemma AppendedSection(content: string, block: string)
    requires (forall i :: !OccursAt(content, BeginMarker, i)) || (forall i :: !OccursAt(content, EndMarker, i))
    ensures var r := ReplaceSection(content, block);
      r == TrimEnd(content) + "\n" + Section(block, None) && HasSimblSection(r)
  {
    if IndexOf(content, BeginMarker).Some? {
      assert OccursAt(content, BeginMarker, IndexOf(content, BeginMarker).value);
    }
    if IndexOf(content, EndMarker).Some? {
      assert OccursAt(content, EndMarker, IndexOf(content, EndMarker).value);
    }
    var a := TrimEnd(content) + "\n";
    var s := Section(block, None);
    SectionBegin(block, None);
    assert OccursAt(s, BeginMarker, 1);
    ConcatSliceRight(a, s, |a| + 1, |a| + 1 + |BeginMarker|);
    ContainsAt(a + s, BeginMarker, |a| + 1);
  }

  /** Rebuilding a well-formed section keeps the user's text. */
  lemma ReplaceKeepsUserText(content: string, block: string)
    requires BlockShape(block)
    requires IndexOf(content, BeginMarker).Some? && IndexOf(content, EndMarker).Some?
    requires IndexOf(content, BeginMarker).value < IndexOf(content, EndMarker).value
    ensures ExtractUserContent(ReplaceSection(content, block)) == ExtractUserContent(content)
  {
    var b, e := IndexOf(content, BeginMarker).value, IndexOf(content, EndMarker).value;
    var u := ExtractUserContent(content);
    ExtractShape(content);
    ReplaceKeeps(content, block);
    ExtractSplice(content, b, e, block, u);
  }

  /** Rebuilding a well-formed section twice is rebuilding it once. */
  lemma ReplaceIdempotent(content: string, block: string)
    requires BlockShape(block)
    requires IndexOf(content, BeginMarker).Some? && IndexOf(content, EndMarker).Some?
    requires IndexOf(content, BeginMarker).value < IndexOf(content, EndMarker).value
    ensures ReplaceSection(ReplaceSection(content, block), block) == ReplaceSection(content, block)
  {
    var b, e := IndexOf(content, BeginMarker).value, IndexOf(content, EndMarker).value;
    var u := ExtractUserContent(content);
    var r := ReplaceSection(content, block);
    ExtractShape(content);
    ReplaceKeeps(content, block);
    SpliceBegin(content, b, e, block, u);
    SpliceEnd(content, b, e, block, u);
    SpliceAfter(content, b, e, block, u);
    ReplaceKeepsUserText(content, block);
    ReplaceKeeps(r, block);
  }

  /** For the standard block: rebuilding an existing section keeps the
      user's text, and rebuilding twice is rebuilding once. */
  lemma ReplacePreserves(content: string, prefix: string)
    requires NoOcc(StandardBlock(prefix), EndMarker)
    requires IndexOf(content, BeginMarker).Some? && IndexOf(content, EndMarker).Some?
    requires IndexOf(content, BeginMarker).value < IndexOf(content, EndMarker).value
    ensures var r := ReplaceSimblSection(content, prefix);
      ExtractUserContent(r) == ExtractUserContent(content) && ReplaceSimblSection(r, prefix) == r
  {
    StandardShape(prefix);
    ReplaceKeepsUserText(content, StandardBlock(prefix));
    ReplaceIdempotent(content, StandardBlock(prefix));
  }
}
