/** `normalizeHeadings`, of which `add` and `update` each carry the same
    copy (src/cli/commands/add.ts, src/cli/commands/update.ts): user text is
    stored under a task's H2 heading, so its headings are pushed down two
    levels, capped at H6. */
module Headings {
  import opened JsString

  function Min(a: int, b: int): int {
    if a < b then a else b
  }

  /** Where `/^(#{1,6})\s/` matches at a line start: one to six `#`, then a
      white-space character, which may be a line terminator. Seven or more
      `#` do not match, as backtracking leaves a `#` where `\s` must be. */
  predicate HeadingAt(s: string) {
    var k := RunLength(s, '#');
    1 <= k <= 6 && k < |s| && IsWhitespace(s[k])
  }

  /** The replacement of `/^(#{1,6})\s/gm` by `min(level + 2, 6)` hashes and
      one space, scanning `s` left to right; `lineStart` says whether `^`
      holds at the start of `s`. The scan resumes after a match, which ends
      at the white-space character. */
  function NormalizeFrom(s: string, lineStart: bool): string
    decreases |s|
  {
    if s == [] then ""
    else if lineStart && HeadingAt(s) then
      var k := RunLength(s, '#');
      Repeat('#', Min(k + 2, 6)) + " " + NormalizeFrom(s[k + 1..], IsLineTerminator(s[k]))
    else [s[0]] + NormalizeFrom(s[1..], IsLineTerminator(s[0]))
  }

  /** `normalizeHeadings` */
  function NormalizeHeadings(content: string): string {
    NormalizeFrom(content, true)
  }

  // ---- the same replacement, line by line ----

  predicate OneLine(l: string) {
    forall k :: 0 <= k < |l| ==> !IsLineTerminator(l[k])
  }

  /** One line with its heading marker rewritten, if it has one. */
  function ShiftLine(l: string): string {
    if HeadingAt(l) then
      var k := RunLength(l, '#');
      Repeat('#', Min(k + 2, 6)) + " " + l[k + 1..]
    else l
  }

  function ShiftLines(lines: seq<string>): (r: seq<string>)
    ensures |r| == |lines|
  {
    if lines == [] then [] else [ShiftLine(lines[0])] + ShiftLines(lines[1..])
  }

  /** A line of one to six `#` and nothing else: followed by a newline, the
      newline is the `\s` of the match. */
  predicate BareHashes(l: string) {
    1 <= |l| <= 6 && RunLength(l, '#') == |l|
  }

  /** Away from a line start, a piece of one line is copied as it is. */
  lemma {:induction false} MidLine(l: string, rest: string)
    requires OneLine(l)
    ensures NormalizeFrom(l + rest, false) == l + NormalizeFrom(rest, false)
    decreases |l|
  {
    if l != [] {
      var s := l + rest;
      assert s[0] == l[0] && s[1..] == l[1..] + rest;
      MidLine(l[1..], rest);
    } else {
      assert l + rest == rest;
    }
  }

  /** A line is read up to its run of `#` alike on its own and at the head
      of a longer text, unless it is all `#`. */
  lemma SameRun(l: string, rest: string)
    requires OneLine(l) && !BareHashes(l)
    ensures var s := l + "\n" + rest;
      HeadingAt(s) <==> HeadingAt(l)
    ensures HeadingAt(l) ==> RunLength(l + "\n" + rest, '#') == RunLength(l, '#') < |l|
  {
    var s := l + "\n" + rest;
    var k := RunLength(l, '#');
    assert s[..|l|] == l;
    if k < |l| {
      assert s[k] == l[k];
      assert forall i :: 0 <= i < k ==> s[i] == l[i];
      assert RunLength(s, '#') == k;
    } else {
      assert k == |l|;
      assert s[k] == '\n';
      assert forall i :: 0 <= i < k ==> s[i] == l[i];
      assert RunLength(s, '#') == k;
    }
  }

  /** One step of the scan at a heading marker. */
  lemma StepHeading(s: string, k: nat)
    requires HeadingAt(s) && k == RunLength(s, '#')
    ensures NormalizeFrom(s, true) == Repeat('#', Min(k + 2, 6)) + " " + NormalizeFrom(s[k + 1..], IsLineTerminator(s[k]))
  {
  }

  /** One step of the scan anywhere else: the character is copied. */
  lemma StepPlain(s: string, lineStart: bool)
    requires s != [] && !(lineStart && HeadingAt(s))
    ensures NormalizeFrom(s, lineStart) == [s[0]] + NormalizeFrom(s[1..], IsLineTerminator(s[0]))
  {
  }

  /** The line break after a line is copied and starts the next line. */
  lemma StepBreak(rest: string)
    ensures NormalizeFrom("\n" + rest, false) == "\n" + NormalizeFrom(rest, true)
  {
    StepPlain("\n" + rest, false);
    assert ("\n" + rest)[1..] == rest;
  }

  /** A line followed by a newline is rewritten on its own. */
  lemma LineThenRest(l: string, rest: string)
    requires OneLine(l) && !BareHashes(l)
    ensures NormalizeFrom(l + "\n" + rest, true) == ShiftLine(l) + "\n" + NormalizeFrom(rest, true)
  {
    SameRun(l, rest);
    if HeadingAt(l) {
      HeadingThenRest(l, rest, RunLength(l, '#'));
    } else if l == [] {
      assert l + "\n" + rest == "\n" + rest;
      StepPlain("\n" + rest, true);
      assert ("\n" + rest)[1..] == rest;
    } else {
      PlainThenRest(l, rest);
    }
  }

  lemma HeadingThenRest(l: string, rest: string, k: nat)
    requires OneLine(l) && HeadingAt(l) && k == RunLength(l, '#') < |l|
    requires HeadingAt(l + "\n" + rest) && RunLength(l + "\n" + rest, '#') == k
    ensures NormalizeFrom(l + "\n" + rest, true) == ShiftLine(l) + "\n" + NormalizeFrom(rest, true)
  {
    var s := l + "\n" + rest;
    var h := Repeat('#', Min(k + 2, 6)) + " ";
    StepHeading(s, k);
    assert s[k] == l[k];
    assert s[k + 1..] == l[k + 1..] + ("\n" + rest);
    MidLine(l[k + 1..], "\n" + rest);
    StepBreak(rest);
    assert ShiftLine(l) == h + l[k + 1..];
    RegroupFour(h, l[k + 1..], "\n", NormalizeFrom(rest, true));
  }

  lemma PlainThenRest(l: string, rest: string)
    requires OneLine(l) && l != [] && !HeadingAt(l) && !HeadingAt(l + "\n" + rest)
    ensures NormalizeFrom(l + "\n" + rest, true) == l + "\n" + NormalizeFrom(rest, true)
  {
    var s := l + "\n" + rest;
    StepPlain(s, true);
    assert s[0] == l[0];
    assert s[1..] == l[1..] + ("\n" + rest);
    MidLine(l[1..], "\n" + rest);
    StepBreak(rest);
    assert [l[0]] + l[1..] == l;
    RegroupFour([l[0]], l[1..], "\n", NormalizeFrom(rest, true));
  }

  /** Concatenation of four strings, regrouped. */
  lemma RegroupFour(a: string, b: string, c: string, d: string)
    ensures a + (b + (c + d)) == (a + b) + c + d
  {
  }

  /** The last line, with nothing after it. */
  lemma LastLine(l: string)
    requires OneLine(l)
    ensures NormalizeFrom(l, true) == ShiftLine(l)
  {
    if HeadingAt(l) {
      var k := RunLength(l, '#');
      MidLine(l[k + 1..], "");
      assert l[k + 1..] + "" == l[k + 1..];
    } else if l != [] {
      MidLine(l[1..], "");
      assert l[1..] + "" == l[1..];
    }
  }

  /** Text made of lines, none with a line terminator and none but the last
      made of `#` alone, is rewritten line by line. */
  lemma {:induction false} LinewiseNormalize(lines: seq<string>)
    requires forall k :: 0 <= k < |lines| ==> OneLine(lines[k])
    requires forall k :: 0 <= k < |lines| - 1 ==> !BareHashes(lines[k])
    ensures NormalizeHeadings(Join(lines, "\n")) == Join(ShiftLines(lines), "\n")
    decreases |lines|
  {
    if |lines| == 1 {
      LastLine(lines[0]);
    } else if |lines| > 1 {
      LinewiseNormalize(lines[1..]);
      LineThenRest(lines[0], Join(lines[1..], "\n"));
      assert ShiftLines(lines)[1..] == ShiftLines(lines[1..]);
    }
  }

  /** A heading of level `k` becomes one of level `min(k + 2, 6)` with a
      single space, whichever white-space character followed the hashes. */
  lemma ShiftedHeading(k: nat, w: char, rest: string)
    requires 1 <= k <= 6 && IsWhitespace(w)
    ensures NormalizeHeadings(Repeat('#', k) + [w] + rest) ==
      Repeat('#', Min(k + 2, 6)) + " " + NormalizeFrom(rest, IsLineTerminator(w))
  {
    var s := Repeat('#', k) + [w] + rest;
    assert s == Repeat('#', k) + ([w] + rest);
    RunLengthOfRepeat('#', k, [w] + rest);
    assert s[k] == w;
    assert s[k + 1..] == rest;
  }

  /** The cap: H5 and H6 lines both become H6. */
  lemma CappedAtSix(rest: string)
    requires OneLine(rest)
    ensures NormalizeHeadings("##### " + rest) == "###### " + rest
    ensures NormalizeHeadings("###### " + rest) == "###### " + rest
  {
    assert "##### " + rest == Repeat('#', 5) + [' '] + rest;
    assert "###### " + rest == Repeat('#', 6) + [' '] + rest;
    ShiftedHeading(5, ' ', rest);
    ShiftedHeading(6, ' ', rest);
    MidLine(rest, "");
    assert rest + "" == rest;
    assert Repeat('#', 6) + " " == "###### ";
  }

  /** A heading of `#` alone followed by a newline takes the newline as its
      white space, so the next line is joined to it. */
  lemma NewlineConsumed(rest: string)
    ensures NormalizeHeadings("#\n" + rest) == "### " + NormalizeFrom(rest, true)
  {
    ShiftedHeading(1, '\n', rest);
    assert "#\n" + rest == Repeat('#', 1) + ['\n'] + rest;
    assert Repeat('#', 3) + " " == "### ";
  }

  /** Text with no heading marker at any line start is left as it is. */
  lemma NoHeadingUnchanged(s: string)
    requires forall i :: 0 <= i < |s| && LineStart(s, i) ==> !HeadingAt(s[i..])
    ensures NormalizeHeadings(s) == s
  {
    Untouched(s, 0);
    assert s[0..] == s;
  }

  lemma {:induction false} Untouched(s: string, i: nat)
    requires i <= |s|
    requires forall j :: i <= j < |s| && LineStart(s, j) ==> !HeadingAt(s[j..])
    ensures NormalizeFrom(s[i..], LineStart(s, i)) == s[i..]
    decreases |s| - i
  {
    if i < |s| {
      Untouched(s, i + 1);
      assert s[i..][0] == s[i] && s[i..][1..] == s[i + 1..];
      assert LineStart(s, i + 1) == IsLineTerminator(s[i]);
    }
  }
}
