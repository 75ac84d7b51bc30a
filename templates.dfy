/** The pure helpers of the web interface (src/web/templates.ts): HTML
    escaping, the heading shifts between stored and displayed task content,
    and the priorities and tags offered as filters. The page rendering
    around them is not part of this model. */
module Templates {
  import opened Wrappers
  import opened JsString
  import opened Tasks
  import opened Sorting

  // ---- escapeHtml ----

  /** `s.replace(/c/g, by)` for a one-character pattern. */
  function ReplaceAll(s: string, c: char, rep: string): string
    decreases |s|
  {
    if s == [] then [] else (if s[0] == c then rep else [s[0]]) + ReplaceAll(s[1..], c, rep)
  }

  /** `escapeHtml`: `&` goes first, so the entities the later replacements
      introduce are not escaped again. */
  function EscapeHtml(str: string): string {
    ReplaceAll(ReplaceAll(ReplaceAll(ReplaceAll(ReplaceAll(str, '&', "&amp;"), '<', "&lt;"), '>', "&gt;"),
      '"', "&quot;"), '\'', "&#039;")
  }

  /** What each character becomes when it is escaped on its own. */
  function EscapeChar(c: char): string {
    if c == '&' then "&amp;"
    else if c == '<' then "&lt;"
    else if c == '>' then "&gt;"
    else if c == '"' then "&quot;"
    else if c == '\'' then "&#039;"
    else [c]
  }

  /** Reading the five entities back, left to right, as an HTML parser
      does; any other text stands for itself. */
  function DecodeEntities(s: string): string
    decreases |s|
  {
    if s == [] then []
    else if StartsWith(s, "&amp;") then "&" + DecodeEntities(s[5..])
    else if StartsWith(s, "&lt;") then "<" + DecodeEntities(s[4..])
    else if StartsWith(s, "&gt;") then ">" + DecodeEntities(s[4..])
    else if StartsWith(s, "&quot;") then "\"" + DecodeEntities(s[6..])
    else if StartsWith(s, "&#039;") then "'" + DecodeEntities(s[6..])
    else [s[0]] + DecodeEntities(s[1..])
  }

  /** None of the characters that are special in HTML markup. */
  predicate MarkupFree(s: string) {
    '<' !in s && '>' !in s && '"' !in s && '\'' !in s
  }

  lemma {:induction false} ReplaceAllConcat(a: string, b: string, c: char, rep: string)
    ensures ReplaceAll(a + b, c, rep) == ReplaceAll(a, c, rep) + ReplaceAll(b, c, rep)
    decreases |a|
  {
    if a == [] {
      assert a + b == b;
    } else {
      assert (a + b)[0] == a[0] && (a + b)[1..] == a[1..] + b;
      ReplaceAllConcat(a[1..], b, c, rep);
    }
  }

  lemma {:induction false} ReplaceAllAbsent(s: string, c: char, rep: string)
    requires c !in s
    ensures ReplaceAll(s, c, rep) == s
    decreases |s|
  {
    if s != [] {
      ReplaceAllAbsent(s[1..], c, rep);
    }
  }

  lemma ReplaceAllOne(x: char, c: char, rep: string)
    ensures ReplaceAll([x], c, rep) == if x == c then rep else [x]
  {
    assert [x][1..] == [];
  }

  /** The last four replacements leave a markup-free text alone. */
  lemma LaterReplacementsKeep(s: string)
    requires MarkupFree(s)
    ensures ReplaceAll(ReplaceAll(ReplaceAll(ReplaceAll(s, '<', "&lt;"), '>', "&gt;"), '"', "&quot;"), '\'', "&#039;") == s
  {
    ReplaceAllAbsent(s, '<', "&lt;");
    ReplaceAllAbsent(s, '>', "&gt;");
    ReplaceAllAbsent(s, '"', "&quot;");
    ReplaceAllAbsent(s, '\'', "&#039;");
  }

  /** Escaping one character. The escaped form is passed as `e` to the
      lemmas for the five special characters, which keeps their proofs
      small. */
  lemma EscapeOne(x: char)
    ensures EscapeHtml([x]) == EscapeChar(x)
  {
    var e := EscapeChar(x);
    if x == '&' {
      EscapeAmp(x, e);
    } else if x == '<' {
      EscapeLt(x, e);
    } else if x == '>' {
      EscapeGt(x, e);
    } else if x == '"' {
      EscapeQuot(x, e);
    } else if x == '\'' {
      EscapeApos(x, e);
    } else {
      EscapePlain(x);
    }
  }

  lemma EscapePlain(x: char)
    requires x != '&' && x != '<' && x != '>' && x != '"' && x != '\''
    ensures EscapeHtml([x]) == [x]
  {
    ReplaceAllOne(x, '&', "&amp;");
    ReplaceAllOne(x, '<', "&lt;");
    ReplaceAllOne(x, '>', "&gt;");
    ReplaceAllOne(x, '"', "&quot;");
    ReplaceAllOne(x, '\'', "&#039;");
  }

  lemma EscapeAmp(x: char, e: string)
    requires x == '&' && e == EscapeChar(x)
    ensures EscapeHtml([x]) == e
  {
    ReplaceAllOne(x, '&', e);
    LaterReplacementsKeep(e);
  }

  lemma EscapeLt(x: char, e: string)
    requires x == '<' && e == EscapeChar(x)
    ensures EscapeHtml([x]) == e
  {
    ReplaceAllOne(x, '&', "&amp;");
    ReplaceAllOne(x, '<', e);
    ReplaceAllAbsent(e, '>', "&gt;");
    ReplaceAllAbsent(e, '"', "&quot;");
    ReplaceAllAbsent(e, '\'', "&#039;");
  }

  lemma EscapeGt(x: char, e: string)
    requires x == '>' && e == EscapeChar(x)
    ensures EscapeHtml([x]) == e
  {
    ReplaceAllOne(x, '&', "&amp;");
    ReplaceAllOne(x, '<', "&lt;");
    ReplaceAllOne(x, '>', e);
    ReplaceAllAbsent(e, '"', "&quot;");
    ReplaceAllAbsent(e, '\'', "&#039;");
  }

  lemma EscapeQuot(x: char, e: string)
    requires x == '"' && e == EscapeChar(x)
    ensures EscapeHtml([x]) == e
  {
    ReplaceAllOne(x, '&', "&amp;");
    ReplaceAllOne(x, '<', "&lt;");
    ReplaceAllOne(x, '>', "&gt;");
    ReplaceAllOne(x, '"', e);
    ReplaceAllAbsent(e, '\'', "&#039;");
  }

  lemma EscapeApos(x: char, e: string)
    requires x == '\'' && e == EscapeChar(x)
    ensures EscapeHtml([x]) == e
  {
    ReplaceAllOne(x, '&', "&amp;");
    ReplaceAllOne(x, '<', "&lt;");
    ReplaceAllOne(x, '>', "&gt;");
    ReplaceAllOne(x, '"', "&quot;");
    ReplaceAllOne(x, '\'', e);
  }

  /** Escaping works piece by piece. */
  lemma EscapeConcat(a: string, b: string)
    ensures EscapeHtml(a + b) == EscapeHtml(a) + EscapeHtml(b)
  {
    var a1, b1 := ReplaceAll(a, '&', "&amp;"), ReplaceAll(b, '&', "&amp;");
    ReplaceAllConcat(a, b, '&', "&amp;");
    var a2, b2 := ReplaceAll(a1, '<', "&lt;"), ReplaceAll(b1, '<', "&lt;");
    ReplaceAllConcat(a1, b1, '<', "&lt;");
    var a3, b3 := ReplaceAll(a2, '>', "&gt;"), ReplaceAll(b2, '>', "&gt;");
    ReplaceAllConcat(a2, b2, '>', "&gt;");
    var a4, b4 := ReplaceAll(a3, '"', "&quot;"), ReplaceAll(b3, '"', "&quot;");
    ReplaceAllConcat(a3, b3, '"', "&quot;");
    ReplaceAllConcat(a4, b4, '\'', "&#039;");
  }

  /** The five chained replacements escape each character on its own: the
      order, `&` first, means no entity is escaped twice. */
  lemma {:induction false} EscapeCharwise(s: string)
    ensures EscapeHtml(s) == FlatMap(s, EscapeChar)
    decreases |s|
  {
    if s == [] {
    } else {
      var init, x := s[..|s| - 1], s[|s| - 1];
      assert s == init + [x];
      EscapeCharwise(init);
      EscapeConcat(init, [x]);
      EscapeOne(x);
    }
  }

  lemma EscapeCons(x: char, t: string)
    ensures EscapeHtml([x] + t) == EscapeChar(x) + EscapeHtml(t)
  {
    EscapeConcat([x], t);
    EscapeOne(x);
  }

  /** The escaped text holds none of `<`, `>`, `"` and `'`. */
  lemma {:induction false} EscapedIsMarkupFree(s: string)
    ensures MarkupFree(EscapeHtml(s))
    decreases |s|
  {
    if s != [] {
      assert s == [s[0]] + s[1..];
      EscapeCons(s[0], s[1..]);
      EscapedIsMarkupFree(s[1..]);
      EscapeCharIsMarkupFree(s[0]);
      MarkupFreeConcat(EscapeChar(s[0]), EscapeHtml(s[1..]));
    }
  }

  lemma EscapeCharIsMarkupFree(x: char)
    ensures MarkupFree(EscapeChar(x))
  {
  }

  lemma MarkupFreeConcat(a: string, b: string)
    requires MarkupFree(a) && MarkupFree(b)
    ensures MarkupFree(a + b)
  {
  }

  /** A text whose `i`th character differs from the pattern's does not
      start with it. */
  lemma NotStartsAt(s: string, p: string, i: nat)
    requires i < |p| && i < |s| && s[i] != p[i]
    ensures !StartsWith(s, p)
  {
    if |p| <= |s| {
      assert s[..|p|][i] == s[i];
    }
  }

  /** The entity `e` at the front of a text is read as `x`, once the
      entities tested before it have been ruled out. */
  lemma StartsWithEntity(e: string, t: string)
    ensures StartsWith(e + t, e) && (e + t)[|e|..] == t
  {
    assert (e + t)[..|e|] == e;
  }

  /** Decoding reads one escaped character back. */
  lemma DecodeOne(x: char, t: string)
    ensures DecodeEntities(EscapeChar(x) + t) == [x] + DecodeEntities(t)
  {
    var e := EscapeChar(x);
    var s := e + t;
    StartsWithEntity(e, t);
    if x == '&' {
    } else if x == '<' {
      NotStartsAt(s, "&amp;", 1);
    } else if x == '>' {
      NotStartsAt(s, "&amp;", 1);
      NotStartsAt(s, "&lt;", 1);
    } else if x == '"' {
      NotStartsAt(s, "&amp;", 1);
      NotStartsAt(s, "&lt;", 1);
      NotStartsAt(s, "&gt;", 1);
    } else if x == '\'' {
      NotStartsAt(s, "&amp;", 1);
      NotStartsAt(s, "&lt;", 1);
      NotStartsAt(s, "&gt;", 1);
      NotStartsAt(s, "&quot;", 1);
    } else {
      NotStartsAt(s, "&amp;", 0);
      NotStartsAt(s, "&lt;", 0);
      NotStartsAt(s, "&gt;", 0);
      NotStartsAt(s, "&quot;", 0);
      NotStartsAt(s, "&#039;", 0);
    }
  }

  /** Decoding the five entities gives back the text that was escaped. */
  lemma {:induction false} DecodeEscaped(s: string)
    ensures DecodeEntities(EscapeHtml(s)) == s
    decreases |s|
  {
    if s == [] {
      assert EscapeHtml(s) == [];
    } else {
      assert s == [s[0]] + s[1..];
      EscapeCons(s[0], s[1..]);
      DecodeOne(s[0], EscapeHtml(s[1..]));
      DecodeEscaped(s[1..]);
    }
  }

  // ---- heading shifts ----

  /** The number of `#` characters `s` starts with. */
  function HashRun(s: string): (n: nat)
    ensures n <= |s| && (forall k :: 0 <= k < n ==> s[k] == '#') && (n < |s| ==> s[n] != '#')
    decreases |s|
  {
    if s != [] && s[0] == '#' then 1 + HashRun(s[1..]) else 0
  }

  /** `"#".repeat(n)` */
  function Hashes(n: nat): (r: string)
    ensures |r| == n && forall k :: 0 <= k < n ==> r[k] == '#'
  {
    seq(n, _ => '#')
  }

  predicate NoTerminator(s: string) {
    forall k :: 0 <= k < |s| ==> !IsLineTerminator(s[k])
  }

  /** What `(.*)` takes: everything up to the first line terminator. */
  function LineRest(s: string): (r: string)
    ensures |r| <= |s| && r == s[..|r|] && NoTerminator(r) && (|r| < |s| ==> IsLineTerminator(s[|r|]))
    decreases |s|
  {
    if s == [] || IsLineTerminator(s[0]) then [] else [s[0]] + LineRest(s[1..])
  }

  /** `#{3,6}\s` matches at the front of `s`: the greedy run of `#` can only
      be followed by the white space when it is the whole run. */
  predicate DisplayMatch(s: string) {
    var n := HashRun(s); 3 <= n <= 6 && n < |s| && IsWhitespace(s[n])
  }

  /** `#{1,6}\s` matches at the front of `s`. */
  predicate StorageMatch(s: string) {
    var n := HashRun(s); 1 <= n <= 6 && n < |s| && IsWhitespace(s[n])
  }

  /** `s.replace(/^(#{3,6})\s/gm, ...)`, scanning from the front of `s`;
      `atLineStart` says whether `^` holds there. A match becomes two fewer
      `#` and a space, and the scan goes on after the white space. */
  function DisplayFrom(s: string, atLineStart: bool): string
    decreases |s|
  {
    if s == [] then []
    else if atLineStart && DisplayMatch(s) then
      var n := HashRun(s);
      Hashes(n - 2) + " " + DisplayFrom(s[n + 1..], IsLineTerminator(s[n]))
    else [s[0]] + DisplayFrom(s[1..], IsLineTerminator(s[0]))
  }

  /** `shiftHeadingsForDisplay` */
  function ShiftHeadingsForDisplay(content: string): string {
    DisplayFrom(content, true)
  }

  /** `s.replace(/^(#{1,6})\s(.*)$/gm, ...)`, scanning from the front of `s`.
      A match takes the rest of the line as its text and becomes two more
      `#`, or bold text when that would pass six. */
  function StorageFrom(s: string, atLineStart: bool): string
    decreases |s|
  {
    if s == [] then []
    else if atLineStart && StorageMatch(s) then
      var n := HashRun(s);
      var text := LineRest(s[n + 1..]);
      (if n + 2 > 6 then "**" + text + "**" else Hashes(n + 2) + " " + text)
        + StorageFrom(s[n + 1 + |text|..], IsLineTerminator(s[n + |text|]))
    else [s[0]] + StorageFrom(s[1..], IsLineTerminator(s[0]))
  }

  /** `shiftHeadingsForStorage` */
  function ShiftHeadingsForStorage(content: string): string {
    StorageFrom(content, true)
  }

  /** What one line becomes on display, line by line. */
  function DisplayLine(line: string): string {
    if DisplayMatch(line) then Hashes(HashRun(line) - 2) + " " + line[HashRun(line) + 1..] else line
  }

  /** What one line becomes in storage, line by line. */
  function StorageLine(line: string): string {
    if StorageMatch(line) then
      var n := HashRun(line);
      if n + 2 > 6 then "**" + line[n + 1..] + "**" else Hashes(n + 2) + " " + line[n + 1..]
    else line
  }

  function DisplayLines(lines: seq<string>): (r: seq<string>)
    ensures |r| == |lines| && forall k :: 0 <= k < |lines| ==> r[k] == DisplayLine(lines[k])
  {
    seq(|lines|, k requires 0 <= k < |lines| => DisplayLine(lines[k]))
  }

  function StorageLines(lines: seq<string>): (r: seq<string>)
    ensures |r| == |lines| && forall k :: 0 <= k < |lines| ==> r[k] == StorageLine(lines[k])
  {
    seq(|lines|, k requires 0 <= k < |lines| => StorageLine(lines[k]))
  }

  /** A line of one to six `#` and nothing else: the white space both
      patterns want after the `#` is then the line break itself, and the
      match runs into the next line. */
  predicate BareHashes(line: string) {
    1 <= |line| <= 6 && HashRun(line) == |line|
  }

  /** A line the two shifts treat line by line. */
  predicate PlainLine(line: string) {
    NoTerminator(line) && !BareHashes(line)
  }

  lemma {:induction false} HashRunConcat(a: string, b: string)
    ensures HashRun(a) < |a| ==> HashRun(a + b) == HashRun(a)
    ensures HashRun(a) == |a| ==> HashRun(a + b) == |a| + HashRun(b)
    decreases |a|
  {
    if a != [] {
      assert (a + b)[0] == a[0] && (a + b)[1..] == a[1..] + b;
      if a[0] == '#' {
        HashRunConcat(a[1..], b);
      }
    } else {
      assert a + b == b;
    }
  }

  /** No `^` match is possible inside a line: the scan copies it. */
  lemma {:induction false} DisplayCopies(x: string, y: string)
    requires NoTerminator(x)
    ensures DisplayFrom(x + y, false) == x + DisplayFrom(y, false)
    decreases |x|
  {
    if x == [] {
      assert x + y == y;
    } else {
      assert (x + y)[0] == x[0] && (x + y)[1..] == x[1..] + y;
      DisplayCopies(x[1..], y);
      assert x == [x[0]] + x[1..];
    }
  }

  lemma {:induction false} StorageCopies(x: string, y: string)
    requires NoTerminator(x)
    ensures StorageFrom(x + y, false) == x + StorageFrom(y, false)
    decreases |x|
  {
    if x == [] {
      assert x + y == y;
    } else {
      assert (x + y)[0] == x[0] && (x + y)[1..] == x[1..] + y;
      StorageCopies(x[1..], y);
      assert x == [x[0]] + x[1..];
    }
  }

  /** At the start of a line that begins with a line terminator, no match. */
  lemma AfterLine(y: string)
    requires y == [] || IsLineTerminator(y[0])
    ensures DisplayFrom(y, true) == DisplayFrom(y, false)
    ensures StorageFrom(y, true) == StorageFrom(y, false)
  {
  }

  /** The rest of the line is the line itself when a line break or nothing
      follows. */
  lemma {:induction false} LineRestOfLine(x: string, y: string)
    requires NoTerminator(x) && (y == [] || IsLineTerminator(y[0]))
    ensures LineRest(x + y) == x
    decreases |x|
  {
    if x == [] {
      assert x + y == y;
    } else {
      assert (x + y)[0] == x[0] && (x + y)[1..] == x[1..] + y;
      LineRestOfLine(x[1..], y);
      assert x == [x[0]] + x[1..];
    }
  }

  /** The front of a line decides the match as the line alone does. */
  lemma MatchOfLine(line: string, y: string)
    requires PlainLine(line) && line != [] && (y == [] || IsLineTerminator(y[0]))
    ensures DisplayMatch(line + y) == DisplayMatch(line) && StorageMatch(line + y) == StorageMatch(line)
    ensures StorageMatch(line) ==> HashRun(line) < |line| && HashRun(line + y) == HashRun(line)
  {
    HashRunConcat(line, y);
    var n := HashRun(line);
    if n < |line| {
      assert (line + y)[n] == line[n];
    } else if y != [] {
      assert HashRun(y) == 0;
    }
  }

  lemma DisplayAtMatch(s: string, n: nat)
    requires DisplayMatch(s) && n == HashRun(s)
    ensures DisplayFrom(s, true) == Hashes(n - 2) + " " + DisplayFrom(s[n + 1..], IsLineTerminator(s[n]))
  {
  }

  lemma DisplayAtCopy(s: string, atLineStart: bool)
    requires s != [] && !(atLineStart && DisplayMatch(s))
    ensures DisplayFrom(s, atLineStart) == [s[0]] + DisplayFrom(s[1..], IsLineTerminator(s[0]))
  {
  }

  lemma StorageAtMatch(s: string, n: nat, text: string)
    requires StorageMatch(s) && n == HashRun(s) && text == LineRest(s[n + 1..])
    ensures StorageFrom(s, true)
      == (if n + 2 > 6 then "**" + text + "**" else Hashes(n + 2) + " " + text)
        + StorageFrom(s[n + 1 + |text|..], IsLineTerminator(s[n + |text|]))
  {
    assert |text| <= |s[n + 1..]|;
  }

  lemma StorageAtCopy(s: string, atLineStart: bool)
    requires s != [] && !(atLineStart && StorageMatch(s))
    ensures StorageFrom(s, atLineStart) == [s[0]] + StorageFrom(s[1..], IsLineTerminator(s[0]))
  {
  }

  lemma DisplayHeadMatch(line: string, y: string, n: nat)
    requires PlainLine(line) && DisplayMatch(line) && n == HashRun(line) && (y == [] || IsLineTerminator(y[0]))
    ensures DisplayFrom(line + y, true) == Hashes(n - 2) + " " + DisplayFrom(line[n + 1..] + y, false)
  {
    var s := line + y;
    MatchOfLine(line, y);
    assert HashRun(s) == n && !IsLineTerminator(s[n]) && s[n + 1..] == line[n + 1..] + y;
    DisplayAtMatch(s, n);
  }

  lemma DisplayLineMatch(line: string, y: string)
    requires PlainLine(line) && DisplayMatch(line) && (y == [] || IsLineTerminator(y[0]))
    ensures DisplayFrom(line + y, true) == DisplayLine(line) + DisplayFrom(y, false)
  {
    var n := HashRun(line);
    var t := line[n + 1..];
    DisplayHeadMatch(line, y, n);
    DisplayCopies(t, y);
    Reassociate(Hashes(n - 2) + " ", t, DisplayFrom(y, false));
  }

  lemma DisplayHeadCopy(line: string, y: string)
    requires PlainLine(line) && line != [] && !DisplayMatch(line) && (y == [] || IsLineTerminator(y[0]))
    ensures DisplayFrom(line + y, true) == [line[0]] + DisplayFrom(line[1..] + y, false)
  {
    var s := line + y;
    MatchOfLine(line, y);
    assert s[0] == line[0] && s[1..] == line[1..] + y;
    DisplayAtCopy(s, true);
  }

  lemma DisplayLineCopy(line: string, y: string)
    requires PlainLine(line) && line != [] && !DisplayMatch(line) && (y == [] || IsLineTerminator(y[0]))
    ensures DisplayFrom(line + y, true) == DisplayLine(line) + DisplayFrom(y, false)
  {
    DisplayHeadCopy(line, y);
    DisplayCopies(line[1..], y);
    Reassociate([line[0]], line[1..], DisplayFrom(y, false));
    assert line == [line[0]] + line[1..];
  }

  /** One line followed by a line break or nothing is shifted for display
      as `DisplayLine` says. */
  lemma DisplayOneLine(line: string, y: string)
    requires PlainLine(line) && (y == [] || IsLineTerminator(y[0]))
    ensures DisplayFrom(line + y, true) == DisplayLine(line) + DisplayFrom(y, false)
  {
    if line == [] {
      AfterLine(y);
      assert line + y == y;
    } else if DisplayMatch(line) {
      DisplayLineMatch(line, y);
    } else {
      DisplayLineCopy(line, y);
    }
  }

  lemma StorageLineMatch(line: string, y: string)
    requires PlainLine(line) && StorageMatch(line) && (y == [] || IsLineTerminator(y[0]))
    ensures StorageFrom(line + y, true) == StorageLine(line) + StorageFrom(y, false)
  {
    var s := line + y;
    var n := HashRun(line);
    var t := line[n + 1..];
    MatchOfLine(line, y);
    assert HashRun(s) == n && s[n + 1..] == t + y;
    LineRestOfLine(t, y);
    assert n + 1 + |t| == |line| && s[|line|..] == y && s[n + |t|] == line[|line| - 1];
    StorageAtMatch(s, n, t);
  }

  lemma StorageHeadCopy(line: string, y: string)
    requires PlainLine(line) && line != [] && !StorageMatch(line) && (y == [] || IsLineTerminator(y[0]))
    ensures StorageFrom(line + y, true) == [line[0]] + StorageFrom(line[1..] + y, false)
  {
    var s := line + y;
    MatchOfLine(line, y);
    assert s[0] == line[0] && s[1..] == line[1..] + y;
    StorageAtCopy(s, true);
  }

  lemma StorageLineCopy(line: string, y: string)
    requires PlainLine(line) && line != [] && !StorageMatch(line) && (y == [] || IsLineTerminator(y[0]))
    ensures StorageFrom(line + y, true) == StorageLine(line) + StorageFrom(y, false)
  {
    StorageHeadCopy(line, y);
    StorageCopies(line[1..], y);
    Reassociate([line[0]], line[1..], StorageFrom(y, false));
    assert line == [line[0]] + line[1..];
  }

  /** One line followed by a line break or nothing is shifted for storage
      as `StorageLine` says. */
  lemma StorageOneLine(line: string, y: string)
    requires PlainLine(line) && (y == [] || IsLineTerminator(y[0]))
    ensures StorageFrom(line + y, true) == StorageLine(line) + StorageFrom(y, false)
  {
    if line == [] {
      AfterLine(y);
      assert line + y == y;
    } else if StorageMatch(line) {
      StorageLineMatch(line, y);
    } else {
      StorageLineCopy(line, y);
    }
  }

  lemma JoinFirst(parts: seq<string>, sep: string)
    requires |parts| > 1
    ensures Join(parts, sep) == parts[0] + (sep + Join(parts[1..], sep))
  {
  }

  /** A line break: one or more line terminators, such as `\n`, `\r\n` or
      an empty line between two others. */
  predicate LineBreak(b: string) {
    b != [] && forall k :: 0 <= k < |b| ==> IsLineTerminator(b[k])
  }

  /** Lines put back together with the line breaks between them. */
  function JoinLines(lines: seq<string>, breaks: seq<string>): string
    requires |lines| == |breaks| + 1
    decreases |breaks|
  {
    if |breaks| == 0 then lines[0] else lines[0] + breaks[0] + JoinLines(lines[1..], breaks[1..])
  }

  /** Lines joined by `\n` are lines with a single `\n` as every break. */
  lemma {:induction false} JoinNewlines(lines: seq<string>)
    requires |lines| > 0
    ensures JoinLines(lines, seq(|lines| - 1, _ => "\n")) == Join(lines, "\n")
    decreases |lines|
  {
    if |lines| > 1 {
      var breaks := seq(|lines| - 1, _ => "\n");
      assert breaks[1..] == seq(|lines[1..]| - 1, _ => "\n");
      JoinNewlines(lines[1..]);
      JoinFirst(lines, "\n");
      Reassociate(lines[0], "\n", Join(lines[1..], "\n"));
    }
  }

  /** A line break is copied by the display scan, which is at a line start
      after it. */
  lemma {:induction false} DisplayBreak(b: string, rest: string, atLineStart: bool)
    requires LineBreak(b)
    ensures DisplayFrom(b + rest, atLineStart) == b + DisplayFrom(rest, true)
    decreases |b|
  {
    var s := b + rest;
    assert s[0] == b[0] && IsLineTerminator(b[0]) && s[1..] == b[1..] + rest;
    DisplayAtCopy(s, atLineStart);
    if |b| == 1 {
      assert b[1..] + rest == rest && b == [b[0]];
    } else {
      DisplayBreak(b[1..], rest, true);
      Reassociate([b[0]], b[1..], DisplayFrom(rest, true));
      assert b == [b[0]] + b[1..];
    }
  }

  /** The same for the storage scan. */
  lemma {:induction false} StorageBreak(b: string, rest: string, atLineStart: bool)
    requires LineBreak(b)
    ensures StorageFrom(b + rest, atLineStart) == b + StorageFrom(rest, true)
    decreases |b|
  {
    var s := b + rest;
    assert s[0] == b[0] && IsLineTerminator(b[0]) && s[1..] == b[1..] + rest;
    StorageAtCopy(s, atLineStart);
    if |b| == 1 {
      assert b[1..] + rest == rest && b == [b[0]];
    } else {
      StorageBreak(b[1..], rest, true);
      Reassociate([b[0]], b[1..], StorageFrom(rest, true));
      assert b == [b[0]] + b[1..];
    }
  }

  /** `shiftHeadingsForDisplay` works line by line on text whose lines are
      plain, whatever line breaks separate them. */
  lemma {:induction false} DisplayByLine(lines: seq<string>, breaks: seq<string>)
    requires |lines| == |breaks| + 1
    requires forall k :: 0 <= k < |lines| ==> PlainLine(lines[k])
    requires forall k :: 0 <= k < |breaks| ==> LineBreak(breaks[k])
    ensures ShiftHeadingsForDisplay(JoinLines(lines, breaks)) == JoinLines(DisplayLines(lines), breaks)
    decreases |breaks|
  {
    if |breaks| == 0 {
      DisplayOneLine(lines[0], []);
      assert lines[0] + [] == lines[0];
    } else {
      var b := breaks[0];
      var rest := JoinLines(lines[1..], breaks[1..]);
      Reassociate(lines[0], b, rest);
      assert LineBreak(b) && (b + rest)[0] == b[0];
      DisplayOneLine(lines[0], b + rest);
      DisplayBreak(b, rest, false);
      DisplayByLine(lines[1..], breaks[1..]);
      assert DisplayLines(lines)[1..] == DisplayLines(lines[1..]);
      Reassociate(DisplayLine(lines[0]), b, JoinLines(DisplayLines(lines[1..]), breaks[1..]));
    }
  }

  /** `shiftHeadingsForStorage` works line by line on text whose lines are
      plain, whatever line breaks separate them. */
  lemma {:induction false} StorageByLine(lines: seq<string>, breaks: seq<string>)
    requires |lines| == |breaks| + 1
    requires forall k :: 0 <= k < |lines| ==> PlainLine(lines[k])
    requires forall k :: 0 <= k < |breaks| ==> LineBreak(breaks[k])
    ensures ShiftHeadingsForStorage(JoinLines(lines, breaks)) == JoinLines(StorageLines(lines), breaks)
    decreases |breaks|
  {
    if |breaks| == 0 {
      StorageOneLine(lines[0], []);
      assert lines[0] + [] == lines[0];
    } else {
      var b := breaks[0];
      var rest := JoinLines(lines[1..], breaks[1..]);
      Reassociate(lines[0], b, rest);
      assert LineBreak(b) && (b + rest)[0] == b[0];
      StorageOneLine(lines[0], b + rest);
      StorageBreak(b, rest, false);
      StorageByLine(lines[1..], breaks[1..]);
      assert StorageLines(lines)[1..] == StorageLines(lines[1..]);
      Reassociate(StorageLine(lines[0]), b, JoinLines(StorageLines(lines[1..]), breaks[1..]));
    }
  }

  lemma HashesRun(n: nat, t: string)
    requires t == [] || t[0] != '#'
    ensures HashRun(Hashes(n) + t) == n
  {
    HashRunConcat(Hashes(n), t);
    assert HashRun(Hashes(n)) == n;
  }

  /** For display, an H3 to H6 line gets two fewer `#` and a single space;
      H1 and H2 lines stay as they are. */
  lemma DisplayLevels(n: nat, w: char, text: string)
    requires 1 <= n <= 6 && IsWhitespace(w)
    ensures DisplayLine(Hashes(n) + [w] + text) == if n >= 3 then Hashes(n - 2) + " " + text else Hashes(n) + [w] + text
  {
    var line := Hashes(n) + [w] + text;
    assert line == Hashes(n) + ([w] + text);
    HashesRun(n, [w] + text);
    assert line[n] == w && line[n + 1..] == text;
  }

  /** For storage, an H1 to H4 line gets two more `#` and a single space;
      H5 and H6 lines become bold text. */
  lemma StorageLevels(n: nat, w: char, text: string)
    requires 1 <= n <= 6 && IsWhitespace(w)
    ensures StorageLine(Hashes(n) + [w] + text)
      == if n <= 4 then Hashes(n + 2) + " " + text else "**" + text + "**"
  {
    var line := Hashes(n) + [w] + text;
    assert line == Hashes(n) + ([w] + text);
    HashesRun(n, [w] + text);
    assert line[n] == w && line[n + 1..] == text;
  }

  /** The headings storage can take back: H1 to H4, with a single space
      after the `#`. */
  predicate StorableLine(line: string) {
    PlainLine(line) && (StorageMatch(line) ==> HashRun(line) <= 4 && line[HashRun(line)] == ' ')
  }

  /** What storage makes of an H1 to H4 line is plain and displays as
      that heading again. */
  lemma StoredHeading(n: nat, text: string)
    requires 1 <= n <= 4 && NoTerminator(text)
    ensures PlainLine(Hashes(n + 2) + " " + text)
    ensures DisplayLine(Hashes(n + 2) + " " + text) == Hashes(n) + " " + text
  {
    var m := Hashes(n + 2) + " " + text;
    assert m == Hashes(n + 2) + [' '] + text;
    DisplayLevels(n + 2, ' ', text);
    assert m == Hashes(n + 2) + ([' '] + text);
    HashesRun(n + 2, [' '] + text);
    forall k | 0 <= k < |m| ensures !IsLineTerminator(m[k]) {
      if k > n + 2 {
        assert m[k] == text[k - n - 3];
      }
    }
  }

  lemma LineRoundTrip(line: string)
    requires StorableLine(line)
    ensures PlainLine(StorageLine(line)) && DisplayLine(StorageLine(line)) == line
  {
    if StorageMatch(line) {
      var n := HashRun(line);
      var text := line[n + 1..];
      assert line == Hashes(n) + " " + text by {
        assert line[..n] == Hashes(n);
        assert line == line[..n] + [line[n]] + text;
      }
      assert NoTerminator(text) by {
        forall k | 0 <= k < |text| ensures !IsLineTerminator(text[k]) {
          assert text[k] == line[n + 1 + k];
        }
      }
      StorageLevels(n, ' ', text);
      StoredHeading(n, text);
    }
  }

  /** Storing and then displaying gives back the text, when its lines are
      plain and every heading in it is H1 to H4 with a single space; the
      lines may be separated by any line breaks, `\r\n` included. */
  lemma ShiftRoundTrip(lines: seq<string>, breaks: seq<string>)
    requires |lines| == |breaks| + 1
    requires forall k :: 0 <= k < |lines| ==> StorableLine(lines[k])
    requires forall k :: 0 <= k < |breaks| ==> LineBreak(breaks[k])
    ensures ShiftHeadingsForDisplay(ShiftHeadingsForStorage(JoinLines(lines, breaks))) == JoinLines(lines, breaks)
  {
    StorageByLine(lines, breaks);
    var stored := StorageLines(lines);
    forall k | 0 <= k < |stored| ensures PlainLine(stored[k]) && DisplayLine(stored[k]) == lines[k] {
      LineRoundTrip(lines[k]);
    }
    DisplayByLine(stored, breaks);
    assert DisplayLines(stored) == lines;
  }

  /** A CRLF example: `## a` over `foo` is stored as `#### a` and displayed
      back as it was. */
  lemma CrlfRoundTrip()
    ensures ShiftHeadingsForStorage("## a\r\nfoo") == "#### a\r\nfoo"
    ensures ShiftHeadingsForDisplay("#### a\r\nfoo") == "## a\r\nfoo"
  {
    CrlfStored();
    CrlfShown();
  }

  lemma CrlfStored()
    ensures ShiftHeadingsForStorage("## a\r\nfoo") == "#### a\r\nfoo"
  {
    CrlfLines();
    CrlfLinesStored();
    StorageByLine(["## a", "foo"], ["\r\n"]);
  }

  lemma CrlfShown()
    ensures ShiftHeadingsForDisplay("#### a\r\nfoo") == "## a\r\nfoo"
  {
    CrlfLines();
    CrlfLinesShown();
    DisplayByLine(["#### a", "foo"], ["\r\n"]);
  }

  /** The lines and the break of the CRLF example. */
  lemma CrlfLines()
    ensures PlainLine("## a") && PlainLine("#### a") && PlainLine("foo") && LineBreak("\r\n")
    ensures JoinLines(["## a", "foo"], ["\r\n"]) == "## a\r\nfoo"
    ensures JoinLines(["#### a", "foo"], ["\r\n"]) == "#### a\r\nfoo"
  {
    StoredHeading(2, "a");
    assert Hashes(4) + " " + "a" == "#### a";
  }

  lemma CrlfLinesStored()
    ensures StorageLines(["## a", "foo"]) == ["#### a", "foo"]
  {
    assert "## a" == Hashes(2) + [' '] + "a";
    StorageLevels(2, ' ', "a");
    assert Hashes(4) + " " + "a" == "#### a";
    assert StorageLine("foo") == "foo";
  }

  lemma CrlfLinesShown()
    ensures DisplayLines(["#### a", "foo"]) == ["## a", "foo"]
  {
    assert "#### a" == Hashes(4) + [' '] + "a";
    DisplayLevels(4, ' ', "a");
    assert Hashes(2) + " " + "a" == "## a";
    assert DisplayLine("foo") == "foo";
  }

  lemma BareHead(n: nat, text: string)
    requires 3 <= n <= 6
    ensures DisplayFrom(Hashes(n) + "\n" + text, true) == Hashes(n - 2) + " " + DisplayFrom(text, true)
  {
    var s := Hashes(n) + "\n" + text;
    assert s == Hashes(n) + ("\n" + text);
    HashesRun(n, "\n" + text);
    assert s[n] == '\n' && s[n + 1..] == text;
    DisplayAtMatch(s, n);
  }

  /** A line that does not start a heading and has no line break comes out
      of the display shift as it was. */
  lemma DisplayKeepsLine(text: string)
    requires NoTerminator(text) && !DisplayMatch(text)
    ensures DisplayFrom(text, true) == text
  {
    if text != [] {
      DisplayAtCopy(text, true);
      DisplayCopies(text[1..], []);
      assert text[1..] + [] == text[1..] && text == [text[0]] + text[1..];
    }
  }

  /** A line of three to six bare `#` runs into the next line for
      display: the line break is the white space the pattern takes. */
  lemma BareHashesJoinNextLine(n: nat, text: string)
    requires 3 <= n <= 6 && NoTerminator(text) && !DisplayMatch(text)
    ensures ShiftHeadingsForDisplay(Hashes(n) + "\n" + text) == Hashes(n - 2) + " " + text
  {
    BareHead(n, text);
    DisplayKeepsLine(text);
  }

  // ---- filter values ----

  /** The comparator `(a, b) => a - b`. */
  function NumberKey(p: nat): Key {
    (p, 0)
  }

  /** `extractAllPriorities`: the priorities of the tasks, each once, in
      increasing order. */
  method ExtractAllPriorities(tasks: seq<Task>) returns (r: seq<nat>)
    ensures forall i, j :: 0 <= i < j < |r| ==> r[i] < r[j]
    ensures forall p :: p in r <==> exists k :: 0 <= k < |tasks| && tasks[k].reserved.priority == Some(p)
  {
    var prioritySet: seq<nat> := [];
    var i := 0;
    while i < |tasks|
      invariant 0 <= i <= |tasks|
      invariant NoDuplicates(prioritySet)
      invariant forall p :: p in prioritySet <==> exists k :: 0 <= k < i && tasks[k].reserved.priority == Some(p)
    {
      var priority := tasks[i].reserved.priority;
      if priority.Some? && priority.value !in prioritySet {
        prioritySet := prioritySet + [priority.value];
      }
      i := i + 1;
    }
    r := SortBy(prioritySet, NumberKey);
    SortedNumbers(prioritySet);
    assert forall p :: p in r <==> p in prioritySet;
  }

  /** Sorting numbers that are all different orders them strictly and keeps
      exactly them. */
  lemma SortedNumbers(s: seq<nat>)
    requires NoDuplicates(s)
    ensures var r := SortBy(s, NumberKey);
      (forall i, j :: 0 <= i < j < |r| ==> r[i] < r[j]) && forall p :: p in r <==> p in s
  {
    var r := SortBy(s, NumberKey);
    SortBySorted(s, NumberKey);
    SortByPermutation(s, NumberKey);
    PermutationNoDuplicates(s, r);
    forall p ensures p in r <==> p in s {
      assert p in r <==> p in multiset(r);
      assert p in s <==> p in multiset(s);
    }
    forall i, j | 0 <= i < j < |r| ensures r[i] < r[j] {
      assert KeyLe(NumberKey(r[i]), NumberKey(r[j]));
    }
  }

  /** `isReservedTag`: priorities `p1` to `p9`, the two relation prefixes
      and the three status tags are kept out of the tag cloud. Unlike
      `parseTag`, `project:` tags are not reserved here. */
  predicate IsReservedTag(tag: string) {
    IsPriorityTag(tag) || StartsWith(tag, "depends-on-") || StartsWith(tag, "child-of-")
    || tag == "in-progress" || tag == "canceled" || tag == "refined"
  }

  /** Every tag of every task, in order. */
  function AllTags(tasks: seq<Task>): seq<string>
    decreases |tasks|
  {
    if tasks == [] then [] else AllTags(tasks[..|tasks| - 1]) + tasks[|tasks| - 1].tags
  }

  lemma {:induction false} AllTagsMembers(tasks: seq<Task>)
    ensures forall t :: t in AllTags(tasks) <==> exists k :: 0 <= k < |tasks| && t in tasks[k].tags
    decreases |tasks|
  {
    if tasks != [] {
      var init := tasks[..|tasks| - 1];
      AllTagsMembers(init);
      forall t | t in AllTags(tasks) ensures exists k :: 0 <= k < |tasks| && t in tasks[k].tags {
        if t !in AllTags(init) {
          assert t in tasks[|tasks| - 1].tags;
        } else {
          var k :| 0 <= k < |init| && t in init[k].tags;
          assert tasks[k] == init[k];
        }
      }
      forall t | exists k :: 0 <= k < |tasks| && t in tasks[k].tags ensures t in AllTags(tasks) {
        var k :| 0 <= k < |tasks| && t in tasks[k].tags;
        if k < |init| {
          assert init[k] == tasks[k];
        }
      }
    }
  }

  /** `extractAllTags`: the tags of the tasks that are not reserved, each
      once, in string order. */
  method ExtractAllTags(tasks: seq<Task>) returns (r: seq<string>)
    ensures StringsSorted(r) && NoDuplicates(r)
    ensures forall t :: t in r <==> !IsReservedTag(t) && exists k :: 0 <= k < |tasks| && t in tasks[k].tags
  {
    var tagSet: seq<string> := [];
    var i := 0;
    while i < |tasks|
      invariant 0 <= i <= |tasks|
      invariant NoDuplicates(tagSet)
      invariant forall t :: t in tagSet <==> t in AllTags(tasks[..i]) && !IsReservedTag(t)
    {
      var tags := tasks[i].tags;
      var j := 0;
      while j < |tags|
        invariant 0 <= j <= |tags|
        invariant NoDuplicates(tagSet)
        invariant forall t :: t in tagSet <==> t in AllTags(tasks[..i]) + tags[..j] && !IsReservedTag(t)
      {
        assert tags[..j + 1] == tags[..j] + [tags[j]];
        if !IsReservedTag(tags[j]) && tags[j] !in tagSet {
          tagSet := tagSet + [tags[j]];
        }
        j := j + 1;
      }
      assert tasks[..i + 1][..i] == tasks[..i] && tags[..j] == tags;
      i := i + 1;
    }
    assert tasks[..i] == tasks;
    AllTagsMembers(tasks);
    r := SortStrings(tagSet);
    SortStringsSorted(tagSet);
    PermutationNoDuplicates(tagSet, r);
    forall t ensures t in r <==> t in tagSet {
      assert t in r <==> t in multiset(r);
      assert t in tagSet <==> t in multiset(tagSet);
    }
  }

  /** What `isReservedTag` hides, told by `parseTag`: priorities, relations
      and status tags are reserved, project tags are not, and a custom tag
      is reserved only when it starts with a relation prefix and nothing
      (or a line break) follows it. */
  lemma ReservedVersusParse(tag: string)
    ensures ParseTag(tag).Project? ==> !IsReservedTag(tag)
    ensures ParseTag(tag).Priority? || ParseTag(tag).ChildOf? || ParseTag(tag).DependsOn? ==> IsReservedTag(tag)
    ensures ParseTag(tag).InProgressTag? || ParseTag(tag).CanceledTag? || ParseTag(tag).RefinedTag? ==> IsReservedTag(tag)
    ensures ParseTag(tag).Custom? && IsReservedTag(tag) ==> StartsWith(tag, "depends-on-") || StartsWith(tag, "child-of-")
  {
    ParseTagOrder(tag);
    if ParseTag(tag).Project? {
      assert StartsWith(tag, "project:");
      assert tag[0] == 'p' && tag[1] == 'r';
    }
  }
}
