/** The task log (src/core/log.ts): the legacy log embedded at the end of a
    task's content, newest entry first, and the centralised log file, one
    JSON object per line. */
module Log {
  import opened Wrappers
  import opened JsString
  import opened Calendar
  import opened Json
  import opened Sorting

  /** An entry of the embedded log. */
  datatype LogEntry = LogEntry(timestamp: Stamp, message: string)

  /** An entry of the centralised log file. */
  datatype FileLogEntry = FileLogEntry(taskId: string, timestamp: Stamp, message: string)

  /** The message of the RangeError `toISOString()` throws on an invalid date. */
  const RangeError: string := "Invalid time value"

  // ---- the embedded log section ----

  /** `LOG_SECTION_MARKER`: a thematic break, a blank line and `task-log`. */
  const Marker: string := "***\n\ntask-log\n"

  /** `LOG_SECTION_REGEX`, `(?:^|\n)\*\*\*\n\ntask-log\n`, matches at `i`:
      the marker at the very start, or a newline followed by the marker. */
  predicate MarkerAt(s: string, i: nat) {
    (i == 0 && OccursAt(s, Marker, 0)) || (i < |s| && s[i] == '\n' && OccursAt(s, Marker, i + 1))
  }

  /** The first match at or after `from`, with `None` for no match. */
  function MarkerFrom(s: string, from: nat): (r: Option<nat>)
    decreases |s| - from
    ensures r.Some? ==> from <= r.value && MarkerAt(s, r.value)
    ensures r.Some? ==> forall k :: from <= k < r.value ==> !MarkerAt(s, k)
    ensures r.None? ==> forall k :: from <= k ==> !MarkerAt(s, k)
  {
    if from >= |s| then None
    else if MarkerAt(s, from) then Some(from)
    else MarkerFrom(s, from + 1)
  }

  /** `s.search(LOG_SECTION_REGEX)` */
  function SearchMarker(s: string): Option<nat> {
    MarkerFrom(s, 0)
  }

  /** Where the match at `p` ends: the `^` alternative matches the 14
      characters of the marker, the `\n` alternative one more. */
  function MarkerEnd(s: string, p: nat): (e: nat)
    requires MarkerAt(s, p)
    ensures p < e <= |s|
  {
    if s[p] == '\n' then p + 15 else p + 14
  }

  /** `s.replace(LOG_SECTION_REGEX, '')`: the first match removed. */
  function RemoveMarker(s: string): string {
    match SearchMarker(s)
    case None => s
    case Some(q) => s[..q] + s[MarkerEnd(s, q)..]
  }

  /** `\d{4}-\d{2}-\d{2}T\d{2}:\d{2}:\d{2}Z` */
  predicate StampShape(s: string) {
    |s| == 20
    && DigitsAt(s, 0, 4) && s[4] == '-' && DigitsAt(s, 5, 2) && s[7] == '-'
    && DigitsAt(s, 8, 2) && s[10] == 'T' && DigitsAt(s, 11, 2) && s[13] == ':'
    && DigitsAt(s, 14, 2) && s[16] == ':' && DigitsAt(s, 17, 2) && s[19] == 'Z'
  }

  /** `LOG_ENTRY_REGEX`, `^- (<stamp>) \| (.+)$`, on a trimmed line: the
      stamp read by `new Date` and the rest of the line as the message. */
  function EntryOfLine(t: string): (r: Option<LogEntry>)
    ensures r.Some? ==> Renderable(r.value.timestamp) && DotPlus(r.value.message)
  {
    if |t| >= 25 && t[..2] == "- " && StampShape(t[2..22]) && t[22..25] == " | " && DotPlus(t[25..])
    then Some(LogEntry(ParseIso(t[2..22]), t[25..]))
    else None
  }

  /** What one line of the log section contributes to `parseTaskLog`. */
  function LineEntry(line: string): (r: seq<LogEntry>)
    ensures |r| <= 1
  {
    var trimmed := Trim(line);
    if trimmed == "" then []
    else match EntryOfLine(trimmed)
      case Some(e) => [e]
      case None => []
  }

  /** The entries of a sequence of lines, in line order. */
  function LineEntries(lines: seq<string>): seq<LogEntry> {
    FlatMap(lines, LineEntry)
  }

  /** What `parseTaskLog` returns. */
  function TaskLog(content: string): seq<LogEntry> {
    if content == "" then []
    else match SearchMarker(content)
      case None => []
      case Some(p) => LineEntries(Split(RemoveMarker(content[p..]), '\n'))
  }

  /** `parseTaskLog` */
  method ParseTaskLog(content: string) returns (entries: seq<LogEntry>)
    ensures entries == TaskLog(content)
  {
    if content == "" {
      return [];
    }
    var markerIndex := SearchMarker(content);
    if markerIndex.None? {
      return [];
    }
    var logSection := RemoveMarker(content[markerIndex.value..]);
    entries := [];
    var lines := Split(logSection, '\n');
    TaskLogOf(content, markerIndex.value, lines);
    for i := 0 to |lines|
      invariant entries == LineEntries(lines[..i])
    {
      LineEntriesSnoc(lines, i);
      var trimmed := Trim(lines[i]);
      if trimmed == "" {
        continue;
      }
      var m := EntryOfLine(trimmed);
      if m.Some? {
        entries := entries + [m.value];
      }
    }
    WholePrefix(lines);
  }

  lemma TaskLogOf(content: string, p: nat, lines: seq<string>)
    requires content != "" && SearchMarker(content) == Some(p)
    requires lines == Split(RemoveMarker(content[p..]), '\n')
    ensures TaskLog(content) == LineEntries(lines)
  {
  }

  lemma LineEntriesSnoc(lines: seq<string>, i: nat)
    requires i < |lines|
    ensures LineEntries(lines[..i + 1]) == LineEntries(lines[..i]) + LineEntry(lines[i])
  {
    assert lines[..i + 1][..i] == lines[..i];
  }

  /** `stripTaskLog` */
  function StripTaskLog(content: string): string {
    if content == "" then ""
    else match SearchMarker(content)
      case None => content
      case Some(p) => TrimEnd(content[..p])
  }

  // ---- writing the embedded log ----

  /** `/\.\d{3}Z$/` matches at the end of `s`. */
  predicate MillisSuffix(s: string) {
    |s| >= 5 && s[|s| - 5] == '.' && IsDigit(s[|s| - 4]) && IsDigit(s[|s| - 3]) && IsDigit(s[|s| - 2]) && s[|s| - 1] == 'Z'
  }

  /** `formatTimestamp`: `toISOString()` with the milliseconds dropped; an
      invalid date throws. */
  function FormatTimestamp(st: Stamp): (r: Result<string>)
    requires Renderable(st)
    ensures r.Err? ==> r.error == RangeError
  {
    match st
    case Invalid => Err(RangeError)
    case Valid(ms) =>
      var iso := IsoMillis(ms);
      Ok(if MillisSuffix(iso) then iso[..|iso| - 5] + "Z" else iso)
  }

  /** `formatLogEntry` */
  function FormatLogEntry(st: Stamp, message: string): (r: Result<string>)
    requires Renderable(st)
    ensures r.Err? ==> r.error == RangeError
  {
    match FormatTimestamp(st)
    case Err(e) => Err(e)
    case Ok(t) => Ok("- " + t + " | " + message)
  }

  predicate AllRenderable(es: seq<LogEntry>) {
    forall k :: 0 <= k < |es| ==> Renderable(es[k].timestamp)
  }

  /** The lines of `es` in order, or the error of the first that throws. */
  function FormatAll(es: seq<LogEntry>): (r: Result<seq<string>>)
    requires AllRenderable(es)
    ensures r.Err? ==> r.error == RangeError
    ensures r.Ok? ==> |r.value| == |es|
  {
    if es == [] then Ok([])
    else
      var last := es[|es| - 1];
      match FormatAll(es[..|es| - 1])
      case Err(e) => Err(e)
      case Ok(ls) =>
        match FormatLogEntry(last.timestamp, last.message)
        case Err(e) => Err(e)
        case Ok(l) => Ok(ls + [l])
  }

  /** The content `appendLogEntry` assembles from the user content and the
      entry lines. */
  function LogText(user: string, lines: seq<string>): string {
    if user != "" then user + ("\n" + Marker + "\n" + Join(lines, "\n"))
    else TrimStart(Marker) + "\n" + Join(lines, "\n")
  }

  /** The content's user part followed by a log whose first entry is the new
      one and whose later entries are `rest`. */
  function Rebuild(content: string, message: string, ts: Stamp, rest: seq<LogEntry>): (r: Result<string>)
    requires Renderable(ts) && AllRenderable(rest)
    ensures r.Err? ==> r.error == RangeError
  {
    match FormatLogEntry(ts, message)
    case Err(e) => Err(e)
    case Ok(head) =>
      match FormatAll(rest)
      case Err(e) => Err(e)
      case Ok(ls) => Ok(LogText(StripTaskLog(content), [head] + ls))
  }

  lemma TaskLogRenderable(content: string)
    ensures AllRenderable(TaskLog(content))
  {
    if content != "" && SearchMarker(content).Some? {
      var p := SearchMarker(content).value;
      LineEntriesRenderable(Split(RemoveMarker(content[p..]), '\n'));
    }
  }

  lemma {:induction false} LineEntriesRenderable(lines: seq<string>)
    ensures AllRenderable(LineEntries(lines))
    decreases |lines|
  {
    if lines != [] {
      LineEntriesRenderable(lines[..|lines| - 1]);
    }
  }

  /** What `appendLogEntry` returns. */
  function AppendedText(content: string, message: string, ts: Stamp): Result<string>
    requires Renderable(ts)
  {
    TaskLogRenderable(content);
    Rebuild(content, message, ts, TaskLog(content))
  }

  /** `appendLogEntry` */
  method AppendLogEntry(content: string, message: string, timestamp: Stamp) returns (r: Result<string>)
    requires Renderable(timestamp)
    ensures r == AppendedText(content, message, timestamp)
  {
    var userContent := StripTaskLog(content);
    var existingEntries := ParseTaskLog(content);
    TaskLogRenderable(content);
    var newEntry := FormatLogEntry(timestamp, message);
    if newEntry.Err? {
      RebuildHeadFails(content, message, timestamp, existingEntries);
      return Err(newEntry.error);
    }
    var entryLines := PushFormatted([newEntry.value], existingEntries);
    if entryLines.Err? {
      RebuildRestFails(content, message, timestamp, existingEntries);
      return Err(entryLines.error);
    }
    RebuildRuns(content, message, timestamp, existingEntries, newEntry.value, FormatAll(existingEntries).value);
    r := Ok(LogText(userContent, entryLines.value));
  }

  /** The loop of `appendLogEntry` and `appendOrBatchLogEntry` that pushes
      the formatted line of each entry in turn; the first entry whose
      timestamp cannot be rendered throws. */
  method PushFormatted(entryLines: seq<string>, es: seq<LogEntry>) returns (r: Result<seq<string>>)
    requires AllRenderable(es)
    ensures FormatAll(es).Err? ==> r == Err(RangeError)
    ensures FormatAll(es).Ok? ==> r == Ok(entryLines + FormatAll(es).value)
  {
    var pushed := entryLines;
    ghost var ls: seq<string> := [];
    assert es[..0] == [];
    for i := 0 to |es|
      invariant FormatAll(es[..i]) == Ok(ls) && pushed == entryLines + ls
    {
      var line := FormatLogEntry(es[i].timestamp, es[i].message);
      if line.Err? {
        FormatAllFails(es, i);
        return Err(line.error);
      }
      FormatAllSnoc(es, i, ls, line.value);
      Reassociate(entryLines, ls, [line.value]);
      pushed := pushed + [line.value];
      ls := ls + [line.value];
    }
    WholePrefix(es);
    r := Ok(pushed);
  }

  lemma RebuildHeadFails(content: string, message: string, ts: Stamp, rest: seq<LogEntry>)
    requires Renderable(ts) && AllRenderable(rest) && FormatLogEntry(ts, message).Err?
    ensures Rebuild(content, message, ts, rest) == Err(RangeError)
  {
  }

  lemma RebuildRestFails(content: string, message: string, ts: Stamp, rest: seq<LogEntry>)
    requires Renderable(ts) && AllRenderable(rest) && FormatAll(rest).Err?
    ensures Rebuild(content, message, ts, rest) == Err(RangeError)
  {
  }

  lemma RebuildRuns(content: string, message: string, ts: Stamp, rest: seq<LogEntry>, head: string, ls: seq<string>)
    requires Renderable(ts) && AllRenderable(rest)
    requires FormatLogEntry(ts, message) == Ok(head) && FormatAll(rest) == Ok(ls)
    ensures Rebuild(content, message, ts, rest) == Ok(LogText(StripTaskLog(content), [head] + ls))
  {
  }

  lemma FormatAllSnoc(es: seq<LogEntry>, i: nat, ls: seq<string>, l: string)
    requires AllRenderable(es) && i < |es|
    requires FormatAll(es[..i]) == Ok(ls) && FormatLogEntry(es[i].timestamp, es[i].message) == Ok(l)
    ensures FormatAll(es[..i + 1]) == Ok(ls + [l])
  {
    PrefixSnoc(es, i);
    FormatAllPush(es[..i + 1], ls, l);
  }

  /** Once one entry throws, formatting all of them throws. */
  lemma {:induction false} FormatAllFails(es: seq<LogEntry>, i: nat)
    requires AllRenderable(es) && i < |es|
    requires FormatLogEntry(es[i].timestamp, es[i].message).Err?
    ensures FormatAll(es) == Err(RangeError)
    decreases |es|
  {
    if i < |es| - 1 {
      var init := es[..|es| - 1];
      assert init[i] == es[i];
      FormatAllFails(init, i);
    }
  }

  /** `isSameMessageType`: only identical messages are batched. */
  predicate SameMessageType(msg1: string, msg2: string) {
    msg1 == msg2
  }

  /** The batching condition of `appendOrBatchLogEntry`: the minutes between
      the newest entry and the new time are below the window and the
      messages are of the same type. An invalid date makes the difference NaN,
      which is never below the window. */
  predicate Coalesces(head: LogEntry, message: string, batchMinutes: int, ts: Stamp) {
    ts.Valid? && head.timestamp.Valid?
    && ts.ms - head.timestamp.ms < batchMinutes * 60000
    && SameMessageType(head.message, message)
  }

  /** What `appendOrBatchLogEntry` returns. */
  function BatchedText(content: string, message: string, batchMinutes: int, ts: Stamp): Result<string>
    requires Renderable(ts)
  {
    var es := TaskLog(content);
    TaskLogRenderable(content);
    if |es| == 0 then AppendedText(content, message, ts)
    else if Coalesces(es[0], message, batchMinutes, ts) then Rebuild(content, message, ts, es[1..])
    else AppendedText(content, message, ts)
  }

  /** `appendOrBatchLogEntry` */
  method AppendOrBatchLogEntry(content: string, message: string, batchMinutes: int, timestamp: Stamp)
    returns (r: Result<string>)
    requires Renderable(timestamp)
    ensures r == BatchedText(content, message, batchMinutes, timestamp)
  {
    var existingEntries := ParseTaskLog(content);
    TaskLogRenderable(content);
    if |existingEntries| == 0 {
      r := AppendLogEntry(content, message, timestamp);
      return;
    }
    var mostRecent := existingEntries[0];
    if Coalesces(mostRecent, message, batchMinutes, timestamp) {
      var userContent := StripTaskLog(content);
      var newEntry := FormatLogEntry(timestamp, message).value;
      var rest := existingEntries[1..];
      assert AllRenderable(rest) by {
        forall k | 0 <= k < |rest| ensures Renderable(rest[k].timestamp) {
          assert rest[k] == existingEntries[k + 1];
        }
      }
      var entryLines := PushFormatted([newEntry], rest);
      if entryLines.Err? {
        RebuildRestFails(content, message, timestamp, rest);
        return Err(entryLines.error);
      }
      RebuildRuns(content, message, timestamp, rest, newEntry, FormatAll(rest).value);
      return Ok(LogText(userContent, entryLines.value));
    }
    r := AppendLogEntry(content, message, timestamp);
  }

  // ---- reading back what was written ----

  /** A message that survives the trip through a log line: `(.+)$` accepts
      it and trimming the line leaves its last character. */
  predicate GoodMessage(m: string) {
    DotPlus(m) && !IsWhitespace(m[|m| - 1])
  }

  /** An entry `formatLogEntry` can write and `parseTaskLog` can read. */
  predicate Writable(e: LogEntry) {
    e.timestamp.Valid? && MinMs <= e.timestamp.ms <= MaxMs && GoodMessage(e.message)
  }

  /** The entry as it reads back: the seconds-precision stamp keeps the second. */
  function AtSecond(e: LogEntry): LogEntry {
    match e.timestamp
    case Invalid => e
    case Valid(ms) => LogEntry(Valid(TruncateToSecond(ms)), e.message)
  }

  function AtSeconds(es: seq<LogEntry>): (r: seq<LogEntry>)
    ensures |r| == |es|
  {
    seq(|es|, k requires 0 <= k < |es| => AtSecond(es[k]))
  }

  lemma AtSecondsPush(es: seq<LogEntry>)
    requires es != []
    ensures AtSeconds(es) == AtSeconds(es[..|es| - 1]) + [AtSecond(es[|es| - 1])]
  {
  }

  /** `formatTimestamp` of a valid date is the seconds-precision ISO 8601 form. */
  lemma FormatTimestampSeconds(ms: int)
    requires MinMs <= ms <= MaxMs
    ensures FormatTimestamp(Valid(ms)) == Ok(IsoSeconds(ms))
  {
    var d := FromMs(ms);
    MillisSpelled(d);
    var iso := IsoMillis(ms);
    assert iso[20..23][0] == iso[20] && iso[20..23][1] == iso[21] && iso[20..23][2] == iso[22];
    assert MillisSuffix(iso);
    assert iso[..19] == IsoDateTime(d);
  }

  /** The line of a writable entry holds no newline and reads back as the
      entry at second precision. */
  lemma ReadFormatted(e: LogEntry)
    requires Writable(e)
    ensures FormatLogEntry(e.timestamp, e.message).Ok?
    ensures var l := FormatLogEntry(e.timestamp, e.message).value;
      '\n' !in l && LineEntry(l) == [AtSecond(e)]
  {
    var ms := e.timestamp.ms;
    SecondsStamp(ms);
    ReadLine(e.timestamp, e.message, IsoSeconds(ms));
  }

  lemma ReadLine(st: Stamp, m: string, t: string)
    requires Renderable(st) && FormatTimestamp(st) == Ok(t) && StampShape(t) && GoodMessage(m)
    ensures var l := "- " + t + " | " + m;
      FormatLogEntry(st, m) == Ok(l) && '\n' !in l && LineEntry(l) == [LogEntry(ParseIso(t), m)]
  {
    EntryLine(t, m);
  }

  /** The seconds-precision form has the shape of an entry's stamp and
      reads back as the time truncated to the second. */
  lemma SecondsStamp(ms: int)
    requires MinMs <= ms <= MaxMs
    ensures FormatTimestamp(Valid(ms)) == Ok(IsoSeconds(ms))
    ensures StampShape(IsoSeconds(ms)) && ParseIso(IsoSeconds(ms)) == Valid(TruncateToSecond(ms))
  {
    FormatTimestampSeconds(ms);
    SecondsSpelled(FromMs(ms));
    ParseIsoSeconds(ms);
  }

  lemma LineEntryOf(l: string, e: LogEntry)
    requires l != "" && Trim(l) == l && EntryOfLine(l) == Some(e)
    ensures LineEntry(l) == [e]
  {
  }

  /** A line of an entry: a stamp of the right shape and a good message. */
  lemma EntryLine(t: string, m: string)
    requires StampShape(t) && GoodMessage(m)
    ensures var l := "- " + t + " | " + m;
      '\n' !in l && LineEntry(l) == [LogEntry(ParseIso(t), m)]
  {
    var l := "- " + t + " | " + m;
    assert l[..2] == "- " && l[2..22] == t && l[22..25] == " | " && l[25..] == m;
    TrimKeeps(l);
    LineEntryOf(l, LogEntry(ParseIso(t), m));
    EntryLineOneLine(t, m);
  }

  lemma EntryLineOneLine(t: string, m: string)
    requires StampShape(t) && DotPlus(m)
    ensures '\n' !in "- " + t + " | " + m
  {
    var l := "- " + t + " | " + m;
    forall k | 0 <= k < |l| ensures l[k] != '\n' {
      if 2 <= k < 22 {
        assert l[k] == t[k - 2];
        StampChar(t, k - 2);
      } else if 25 <= k {
        assert l[k] == m[k - 25];
      }
    }
  }

  lemma StampChar(t: string, k: nat)
    requires StampShape(t) && k < 20
    ensures t[k] != '\n'
  {
    if k < 4 { assert t[0..4][k] == t[k]; }
    else if 5 <= k < 7 { assert t[5..7][k - 5] == t[k]; }
    else if 8 <= k < 10 { assert t[8..10][k - 8] == t[k]; }
    else if 11 <= k < 13 { assert t[11..13][k - 11] == t[k]; }
    else if 14 <= k < 16 { assert t[14..16][k - 14] == t[k]; }
    else if 17 <= k < 19 { assert t[17..19][k - 17] == t[k]; }
  }

  /** Formatting entries that can all be written gives their lines, none
      with a newline, and those lines read back as the entries at second
      precision. */
  lemma {:induction false} ReadFormattedAll(es: seq<LogEntry>)
    requires forall k :: 0 <= k < |es| ==> Writable(es[k])
    ensures AllRenderable(es) && FormatAll(es).Ok?
    ensures OneLineEach(FormatAll(es).value)
    ensures LineEntries(FormatAll(es).value) == AtSeconds(es)
    decreases |es|
  {
    if es != [] {
      var init := es[..|es| - 1];
      var last := es[|es| - 1];
      assert forall k :: 0 <= k < |init| ==> init[k] == es[k];
      ReadFormattedAll(init);
      ReadFormatted(last);
      var ls := FormatAll(init).value;
      var l := FormatLogEntry(last.timestamp, last.message).value;
      FormatAllPush(es, ls, l);
      LineEntriesPush(ls, l);
      OneLineEachPush(ls, l);
      AtSecondsPush(es);
    }
  }

  /** No line holds a newline. */
  predicate OneLineEach(ls: seq<string>) {
    forall k :: 0 <= k < |ls| ==> '\n' !in ls[k]
  }

  lemma OneLineEachPush(ls: seq<string>, l: string)
    requires OneLineEach(ls) && '\n' !in l
    ensures OneLineEach(ls + [l])
  {
    assert forall k :: 0 <= k < |ls| ==> (ls + [l])[k] == ls[k];
  }

  lemma FormatAllPush(es: seq<LogEntry>, ls: seq<string>, l: string)
    requires es != [] && AllRenderable(es)
    requires FormatAll(es[..|es| - 1]) == Ok(ls)
    requires FormatLogEntry(es[|es| - 1].timestamp, es[|es| - 1].message) == Ok(l)
    ensures FormatAll(es) == Ok(ls + [l])
  {
  }

  lemma LineEntriesConcat(a: seq<string>, b: seq<string>)
    ensures LineEntries(a + b) == LineEntries(a) + LineEntries(b)
  {
    FlatMapConcat(a, b, LineEntry);
  }

  lemma LineEntriesPush(lines: seq<string>, x: string)
    ensures LineEntries(lines + [x]) == LineEntries(lines) + LineEntry(x)
  {
    FlatMapPush(lines, x, LineEntry);
  }

  // ---- where the marker is found ----

  /** A match of the marker regex ends where `MarkerEnd` says: reading it
      needs only the first `MarkerEnd` characters. */
  lemma MarkerInPrefix(s: string, t: string, i: nat)
    requires |s| <= |t| && t[..|s|] == s
    requires MarkerAt(t, i) && MarkerEnd(t, i) <= |s|
    ensures MarkerAt(s, i)
  {
    if t[i] == '\n' {
      assert s[i + 1..i + 15] == t[i + 1..i + 15];
    } else {
      assert s[0..14] == t[0..14];
    }
  }

  /** A match in a prefix is a match in the whole string. */
  lemma MarkerInWhole(s: string, t: string, i: nat)
    requires |s| <= |t| && t[..|s|] == s && MarkerAt(s, i)
    ensures MarkerAt(t, i)
  {
    if i == 0 && OccursAt(s, Marker, 0) {
      assert t[0..14] == s[0..14];
    } else {
      assert t[i + 1..i + 15] == s[i + 1..i + 15];
    }
  }

  /** What `stripTaskLog` keeps holds no marker. */
  lemma StripLeavesNoMarker(content: string)
    ensures forall i :: !MarkerAt(StripTaskLog(content), i)
  {
    var u := StripTaskLog(content);
    if content != "" && SearchMarker(content).Some? {
      var p := SearchMarker(content).value;
      assert u == content[..|u|] && |u| <= p;
      forall i | MarkerAt(u, i) ensures false {
        MarkerInWhole(u, content, i);
      }
    }
  }

  /** The marker's newlines are at offsets 3, 4 and 13. */
  lemma MarkerNewlines(j: nat)
    requires j < 14 && Marker[j] == '\n'
    ensures j == 3 || j == 4 || j == 13
  {
  }

  /** A marker occurrence cannot straddle the end of `user` when the text
      after it starts with a newline and a star, unless `user` ends with
      the marker's first 13 characters. */
  lemma NoStraddle(user: string, tail: string, q: nat)
    requires |tail| >= 2 && tail[0] == '\n' && tail[1] == '*'
    requires !EndsWith(user, Marker[..13])
    requires q <= |user| < q + 14
    ensures !OccursAt(user + tail, Marker, q)
  {
    var text := user + tail;
    var u := |user|;
    var j := u - q;
    if q + 14 <= |text| {
      var w := text[q..q + 14];
      assert w[j] == text[u] == '\n';
      if j == 13 {
        assert w[..13] == text[q..u];
        assert text[q..u] == user[q..];
      } else if j == 3 || j == 4 {
        assert w[j + 1] == text[u + 1] == '*';
      } else if w == Marker {
        MarkerNewlines(j);
      }
    }
  }

  /** No match starts inside `user` when it holds no marker, does not end
      with the marker's first 13 characters, and is followed by a newline
      and a star. */
  lemma NoMarkerBefore(user: string, tail: string, k: nat)
    requires forall i :: !MarkerAt(user, i)
    requires |tail| >= 2 && tail[0] == '\n' && tail[1] == '*'
    requires !EndsWith(user, Marker[..13])
    requires k < |user|
    ensures !MarkerAt(user + tail, k)
  {
    var text := user + tail;
    var u := |user|;
    assert text[k] == user[k];
    assert !MarkerAt(user, k);
    if k == 0 {
      if 14 <= u {
        assert text[0..14] == user[0..14];
      } else {
        NoStraddle(user, tail, 0);
      }
    }
    if k + 15 <= u {
      assert text[k + 1..k + 15] == user[k + 1..k + 15];
    } else {
      NoStraddle(user, tail, k + 1);
    }
  }

  /** Under those conditions the first match is the one right after `user`. */
  lemma MarkerAfterUser(user: string, tail: string)
    requires forall i :: !MarkerAt(user, i)
    requires |tail| >= 15 && tail[0] == '\n' && tail[1..15] == Marker
    requires !EndsWith(user, Marker[..13])
    ensures SearchMarker(user + tail) == Some(|user|)
  {
    var text := user + tail;
    forall k: nat | k < |user| ensures !MarkerAt(text, k) {
      NoMarkerBefore(user, tail, k);
    }
    assert text[|user| + 1..|user| + 15] == tail[1..15];
    assert MarkerAt(text, |user|);
  }

  // ---- the appended text read back ----

  /** The section after the marker is a newline and then the lines: the
      empty first line adds no entry. */
  lemma SectionLines(lines: seq<string>)
    requires lines != [] && OneLineEach(lines)
    ensures LineEntries(Split("\n" + Join(lines, "\n"), '\n')) == LineEntries(lines)
  {
    var parts := [""] + lines;
    assert parts[1..] == lines;
    assert Join(parts, "\n") == "\n" + Join(lines, "\n");
    SplitJoin(parts, '\n');
    LineEntriesConcat([""], lines);
    assert LineEntries([""]) == [];
  }

  /** The marker starts with a star, so `trimStart` keeps all of it. */
  lemma MarkerTrimmed()
    ensures TrimStart(Marker) == Marker && Marker[..3] == "***"
  {
    assert !IsWhitespace(Marker[0]);
  }

  /** A text that starts with the marker: the log section is what follows. */
  lemma ReadAtStart(body: string)
    ensures var text := Marker + body;
      SearchMarker(text) == Some(0) && RemoveMarker(text) == body
  {
    var text := Marker + body;
    assert text[0..14] == Marker;
    assert MarkerAt(text, 0);
    assert text[14..] == body;
  }

  /** A text made of a user part, a newline and the marker: the match is the
      one after the user part and the log section is what follows it. */
  lemma ReadAfterUser(user: string, body: string)
    requires user != ""
    requires forall i :: !MarkerAt(user, i)
    requires !EndsWith(user, Marker[..13])
    ensures var tail := "\n" + Marker + body;
      SearchMarker(user + tail) == Some(|user|) && RemoveMarker(tail) == body
  {
    var tail := "\n" + Marker + body;
    assert tail[1..15] == Marker;
    MarkerAfterUser(user, tail);
    assert MarkerAt(tail, 0);
    assert tail[15..] == body;
  }

  /** What is read back from a text whose first match is at `p` and whose
      log section, once the marker is removed, is `body`. */
  lemma ReadsAt(text: string, p: nat, body: string)
    requires text != "" && SearchMarker(text) == Some(p) && RemoveMarker(text[p..]) == body
    ensures TaskLog(text) == LineEntries(Split(body, '\n'))
    ensures StripTaskLog(text) == TrimEnd(text[..p])
  {
  }

  /** The text `appendLogEntry` assembles from a user part that holds no
      marker (and does not end with the marker's first 13 characters) and
      from one-line entry lines: the log read back is the entries of those
      lines and the user part read back is the user part without trailing
      whitespace; an empty user part makes the text start with `***`. */
  lemma LogTextReads(user: string, lines: seq<string>)
    requires forall i :: !MarkerAt(user, i)
    requires !EndsWith(user, Marker[..13])
    requires lines != [] && OneLineEach(lines)
    ensures TaskLog(LogText(user, lines)) == LineEntries(lines)
    ensures StripTaskLog(LogText(user, lines)) == TrimEnd(user)
    ensures user == "" ==> StartsWith(LogText(user, lines), "***")
  {
    var j := Join(lines, "\n");
    SectionLines(lines);
    if user == "" {
      LogTextStart(lines, j);
      ReadsAt(LogText(user, lines), 0, "\n" + j);
    } else {
      LogTextAfterUser(user, lines, j);
      ReadsAt(LogText(user, lines), |user|, "\n" + j);
    }
  }

  lemma LogTextStart(lines: seq<string>, j: string)
    requires j == Join(lines, "\n")
    ensures var text := LogText("", lines);
      text != "" && SearchMarker(text) == Some(0) && RemoveMarker(text[0..]) == "\n" + j
      && text[..0] == "" && StartsWith(text, "***")
  {
    var text := LogText("", lines);
    MarkerTrimmed();
    Reassociate(Marker, "\n", j);
    ReadAtStart("\n" + j);
    assert text[0..] == text;
    assert text[..3] == Marker[..3];
  }

  lemma LogTextAfterUser(user: string, lines: seq<string>, j: string)
    requires user != ""
    requires forall i :: !MarkerAt(user, i)
    requires !EndsWith(user, Marker[..13])
    requires j == Join(lines, "\n")
    ensures var text := LogText(user, lines);
      text != "" && SearchMarker(text) == Some(|user|) && RemoveMarker(text[|user|..]) == "\n" + j
      && text[..|user|] == user
  {
    var text := LogText(user, lines);
    var body := "\n" + j;
    var tail := "\n" + Marker + body;
    Reassociate("\n" + Marker, "\n", j);
    ReadAfterUser(user, body);
    assert text[|user|..] == tail;
    assert text[..|user|] == user;
  }

  // ---- what parsing yields ----

  /** An entry as `parseTaskLog` yields it: a message that reads back, a
      whole-second stamp and one `toISOString()` can render. */
  predicate Parsed(e: LogEntry) {
    GoodMessage(e.message) && AtSecond(e) == e && Renderable(e.timestamp)
  }

  predicate AllParsed(es: seq<LogEntry>) {
    forall k :: 0 <= k < |es| ==> Parsed(es[k])
  }

  lemma LineEntryParsed(line: string)
    ensures AllParsed(LineEntry(line))
  {
    var t := Trim(line);
    if t != "" && EntryOfLine(t).Some? {
      EntryOfLineParsed(t);
    }
  }

  lemma EntryOfLineParsed(t: string)
    requires t != "" && !IsWhitespace(t[|t| - 1]) && EntryOfLine(t).Some?
    ensures Parsed(EntryOfLine(t).value)
  {
    var e := EntryOfLine(t).value;
    assert e.message[|e.message| - 1] == t[|t| - 1];
    if e.timestamp.Valid? {
      ParseIsoWholeSecond(t[2..22]);
    }
  }

  lemma {:induction false} LineEntriesParsed(lines: seq<string>)
    ensures AllParsed(LineEntries(lines))
    decreases |lines|
  {
    if lines != [] {
      LineEntriesParsed(lines[..|lines| - 1]);
      LineEntryParsed(lines[|lines| - 1]);
    }
  }

  /** Every entry `parseTaskLog` yields has a message that survives a trip
      through a log line and a whole-second stamp. */
  lemma TaskLogParsed(content: string)
    ensures AllParsed(TaskLog(content))
  {
    if content != "" && SearchMarker(content).Some? {
      var p := SearchMarker(content).value;
      LineEntriesParsed(Split(RemoveMarker(content[p..]), '\n'));
    }
  }

  /** Reading back at second precision leaves parsed entries as they are. */
  lemma AtSecondsParsed(es: seq<LogEntry>)
    requires AllParsed(es)
    ensures AtSeconds(es) == es
  {
  }

  // ---- stripping ----

  lemma NoMatchSearch(s: string)
    requires forall i :: !MarkerAt(s, i)
    ensures SearchMarker(s) == None
  {
  }

  /** Without a marker there is no log and `stripTaskLog` keeps the content. */
  lemma NoMarkerNoLog(content: string)
    requires forall i :: !MarkerAt(content, i)
    ensures TaskLog(content) == [] && StripTaskLog(content) == content
  {
    NoMatchSearch(content);
  }

  /** `stripTaskLog` is idempotent. */
  lemma StripIdempotent(content: string)
    ensures StripTaskLog(StripTaskLog(content)) == StripTaskLog(content)
  {
    StripLeavesNoMarker(content);
    NoMarkerNoLog(StripTaskLog(content));
  }

  // ---- appending read back ----

  /** The rebuilt text of content whose later entries `rest` are writable:
      its log is the new entry at second precision followed by `rest` at
      second precision, and its user part read back is the old one without
      trailing whitespace. */
  lemma RebuildReads(content: string, message: string, ts: Stamp, rest: seq<LogEntry>)
    requires Writable(LogEntry(ts, message))
    requires forall k :: 0 <= k < |rest| ==> Writable(rest[k])
    requires !EndsWith(StripTaskLog(content), Marker[..13])
    ensures AllRenderable(rest) && Rebuild(content, message, ts, rest).Ok?
    ensures var t := Rebuild(content, message, ts, rest).value;
      TaskLog(t) == [AtSecond(LogEntry(ts, message))] + AtSeconds(rest)
      && StripTaskLog(t) == TrimEnd(StripTaskLog(content))
      && (StripTaskLog(content) == "" ==> StartsWith(t, "***"))
  {
    var e := LogEntry(ts, message);
    ReadFormatted(e);
    ReadFormattedAll(rest);
    var head := FormatLogEntry(ts, message).value;
    var ls := FormatAll(rest).value;
    RebuildRuns(content, message, ts, rest, head, ls);
    OneLineEachFront(head, ls);
    LineEntriesFront(head, ls);
    StripLeavesNoMarker(content);
    LogTextReads(StripTaskLog(content), [head] + ls);
  }

  lemma OneLineEachFront(head: string, ls: seq<string>)
    requires '\n' !in head && OneLineEach(ls)
    ensures OneLineEach([head] + ls)
  {
    assert forall k :: 0 < k < |ls| + 1 ==> ([head] + ls)[k] == ls[k - 1];
  }

  lemma LineEntriesFront(head: string, ls: seq<string>)
    ensures LineEntries([head] + ls) == LineEntry(head) + LineEntries(ls)
  {
    LineEntriesConcat([head], ls);
    LineEntriesOne(head);
  }

  lemma LineEntriesOne(x: string)
    ensures LineEntries([x]) == LineEntry(x)
  {
    FlatMapOne(x, LineEntry);
  }

  /** `appendLogEntry` read back: with a valid stamp, a message that
      survives a log line and old entries whose stamps are valid, the log of
      the result is the new entry (at second precision) followed by the old
      log, the user part is kept (without trailing whitespace), and an empty
      user part makes the result start with `***`. The user part must not
      end with the marker's first 13 characters. */
  lemma AppendRoundTrip(content: string, message: string, ts: Stamp)
    requires Writable(LogEntry(ts, message))
    requires AllValid(TaskLog(content))
    requires !EndsWith(StripTaskLog(content), Marker[..13])
    ensures Renderable(ts) && AppendedText(content, message, ts).Ok?
    ensures var t := AppendedText(content, message, ts).value;
      TaskLog(t) == [AtSecond(LogEntry(ts, message))] + TaskLog(content)
      && StripTaskLog(t) == TrimEnd(StripTaskLog(content))
      && (StripTaskLog(content) == "" ==> StartsWith(t, "***"))
  {
    var es := TaskLog(content);
    TaskLogParsed(content);
    RebuildReads(content, message, ts, es);
    AtSecondsParsed(es);
  }

  /** Without that condition the round trip fails: a content that is the
      marker's first 13 characters (a rule, a blank line and `task-log`)
      holds no marker, but once `appendLogEntry` adds its newline the marker
      is found at the start, so the user part read back is empty and the
      text the user wrote is lost into the log. */
  lemma AppendLosesUserText(message: string, ts: Stamp)
    requires Writable(LogEntry(ts, message))
    ensures var c := Marker[..13];
      Renderable(ts) && AppendedText(c, message, ts).Ok?
      && StripTaskLog(AppendedText(c, message, ts).value) == ""
      && TrimEnd(StripTaskLog(c)) == c != ""
  {
    var c := Marker[..13];
    PartialMarker();
    var head := FormatLogEntry(ts, message).value;
    var text := AppendedText(c, message, ts).value;
    assert text == LogText(c, [head]);
    LogTextAfterPartial([head]);
    StripAtStart(text);
  }

  /** The marker without its last newline holds no marker, and is its own
      user part, unchanged by `trimEnd`. */
  lemma PartialMarker()
    ensures var c := Marker[..13];
      StripTaskLog(c) == c && TaskLog(c) == [] && TrimEnd(c) == c != ""
  {
    var c := Marker[..13];
    assert forall i :: !MarkerAt(c, i);
    assert SearchMarker(c).None?;
    TrimEndKeepsChar(c, 12);
  }

  /** Written after that user part, the log starts with a whole marker. */
  lemma LogTextAfterPartial(lines: seq<string>)
    ensures var t := LogText(Marker[..13], lines);
      |t| >= |Marker| && t[..|Marker|] == Marker
  {
    var t := LogText(Marker[..13], lines);
    var tail := "\n" + Marker + "\n" + Join(lines, "\n");
    assert t == Marker[..13] + tail;
    assert t[..13] == Marker[..13];
    assert t[13] == '\n';
  }

  /** A content that starts with the marker has an empty user part. */
  lemma StripAtStart(text: string)
    requires |text| >= |Marker| && text[..|Marker|] == Marker
    ensures StripTaskLog(text) == ""
  {
    assert MarkerAt(text, 0);
    assert SearchMarker(text) == Some(0);
    assert text[..0] == "";
  }

  /** `appendOrBatchLogEntry` read back, under the same conditions: when
      the newest entry is batched with the new one, the log keeps its
      length, its head becomes the new entry and its tail is untouched;
      otherwise the new entry is prepended, as by `appendLogEntry`. */
  lemma BatchRoundTrip(content: string, message: string, batchMinutes: int, ts: Stamp)
    requires Writable(LogEntry(ts, message))
    requires AllValid(TaskLog(content))
    requires !EndsWith(StripTaskLog(content), Marker[..13])
    ensures Renderable(ts) && BatchedText(content, message, batchMinutes, ts).Ok?
    ensures var es := TaskLog(content);
      var t := BatchedText(content, message, batchMinutes, ts).value;
      var batched := es != [] && Coalesces(es[0], message, batchMinutes, ts);
      (batched ==> TaskLog(t) == [AtSecond(LogEntry(ts, message))] + es[1..])
      && (!batched ==> TaskLog(t) == [AtSecond(LogEntry(ts, message))] + es)
      && (|TaskLog(t)| == |es| <==> batched)
      && StripTaskLog(t) == TrimEnd(StripTaskLog(content))
  {
    var es := TaskLog(content);
    TaskLogParsed(content);
    if es != [] && Coalesces(es[0], message, batchMinutes, ts) {
      var rest := es[1..];
      assert forall k :: 0 <= k < |rest| ==> rest[k] == es[k + 1];
      RebuildReads(content, message, ts, rest);
      AtSecondsParsed(rest);
    } else {
      AppendRoundTrip(content, message, ts);
    }
  }

  // ---- when appending throws ----

  /** Formatting all entries succeeds exactly when every date is valid. */
  lemma {:induction false} FormatAllOk(es: seq<LogEntry>)
    requires AllRenderable(es)
    ensures FormatAll(es).Ok? <==> AllValid(es)
    decreases |es|
  {
    if es != [] {
      var init := es[..|es| - 1];
      AllValidPush(es);
      FormatAllOk(init);
      FormatAllStep(es);
    }
  }

  predicate AllValid(es: seq<LogEntry>) {
    forall k :: 0 <= k < |es| ==> es[k].timestamp.Valid?
  }

  lemma AllValidPush(es: seq<LogEntry>)
    requires es != []
    ensures AllRenderable(es) ==> AllRenderable(es[..|es| - 1])
    ensures AllValid(es) <==> AllValid(es[..|es| - 1]) && es[|es| - 1].timestamp.Valid?
  {
    var init := es[..|es| - 1];
    assert forall k :: 0 <= k < |init| ==> init[k] == es[k];
  }

  lemma FormatAllStep(es: seq<LogEntry>)
    requires es != [] && AllRenderable(es) && AllRenderable(es[..|es| - 1])
    ensures FormatAll(es).Ok? <==> FormatAll(es[..|es| - 1]).Ok? && es[|es| - 1].timestamp.Valid?
  {
  }

  /** `appendLogEntry` throws exactly when the new date or an old entry's
      date is invalid. */
  lemma AppendedOk(content: string, message: string, ts: Stamp)
    requires Renderable(ts)
    ensures AppendedText(content, message, ts).Ok?
      <==> ts.Valid? && AllValid(TaskLog(content))
  {
    TaskLogRenderable(content);
    FormatAllOk(TaskLog(content));
  }
}
