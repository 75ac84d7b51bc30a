/** The centralised task log (src/core/log.ts, `appendLogToFile`,
    `readLogFile`, `getTaskLog`): one file of newline-delimited JSON
    objects, one line per entry, only ever appended to. */
module CentralLog {
  import opened Wrappers
  import opened JsString
  import opened Calendar
  import opened Json
  import opened Sorting
  import opened Log

  /** The members `appendLogToFile` writes, in this order. */
  function Members(taskId: string, iso: string, message: string): seq<(string, string)> {
    [("taskId", taskId), ("timestamp", iso), ("message", message)]
  }

  /** The text `appendLogToFile` appends: the JSON object and a newline,
      the timestamp in `toISOString()` form; an invalid date throws. */
  function EntryText(e: FileLogEntry): (r: Result<string>)
    requires Renderable(e.timestamp)
    ensures r.Err? <==> e.timestamp.Invalid?
    ensures r.Err? ==> r.error == RangeError
  {
    match e.timestamp
    case Invalid => Err(RangeError)
    case Valid(ms) => Ok(ObjectLine(e.taskId, IsoMillis(ms), e.message))
  }

  /** `JSON.stringify({ taskId, timestamp, message }) + '\n'` */
  function ObjectLine(taskId: string, iso: string, message: string): string {
    StringifyStringObject(Members(taskId, iso, message)) + "\n"
  }

  /** What one line of the file contributes to `readLogFile`: nothing for
      a blank line, a line `JSON.parse` rejects, or a value without string
      `taskId`, `timestamp` and `message`. */
  function LineRecord(line: string): (r: seq<FileLogEntry>)
    ensures |r| <= 1
  {
    var trimmed := Trim(line);
    if trimmed == "" then []
    else match Parse(trimmed)
      case None => []
      case Some(v) =>
        match (GetString(v, "taskId"), GetString(v, "timestamp"), GetString(v, "message"))
        case (Some(id), Some(ts), Some(m)) => [FileLogEntry(id, ParseIso(ts), m)]
        case _ => []
  }

  /** The entries of the lines, in line order. */
  function Records(lines: seq<string>): seq<FileLogEntry> {
    FlatMap(lines, LineRecord)
  }

  /** What `readLogFile` returns for a file that exists (`present`) and
      holds `text`. */
  function ReadEntries(present: bool, text: string): seq<FileLogEntry> {
    if !present || Trim(text) == "" then [] else Records(Split(text, '\n'))
  }

  function OfTaskOne(id: string): FileLogEntry -> seq<FileLogEntry> {
    (e: FileLogEntry) => if e.taskId == id then [e] else []
  }

  /** `entries.filter((e) => e.taskId === taskId)` */
  function OfTask(es: seq<FileLogEntry>, id: string): seq<FileLogEntry> {
    FlatMap(es, OfTaskOne(id))
  }

  /** The sort key of `(a, b) => b.timestamp.getTime() - a.timestamp.getTime()`:
      later first. */
  function NewestFirst(e: FileLogEntry): Key {
    match e.timestamp
    case Valid(ms) => (-ms, 0)
    case Invalid => (0, 0)
  }

  /** What `getTaskLog` returns. */
  function TaskEntries(es: seq<FileLogEntry>, id: string): seq<FileLogEntry> {
    SortBy(OfTask(es, id), NewestFirst)
  }

  /** What one `appendLogToFile` does to the log file, given as whether it
      exists and its text: a missing file is created, and an invalid stamp
      throws before anything is written. */
  function AppendStep(file: (bool, string), e: FileLogEntry): (r: (bool, string))
    ensures e.timestamp.Invalid? || !Renderable(e.timestamp) ==> r == file
  {
    if e.timestamp.Valid? && Renderable(e.timestamp)
    then (true, (if file.0 then file.1 else "") + EntryText(e).value)
    else file
  }

  /** The log file: whether it exists and what it holds. */
  class LogFile {
    var present: bool
    var text: string

    constructor(present: bool, text: string)
      ensures this.present == present && this.text == text
    {
      this.present := present;
      this.text := text;
    }

    /** `appendLogToFile`: `appendFileSync` creates a missing file. */
    method AppendLogToFile(entry: FileLogEntry) returns (r: Result<()>)
      requires Renderable(entry.timestamp)
      modifies this
      ensures entry.timestamp.Invalid? ==> r == Err(RangeError) && unchanged(this)
      ensures entry.timestamp.Valid? ==>
        r == Ok(()) && present && text == (if old(present) then old(text) else "") + EntryText(entry).value
      ensures (present, text) == AppendStep((old(present), old(text)), entry)
    {
      if entry.timestamp.Invalid? {
        return Err(RangeError);
      }
      var line := StringifyStringObject(Members(entry.taskId, IsoMillis(entry.timestamp.ms), entry.message)) + "\n";
      if !present {
        text := "";
      }
      text := text + line;
      present := true;
      r := Ok(());
    }

    /** `readLogFile` */
    method ReadLogFile() returns (entries: seq<FileLogEntry>)
      ensures entries == ReadEntries(present, text)
    {
      if !present {
        return [];
      }
      var content := text;
      if Trim(content) == "" {
        return [];
      }
      var lines := Split(content, '\n');
      entries := ReadLines(lines);
    }

    /** The loop of `readLogFile` over the lines of the file. */
    static method ReadLines(lines: seq<string>) returns (entries: seq<FileLogEntry>)
      ensures entries == Records(lines)
    {
      entries := [];
      for i := 0 to |lines|
        invariant entries == Records(lines[..i])
      {
        RecordsSnoc(lines, i);
        var found := ReadLine(lines[i]);
        entries := entries + found;
      }
      WholePrefix(lines);
    }

    /** The body of the loop of `readLogFile`: a blank line is skipped, a
        line `JSON.parse` throws on is caught and skipped, and a value
        lacking one of the three string properties is skipped. */
    static method ReadLine(line: string) returns (found: seq<FileLogEntry>)
      ensures found == LineRecord(line)
    {
      found := [];
      var trimmed := Trim(line);
      if trimmed == "" {
        return;
      }
      var parsed := Parse(trimmed);
      if parsed.None? {
        return;
      }
      var id := GetString(parsed.value, "taskId");
      var ts := GetString(parsed.value, "timestamp");
      var m := GetString(parsed.value, "message");
      if id.Some? && ts.Some? && m.Some? {
        found := [FileLogEntry(id.value, ParseIso(ts.value), m.value)];
      }
    }

    /** `getTaskLog` */
    method GetTaskLog(taskId: string) returns (entries: seq<FileLogEntry>)
      ensures entries == TaskEntries(ReadEntries(present, text), taskId)
    {
      var allEntries := ReadLogFile();
      var taskEntries := OfTask(allEntries, taskId);
      entries := SortBy(taskEntries, NewestFirst);
    }
  }

  lemma RecordsSnoc(lines: seq<string>, i: nat)
    requires i < |lines|
    ensures Records(lines[..i + 1]) == Records(lines[..i]) + LineRecord(lines[i])
  {
    assert lines[..i + 1] == lines[..i] + [lines[i]];
    FlatMapPush(lines[..i], lines[i], LineRecord);
  }

  // ---- properties ----

  /** The appended text is one line, a JSON object and its newline, and
      that line reads back as the entry it was written from. */
  lemma ObjectLineReads(taskId: string, iso: string, message: string)
    ensures var t := ObjectLine(taskId, iso, message);
      |t| >= 3 && t[0] == '{' && t[|t| - 1] == '\n' && '\n' !in t[..|t| - 1]
      && LineRecord(t[..|t| - 1]) == [FileLogEntry(taskId, ParseIso(iso), message)]
  {
    var t := ObjectLine(taskId, iso, message);
    var ms := Members(taskId, iso, message);
    var o := StringifyStringObject(ms);
    assert t[..|t| - 1] == o;
    StringifyOneLine(ms);
    BracesNotWhitespace();
    TrimKeeps(o);
    StringObjectRoundTrip(ms);
    ReadMembers(taskId, iso, message);
  }

  /** The written line reads back as the entry: `new Date` reads the
      timestamp `toISOString()` wrote. */
  lemma EntryTextReads(e: FileLogEntry)
    requires Renderable(e.timestamp) && e.timestamp.Valid?
    ensures var t := EntryText(e).value;
      |t| >= 3 && t[0] == '{' && t[|t| - 1] == '\n' && '\n' !in t[..|t| - 1]
      && LineRecord(t[..|t| - 1]) == [e]
  {
    ObjectLineReads(e.taskId, IsoMillis(e.timestamp.ms), e.message);
    ParseIsoMillis(e.timestamp.ms);
  }

  lemma BracesNotWhitespace()
    ensures !IsWhitespace('{') && !IsWhitespace('}')
  {
  }

  /** Reading the three properties of the written object. */
  lemma ReadMembers(taskId: string, iso: string, message: string)
    ensures var v := StringObject(Members(taskId, iso, message));
      GetString(v, "taskId") == Some(taskId) && GetString(v, "timestamp") == Some(iso)
      && GetString(v, "message") == Some(message)
  {
    var ps := StringPairs(Members(taskId, iso, message));
    assert ps == [("taskId", JString(taskId)), ("timestamp", JString(iso)), ("message", JString(message))];
    assert ps[..2] == [("taskId", JString(taskId)), ("timestamp", JString(iso))];
    assert ps[..2][..1] == [("taskId", JString(taskId))];
    assert Get(ps[..2][..1], "taskId") == Some(JString(taskId));
    assert Get(ps[..2], "taskId") == Some(JString(taskId));
    assert Get(ps, "taskId") == Some(JString(taskId));
    assert Get(ps[..2], "timestamp") == Some(JString(iso));
    assert Get(ps, "timestamp") == Some(JString(iso));
  }

  /** A blank file reads as no entries, whichever way it is looked at: the
      early return of `readLogFile` agrees with reading its lines. */
  lemma BlankRecords(text: string)
    requires Trim(text) == ""
    ensures Records(Split(text, '\n')) == []
  {
    var lines := Split(text, '\n');
    TrimEmpty(text);
    JoinWhitespace(lines, "\n");
    BlankLines(lines);
  }

  lemma {:induction false} BlankLines(lines: seq<string>)
    requires forall k :: 0 <= k < |lines| ==> AllWhitespace(lines[k])
    ensures Records(lines) == []
    decreases |lines|
  {
    if lines != [] {
      var init := lines[..|lines| - 1];
      var last := lines[|lines| - 1];
      assert forall k :: 0 <= k < |init| ==> init[k] == lines[k];
      BlankLines(init);
      TrimEmpty(last);
      assert lines == init + [last];
      FlatMapPush(init, last, LineRecord);
    }
  }

  lemma BlankRecord()
    ensures LineRecord("") == []
  {
    TrimEmpty("");
  }

  /** A line and its terminator: the line, then an empty last part that
      contributes nothing. */
  lemma LastLine<U>(t: string, c: char, f: string -> seq<U>)
    requires t != "" && t[|t| - 1] == c && c !in t[..|t| - 1] && f("") == []
    ensures FlatMap(Split(t, c), f) == f(t[..|t| - 1])
  {
    var o := t[..|t| - 1];
    assert t == o + [c] + "";
    SplitConcat(o, "", c);
    SplitJoin([o], c);
    SplitJoin([""], c);
    assert Split(t, c) == [o] + [""];
    FlatMapPush([o], "", f);
    FlatMapOne(o, f);
  }

  /** The parts of a text that ends with a separator, followed by more text. */
  lemma AfterSeparator<U>(x: string, t: string, c: char, f: string -> seq<U>)
    requires f("") == []
    ensures FlatMap(Split(x + [c] + t, c), f) == FlatMap(Split(x + [c], c), f) + FlatMap(Split(t, c), f)
  {
    assert x + [c] == x + [c] + "";
    SplitConcat(x, t, c);
    SplitConcat(x, "", c);
    FlatMapConcat(Split(x, c), Split(t, c), f);
    FlatMapConcat(Split(x, c), Split("", c), f);
    SplitJoin([""], c);
    FlatMapOne("", f);
  }

  /** Reading after an append: the entries read before, then the new entry,
      for a file that is missing, empty, or ends with a newline (as every
      file written only by appends does). */
  lemma ReadAfterAppend(present: bool, text: string, e: FileLogEntry)
    requires Renderable(e.timestamp) && e.timestamp.Valid?
    requires !present || text == "" || text[|text| - 1] == '\n'
    ensures ReadEntries(true, (if present then text else "") + EntryText(e).value)
      == ReadEntries(present, text) + [e]
  {
    var t := EntryText(e).value;
    EntryTextReads(e);
    BlankRecord();
    LastLine(t, '\n', LineRecord);
    ReadAppendedLine(present, text, t, [e]);
  }

  /** The same for any appended text that starts with `{` and reads as `r`. */
  lemma ReadAppendedLine(present: bool, text: string, t: string, r: seq<FileLogEntry>)
    requires t != "" && t[0] == '{' && Records(Split(t, '\n')) == r
    requires !present || text == "" || text[|text| - 1] == '\n'
    ensures ReadEntries(true, (if present then text else "") + t) == ReadEntries(present, text) + r
  {
    if !present || text == "" {
      ReadFresh(t, r);
      TrimEmpty("");
      AppendEmpty(t);
      AppendEmpty(r);
    } else {
      ReadAfterText(text, t, r);
    }
  }

  /** A new file holding `t` reads as `t`'s lines. */
  lemma ReadFresh(t: string, r: seq<FileLogEntry>)
    requires t != "" && t[0] == '{' && Records(Split(t, '\n')) == r
    ensures ReadEntries(true, t) == r
  {
    NewTextNotBlank(t, 0);
  }

  /** A text ending in a newline, then `t`: its lines, then `t`'s. */
  lemma ReadAfterText(text: string, t: string, r: seq<FileLogEntry>)
    requires t != "" && t[0] == '{' && Records(Split(t, '\n')) == r
    requires text != "" && text[|text| - 1] == '\n'
    ensures ReadEntries(true, text + t) == ReadEntries(true, text) + r
  {
    var x := LastSeparator(text);
    NewTextNotBlank(text + t, |text|);
    BlankRecord();
    AfterSeparator(x, t, '\n', LineRecord);
    if Trim(text) == "" {
      BlankRecords(text);
    }
  }

  lemma LastSeparator(text: string) returns (x: string)
    requires text != "" && text[|text| - 1] == '\n'
    ensures text == x + ['\n']
  {
    x := text[..|text| - 1];
  }

  /** A text with a `{` at `i` is not blank. */
  lemma NewTextNotBlank(s: string, i: nat)
    requires i < |s| && s[i] == '{'
    ensures Trim(s) != ""
  {
    TrimEmpty(s);
  }

  /** `getTaskLog` keeps exactly the entries of the task, compared exactly. */
  lemma {:induction false} OfTaskExact(es: seq<FileLogEntry>, id: string, x: FileLogEntry)
    ensures x in OfTask(es, id) <==> x in es && x.taskId == id
    decreases |es|
  {
    if es != [] {
      var init := es[..|es| - 1];
      var last := es[|es| - 1];
      OfTaskExact(init, id, x);
      assert es == init + [last];
      FlatMapPush(init, last, OfTaskOne(id));
    }
  }

  /** `getTaskLog` returns a permutation of the task's entries, newest
      first, entries of the same time in file order. */
  lemma TaskEntriesSpec(es: seq<FileLogEntry>, id: string)
    ensures var r := TaskEntries(es, id);
      multiset(r) == multiset(OfTask(es, id))
      && (forall x :: x in r <==> x in es && x.taskId == id)
      && (forall i, j :: 0 <= i < j < |r| && r[i].timestamp.Valid? && r[j].timestamp.Valid?
            ==> r[i].timestamp.ms >= r[j].timestamp.ms)
      && (forall k :: WithKey(r, NewestFirst, k) == WithKey(OfTask(es, id), NewestFirst, k))
  {
    var f := OfTask(es, id);
    var r := TaskEntries(es, id);
    SortByPermutation(f, NewestFirst);
    SortBySorted(f, NewestFirst);
    forall x ensures x in r <==> x in es && x.taskId == id {
      assert x in r <==> x in multiset(r);
      assert x in f <==> x in multiset(f);
      OfTaskExact(es, id, x);
    }
    forall k ensures WithKey(r, NewestFirst, k) == WithKey(f, NewestFirst, k) {
      SortByStable(f, NewestFirst, k);
    }
  }
}
