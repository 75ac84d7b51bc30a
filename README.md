# simbl core in Dafny

simbl keeps a project's tasks in one Markdown document, `.simbl/tasks.md`. It has a `# Backlog` and a `# Done` section. Each task is an H2 heading `## <id> <title>`, an optional line of `[tag]` tags and free Markdown content. Some tags are reserved: `p1`…`p9`, `project:<name>`, `child-of-<id>`, `depends-on-<id>`, `in-progress`, `canceled` and `refined`. These give each task its priority, its project, its parent and dependencies, and its status. The CLI commands (`add`, `update`, `done`, `cancel`, `tag`, `relate`, `unrelate`, `ac`, `list`, `log`, `sync`, `doctor`, `init`) and the archive screen read this document, change it and write it back. Each change leaves a line in the central log `.simbl/log.ndjson`. Older documents kept the log inside each task behind a `***` rule and a `task-log` heading, and the migration moves those embedded logs into the central file.

This project models that core:

- **Tasks, tags and reserved tags** (`Tasks`). Ids and their numbering are in `TaskIds`, and the parent/depends-on graph is in `TaskGraph`.
- **Reading and writing the document** (`Parser`). The Markdown tokenizer and renderer are parameters of this module. `Commands` holds the document as a mutable file.
- **The commands against the document.** These are `AddCommand` with `Headings`, `UpdateCommand`, `DoneCommand`, `CancelCommand`, `TagCommand`, `Relate`, `Unrelate`, `AcCommand` over `Criteria`, `TaskList`, `LogCommand`, `Sync`, `Doctor`, `Init` and `Archive`.
- **The embedded task log** (`Log`) and **the central log file** (`CentralLog`). They rest on UTC calendar arithmetic and ISO-8601 timestamps (`Calendar`).
- **The migration from embedded to central logs** (`Migrate`).
- **The text helpers the source relies on.** These are JavaScript string operations (`JsString`), `JSON.parse` of one log line (`Json`), `sanitizeForJson` (`Sanitize`), sorting (`Sorting`), the web views' escaping, heading shifts and tag and priority extraction (`Templates`), and `Option`/`Result` with sequence utilities (`Wrappers`).

Operations that work step by step in the source are methods with loops, proved against specification functions: parsing and serialising the document, reading the log file, migrating, the doctor's checks and the commands' state changes. Objects whose state the source updates are classes: the tasks document (`Commands.TasksFile`), the central log file (`CentralLog.LogFile`) and the migration's store (`Migrate.Store`). Pure helpers are functions. The properties the source promises are lemmas about those functions.

## Model

| member | source | states |
|---|---|---|
| Tasks.ParseTag | src/core/task.ts:62-102 | the variant always spells the tag back, and a priority variant has a level in 1..9 |
| Tasks.ParseTagOrder | src/core/task.ts:71-101 | each tag gets exactly one variant, tried in order: priority, project, child-of, depends-on, the three literal tags, and custom for the rest |
| Tasks.LiteralTags | src/core/task.ts:95-98 | `in-progress`, `canceled` and `refined` are recognised exactly when the tag is that literal |
| Tasks.PriorityIsOneDigit | src/core/task.ts:72 | `p1` and `p9` are priorities, `p0` and `p10` are custom tags |
| Tasks.PrefixValue | src/core/task.ts:78-92 | the capture of `^<prefix>(.+)$` exists exactly when the tag starts with the prefix and a non-empty rest without line terminators follows, and the tag is the prefix followed by it |
| Tasks.ParseReservedTags | src/core/task.ts:107-143 | the loop over the tags computes the reserved record `ReservedOf` describes |
| Tasks.ReservedOfAppend | src/core/task.ts:115-140 | appending one tag changes the record by exactly that tag's contribution, and a custom tag changes nothing |
| Tasks.AbsorbFields | src/core/task.ts:117-139 | field by field, what one parsed tag sets: the priority, the project or the parent it names |
| Tasks.PriorityIsLast | src/core/task.ts:118-120 | the priority is that of the last priority tag, absent exactly when there is none, and always in 1..9 |
| Tasks.ProjectIsLast | src/core/task.ts:121-123 | the project is that of the last `project:` tag, absent exactly when there is none |
| Tasks.ParentIsLast | src/core/task.ts:124-126 | the parent is that of the last `child-of-` tag, absent exactly when there is none |
| Tasks.FlagsOf | src/core/task.ts:130-138 | each flag holds exactly when its literal tag occurs, however often |
| Tasks.DependsOnConcat | src/core/task.ts:127-129 | the dependencies are the depends-on values in tag order with duplicates kept, so they distribute over concatenation |
| Tasks.DependsOnMembers | src/core/task.ts:127-129 | a value is a dependency exactly when some tag is its depends-on tag |
| Tasks.NoTags | src/core/task.ts:108-113 | no tags give the empty record |
| Tasks.LastPriorityWins | src/core/task.ts:118-120 | `["p2", "p1"]` gives priority 1 |
| Tasks.DeriveStatus | src/core/task.ts:148-153 | canceled exactly when the canceled flag is set; otherwise done exactly in the done section; otherwise in-progress exactly when the flag is set; otherwise backlog |
| Tasks.ParseTagLine | src/core/task.ts:159-167 | the `exec` loop collects exactly the captures of `\[([^\]]+)\]`, left to right |
| Tasks.FormatTagLine | src/core/task.ts:172-175 | no tags give the empty line, otherwise the line starts with `[` |
| Tasks.TagLineRoundTrip | src/core/task.ts:159-175 | parsing a formatted tag line gives the tags back, for non-empty tags without `]` |
| Tasks.ReadBracket | src/core/task.ts:161-165 | one bracketed tag at the front is read back whatever follows |
| Tasks.TextOutsideIgnored | src/core/task.ts:161-165 | text without `[` between tags is skipped |
| Tasks.TagsWithGap | src/core/task.ts:157-166 | `[a] [b]` with any text without `[` between them reads as the two tags |
| Tasks.TagsInClean | src/core/task.ts:161 | every capture is non-empty and holds no `]` |
| Tasks.Exec | src/core/task.ts:163 | a match found from a position lies at or after it and spans at least three characters |
| TaskIds.ExtractIdNumber | src/utils/id.ts:9-13 | a number is found only when `-` and digits alone end the id, and it is those digits' value |
| TaskIds.ExtractIdNumberFinds | src/utils/id.ts:10-12 | whenever `-(\d+)$` matches, the number is found, so none is found exactly when the pattern does not match |
| TaskIds.TrailingDigits | src/utils/id.ts:10 | the length of the run of digits that ends the id |
| TaskIds.FindMaxIdNumber | src/utils/id.ts:18-27 | the result is at least every number found among the ids, and is 0 or one of them |
| TaskIds.GenerateNextId | src/utils/id.ts:32-64 | the new id is `prefix-(max+1)`: the prefix, `-`, and in shortest decimal form one more than the largest number among the ids of `tasks.md` and the archive (1 when none has a number); it has the prefix format and equals none of those ids |
| TaskIds.NextIdUnique | src/utils/id.ts:62-63 | the description of the next id leaves exactly one id for a given prefix and id list |
| TaskIds.ArchiveIdsFrom | src/utils/id.ts:53-56 | each capture of `^## ([a-zA-Z0-9-]+)` is a non-empty run of id characters |
| TaskIds.AboveMax | src/utils/id.ts:62-63 | an id whose number is above every number among the ids is none of them |
| TaskIds.NextNumber | src/utils/id.ts:63 | `prefix-n` carries the number n and has the prefix's format |
| TaskIds.ValidIdNumber | src/utils/id.ts:69-76 | every id `isValidId` accepts, with or without a prefix, carries a number |
| TaskIds.NothingToRename | src/utils/id.ts:81-88 | text with no `## <old>-<digit>` at a line start comes back unchanged |
| TaskIds.RenameToSame | src/utils/id.ts:81-88 | renaming a prefix to itself changes nothing |
| TaskIds.RenameHeading | src/utils/id.ts:86-87 | a heading line `## <old>-<digits><rest>` becomes `## <new>-<digits><rest>` |
| TaskGraph.LastWithId | src/cli/commands/relate.ts:15 | the position the task map keeps for an id is the last task with that id, and none exactly when no task has it |
| TaskGraph.Lookup | src/cli/commands/relate.ts:27 | a task found for an id has that id |
| TaskGraph.LookupIds | src/cli/commands/relate.ts:15-28 | the map has an entry exactly for the ids of the tasks |
| TaskGraph.LookupReplaced | src/cli/commands/relate.ts:15 | replacing a task by one with the same id changes no other lookup |
| TaskGraph.ParentEdge | src/cli/commands/relate.ts:31 | the parent edge exists exactly for a parent id that is present and not empty |
| TaskGraph.Succ | src/cli/commands/relate.ts:27-40 | an id no task has is a dead end |
| TaskGraph.Edges | src/cli/commands/relate.ts:27-40 | the edge set holds exactly the parent and dependency edges of the tasks the map keeps |
| TaskGraph.GrowsAcyclic | src/cli/commands/relate.ts:108-149 | edges from a task to ids from which the task cannot be reached close no cycle |
| TaskGraph.ClosedUnreachable | src/cli/commands/relate.ts:18-43 | nothing outside a visited set closed under successors is reachable from inside it |
| TaskGraph.CycleBack | src/cli/commands/relate.ts:108-149 | every cycle of the grown graph is a cycle of the old one, or some target already reaches the task in the old graph |
| Commands.Replaced | src/core/parser.ts:263-273 | replacing the k-th task of `getAllTasks` replaces it in its own section and leaves everything else |
| Commands.RewriteOne | src/core/parser.ts:263-273 | replacing one task leaves the others where they were |
| Commands.Retagged | src/core/task.ts:107-153 | a retagged task has the new tags, a record and status that agree with them, and the same id, title, content and section |
| Commands.WithoutParentReserved | src/cli/commands/relate.ts:114-115 | dropping every `child-of-` tag forgets the parent and nothing else |
| Commands.ParseChildOf | src/core/task.ts:84-87 | `child-of-p` reads back as the parent p when p is a non-empty line, else as a custom tag |
| Commands.ParseDependsOn | src/core/task.ts:90-93 | `depends-on-d` reads back as the dependency d when d is a non-empty line, else as a custom tag |
| Commands.RetaggedEdges | src/cli/commands/relate.ts:114-155 | a task whose parent or dependencies changed only towards some targets grows the graph only by edges from it to those targets |
| Commands.Moved | src/cli/commands/done.ts:52-64 | moving a backlog task to done keeps the number of tasks |
| Commands.MovedTasks | src/cli/commands/done.ts:52-64 | the move takes the k-th backlog task out, keeps the other tasks in order and puts the moved task first in done |
| Commands.WithoutInProgressReserved | src/cli/commands/done.ts:60-61 | dropping every `in-progress` tag clears the flag and nothing else |
| Commands.TasksFile.SetTask | src/core/parser.ts:263-273 | overwriting the fields of the k-th task of `getAllTasks` is the replacement on the document |
| Commands.TasksFile.constructor | src/core/parser.ts:123-205 | the mutable document starts as the parsed file |
| Parser.ParseTaskHeading | src/core/parser.ts:75-87 | the id is the trimmed heading up to its first space and holds no space; with no space the title is empty, otherwise it is the trimmed rest after that space |
| Parser.HeadingRoundTrip | src/core/parser.ts:75-87 | reading back the heading text `serializeSimblFile` writes gives the id and title, for an id without spaces and a trimmed title |
| Parser.SectionOf | src/core/parser.ts:147-155 | an H1 opens the backlog exactly when its text lower-cases to `backlog`, and the done section exactly when it lower-cases to `done` |
| Parser.SectionIgnoresCase | src/core/parser.ts:148 | the section an H1 opens does not depend on the case of its text |
| Parser.SectionNames | src/core/parser.ts:148-152 | `# Backlog` and `# Done`, as written back, open their sections |
| Parser.SectionCapitals | src/core/parser.ts:148-152 | `DONE` and `BackLog` open the same sections |
| Parser.NextHeading | src/core/parser.ts:92-104 | the index is the first at or after the start holding a heading of at most the depth, or the length when none does |
| Parser.FindNextHeadingIndex | src/core/parser.ts:92-104 | the loop returns that index |
| Parser.FirstH1 | src/core/parser.ts:136-138 | `findIndex` of the first H1: a found index holds an H1 and no earlier node does; none is found exactly when there is no H1 |
| Parser.ContentStart | src/core/parser.ts:167-173 | a task's content starts one node after its heading, or two when a tag line follows it |
| Parser.TaskEnd | src/core/parser.ts:176 | a task runs past its heading and ends within the nodes |
| Parser.TaskShape | src/core/parser.ts:161-194 | a task read at a heading takes its tags from a tag line right after the heading and its content from the nodes after that up to the next H1 or H2; with no tag line it has no tags and its content starts right after the heading |
| Parser.TagLineBlock | src/core/parser.ts:54-59 | the paragraph a non-empty tag list is written as is recognised as a tag line |
| Parser.TaskAtConsistent | src/core/parser.ts:183-194 | every task read has the reserved record and status its tags and section give, and the section it was read in |
| Parser.ParsedTasksConsistent | src/core/parser.ts:143-204 | every backlog task read is consistent and in the backlog section, and likewise every done task in the done section |
| Parser.NoSectionNoTasks | src/core/parser.ts:143-204 | without an H1 no task is read, whatever H2s there are |
| Parser.NextTask | src/core/parser.ts:161-194 | the steps for one H2 compute the task `TaskAt` describes |
| Parser.ParseSimblFile | src/core/parser.ts:123-205 | the loop over the nodes computes the document `ParseBlocks` describes |
| Parser.ScanHeading1 | src/core/parser.ts:147-158 | an H1 sets the current section from its text and moves to the next node |
| Parser.ScanOther | src/core/parser.ts:201 | a node that is neither an H1 nor an H2 inside a section is skipped |
| Parser.EntryLinesShape | src/core/parser.ts:224-235 | a task is written as its `## id title` line and a blank line, then the tag line exactly when it has tags, then its content exactly when that is non-empty, each followed by a blank line: 2, 4 or 6 lines |
| Parser.PushTaskLines | src/core/parser.ts:223-236 | the loop over one section appends exactly the lines of its tasks |
| Parser.SerializeSimblFile | src/core/parser.ts:210-258 | the method computes the text `SerializedText` describes |
| Parser.SerializedEnding | src/core/parser.ts:257 | the output ends in exactly one newline after a non-blank character |
| Parser.BacklogHeadingAt | src/core/parser.ts:220 | the `# Backlog` line follows the preamble lines |
| Parser.RoundTrip | src/core/parser.ts:123-258 | parsing the serialized document gives the document back, for documents whose tasks, tags, content and preamble survive the trip and a tokenizer that reads the serialized text as the blocks written |
| Parser.FirstWithId | src/core/parser.ts:271 | the index found is that of the first task with the id, and none is found exactly when no task has it |
| Parser.FindTaskById | src/core/parser.ts:270-272 | a task found has the id and is one of the document's tasks; none is found exactly when no task has the id |
| Parser.FindPrefersFirst | src/core/parser.ts:263-272 | when some task has the id, a task is found at or before it, and a backlog task with the id is found in the backlog |
| Criteria.SectionIn | src/cli/commands/ac.ts:26-53 | a section found starts at a header line and ends after it, within the lines |
| Criteria.SectionAt | src/cli/commands/ac.ts:30-50 | the section starts at the first header line and ends at the first heading or rule after it |
| Criteria.SectionBounds | src/cli/commands/ac.ts:30-50 | no header line comes before the section's start, and the line at its end, if any, ends a section |
| Criteria.FindAcSection | src/cli/commands/ac.ts:26-53 | the two loops compute the section `SectionIn` describes |
| Criteria.ScanFor | src/cli/commands/ac.ts:31-49 | one loop finds the first line from the start that passes the test |
| Criteria.CheckboxOf | src/cli/commands/ac.ts:68 | a line matching `^- \[([ xX])\] (.+)$` gives its mark and a text that is a non-empty line |
| Criteria.ParseAcceptanceCriteria | src/cli/commands/ac.ts:58-81 | the method computes the criteria `CriteriaOf` describes |
| Criteria.Collect | src/cli/commands/ac.ts:65-78 | the loop numbers the checkbox lines of the section from 1 in order |
| Criteria.NumberedPush | src/cli/commands/ac.ts:70-76 | one more checkbox line adds one criterion numbered after the others |
| Criteria.CriteriaWellFormed | src/cli/commands/ac.ts:58-81 | the criteria read are numbered 1, 2, … in order and every text is a non-empty line |
| Criteria.NothingToParse | src/cli/commands/ac.ts:59-60 | empty content has no criteria |
| Criteria.CheckboxLinesAt | src/cli/commands/ac.ts:90-93 | each criterion is written as one checkbox line, in order |
| Criteria.SerializeAcceptanceCriteria | src/cli/commands/ac.ts:86-95 | the method computes the text `Serialized` describes |
| Criteria.CheckboxRoundTrip | src/cli/commands/ac.ts:68-92 | a written checkbox line reads back as its mark and text |
| Criteria.UpperCaseMark | src/cli/commands/ac.ts:68-74 | `- [X]` reads as met and is written back as `- [x]` |
| Criteria.SerializeRoundTrip | src/cli/commands/ac.ts:58-95 | parsing serialized well-formed criteria gives them back |
| Criteria.UpdateTaskContent | src/cli/commands/ac.ts:101-153 | the method computes the content `Rebuilt` describes |
| Criteria.PopBlank | src/cli/commands/ac.ts:126-128 | the loop drops exactly the trailing blank lines |
| Criteria.ShiftBlank | src/cli/commands/ac.ts:141-143 | the loop drops exactly the leading blank lines |
| Criteria.UpdateRoundTrip | src/cli/commands/ac.ts:101-153 | whatever the content, after writing non-empty well-formed criteria into it they are exactly the criteria read back |
| Criteria.AppendRoundTrip | src/cli/commands/ac.ts:105-114 | content without a section gets the section appended after a blank line, and it reads back |
| Criteria.ReplaceRoundTrip | src/cli/commands/ac.ts:117-152 | replacing an existing section keeps the text before and after it, and the new criteria read back |
| Log.MarkerFrom | src/core/log.ts:51 | the first place at or after a position where `(?:^\|\n)\*\*\*\n\ntask-log\n` matches, and none exactly when it matches nowhere after it |
| Log.MarkerEnd | src/core/log.ts:51 | the marker found at a position ends after it, within the text |
| Log.EntryOfLine | src/core/log.ts:57 | a line matching `^- (<stamp>) \| (.+)$` gives a date that `toISOString` can render and a message that is a non-empty line |
| Log.ParseTaskLog | src/core/log.ts:65-91 | the loop over the lines after the marker computes the entries `TaskLog` describes |
| Log.TaskLogOf | src/core/log.ts:66-90 | with a marker, the log is read from the lines of the text after it, with the marker removed |
| Log.LineEntriesSnoc | src/core/log.ts:77-89 | each line adds its own entry, at most one, after those of the lines before it |
| Log.NoMarkerNoLog | src/core/log.ts:69-103 | without a marker there is no log and `stripTaskLog` keeps the content |
| Log.StripLeavesNoMarker | src/core/log.ts:99-107 | what `stripTaskLog` leaves holds no marker |
| Log.StripIdempotent | src/core/log.ts:99-107 | `stripTaskLog` is idempotent |
| Log.ReadsAt | src/core/log.ts:65-107 | with the marker at a position, the log is read from the text after it and the user part is the text before it without trailing whitespace |
| Log.FormatTimestamp | src/core/log.ts:112-114 | an invalid date throws a RangeError, and nothing else does |
| Log.FormatTimestampSeconds | src/core/log.ts:112-114 | a valid date is written as the ISO 8601 form without milliseconds |
| Log.SecondsStamp | src/core/log.ts:57-114 | that form matches the entry pattern's stamp and reads back as the date truncated to the second |
| Log.FormatLogEntry | src/core/log.ts:119-121 | an entry line throws only when its date does |
| Log.FormatAll | src/core/log.ts:142-145 | formatting the old entries fails only with a RangeError, and otherwise gives one line per entry |
| Log.FormatAllOk | src/core/log.ts:142-145 | formatting the entries succeeds exactly when every date is valid |
| Log.FormatAllFails | src/core/log.ts:142-145 | one invalid date makes the whole rebuild throw |
| Log.ReadFormattedAll | src/core/log.ts:57-145 | lines formatted from writable entries hold no newline and read back as those entries at second precision |
| Log.AppendLogEntry | src/core/log.ts:132-156 | the method computes the text `AppendedText` describes |
| Log.PushFormatted | src/core/log.ts:141-145 | the loop appends the formatted old entries, or throws when one of them cannot be formatted |
| Log.AppendedOk | src/core/log.ts:132-156 | `appendLogEntry` throws exactly when the new date or an old entry's date is invalid |
| Log.LogTextReads | src/core/log.ts:148-155 | the text made of a user part and a log section reads back as those log lines and that user part without trailing whitespace; an empty user part makes it start with `***` |
| Log.AppendRoundTrip | src/core/log.ts:132-156 | the log after appending is the new entry at second precision followed by the old log, and the user part is kept without trailing whitespace, for a user part that does not end in `***\n\ntask-log` |
| Log.AppendLosesUserText | src/core/log.ts:99-156 | for the content `***\n\ntask-log`, which holds no marker, the text after appending reads back with an empty user part |
| Log.AppendOrBatchLogEntry | src/core/log.ts:185-227 | the method computes the text `BatchedText` describes |
| Log.BatchRoundTrip | src/core/log.ts:185-227 | when the newest entry is batched the log keeps its length, its head becomes the new entry and its tail is kept; otherwise the new entry is prepended; the user part is kept either way |
| Log.RebuildHeadFails | src/core/log.ts:203-209 | a new date that cannot be formatted makes the rebuild throw |
| Log.RebuildRestFails | src/core/log.ts:206-209 | an older date that cannot be formatted makes the rebuild throw |
| CentralLog.EntryText | src/core/log.ts:271-277 | the JSON line written for an entry throws exactly when its date is invalid |
| CentralLog.LineRecord | src/core/log.ts:306-327 | each line gives at most one entry |
| CentralLog.AppendStep | src/core/log.ts:268-281 | an entry whose date cannot be written leaves the file as it was |
| CentralLog.LogFile.AppendLogToFile | src/core/log.ts:268-281 | a date that cannot be written throws and leaves the file unchanged; otherwise the file exists and ends with the entry's JSON line |
| CentralLog.LogFile.ReadLogFile | src/core/log.ts:289-331 | the method computes the entries `ReadEntries` describes, in file order |
| CentralLog.LogFile.ReadLines | src/core/log.ts:303-328 | the loop over the lines collects each line's entry in order |
| CentralLog.LogFile.ReadLine | src/core/log.ts:304-326 | one line gives the record `LineRecord` describes |
| CentralLog.LogFile.GetTaskLog | src/core/log.ts:340-350 | the method computes the entries `TaskEntries` describes |
| CentralLog.ReadAfterAppend | src/core/log.ts:268-331 | reading the file after an append gives the old entries followed by the new one |
| CentralLog.ObjectLineReads | src/core/log.ts:271-277 | the JSON line written reads back as the task id, the date string and the message |
| CentralLog.EntryTextReads | src/core/log.ts:271-321 | the line written for an entry reads back as that entry |
| CentralLog.BlankRecords | src/core/log.ts:298-300 | a file that is only whitespace has no entries |
| CentralLog.BlankRecord | src/core/log.ts:306-307 | an empty line is skipped |
| CentralLog.OfTaskExact | src/core/log.ts:344 | the task's entries are exactly the entries with that task id |
| CentralLog.TaskEntriesSpec | src/core/log.ts:340-350 | the result is a permutation of the task's entries, valid dates newest first, entries with equal keys in file order |
| Sanitize.SanitizedIsClean | src/core/sanitize.ts:7-13 | the result holds no character of the class `[\x00-\x08\x0B\x0C\x0E-\x1F]` |
| Sanitize.CleanUnchanged | src/core/sanitize.ts:7-13 | a string without such characters is returned unchanged |
| Sanitize.Idempotent | src/core/sanitize.ts:7-13 | sanitising twice gives what sanitising once gives |
| Sanitize.SanitizedLength | src/core/sanitize.ts:10-12 | the result is five characters longer per control character replaced |
| Sanitize.SanitizeConcat | src/core/sanitize.ts:10 | the global replace works character by character: sanitising a concatenation concatenates the sanitised parts |
| Sanitize.SanitizeOne | src/core/sanitize.ts:10-12 | one character becomes its `\u` escape when it is a control character and stays otherwise |
| Sanitize.ControlEscape | src/core/sanitize.ts:11 | the escape of a control character is six characters long |
| Sanitize.Hex4Digits | src/core/sanitize.ts:11 | `toString(16).padStart(4, '0')` gives four lower-case hex digits |
| Sanitize.Hex4Of | src/core/sanitize.ts:11 | the four digits read back as the number they render |
| Sanitize.EscapeReadsBack | src/core/sanitize.ts:11 | each escape is a `\uXXXX` escape of section 7 of RFC 8259 whose six characters, read as the body of a JSON string, stand for the character replaced |
| Sanitize.SameShape | src/core/sanitize.ts:18-36 | sanitising a value keeps its shape: strings are sanitised, arrays keep their length with each item sanitised, objects keep their keys in order with each value sanitised, and other scalars are unchanged |
| Sanitize.SanitizedValueClean | src/core/sanitize.ts:18-36 | no string anywhere in the result holds a control character |
| Sanitize.CleanValueUnchanged | src/core/sanitize.ts:18-36 | a value whose strings are all clean is unchanged |
| Sanitize.ValueIdempotent | src/core/sanitize.ts:18-36 | sanitising a value twice gives what sanitising it once gives |
| AddCommand.Run | src/cli/commands/add.ts:58-128 | the command fails exactly when appending the first log entry fails, and then writes nothing; otherwise the backlog gains the new task, whose id is `prefix-(max+1)` over the ids of `tasks.md` and the archive and belongs to no existing task |
| AddCommand.Push | src/cli/commands/add.ts:108-124 | the creation entry is appended first; a throwing append writes nothing, otherwise the task built from the tags and content is pushed at the end of the backlog |
| AddCommand.BuildTags | src/cli/commands/add.ts:76-99 | the tag loop computes the tags of the new task as the tag line, the priority and the project give them |
| AddCommand.FreshId | src/cli/commands/add.ts:73-74 | an id unlike every id collected from both documents is unlike every task's id |
| AddCommand.AddedAccepts | src/cli/commands/add.ts:108-109 | `add` fails only where appending "Task created" throws: an invalid clock, or a description holding a log with an invalid stamp |
| AddCommand.AddedTask | src/cli/commands/add.ts:101-124 | the new task comes last in the backlog and nothing else changes; it has the id, title and tags asked for, is consistent, is in the backlog section and not done, its log starts with the creation entry and its user text is the described content |
| AddCommand.CreatedLogOnly | src/cli/commands/add.ts:101-109 | without `--content` the content is a log holding only the creation entry |
| AddCommand.PriorityChosen | src/cli/commands/add.ts:84-92 | a valid `--priority` leaves exactly one priority tag, the new one, first, and the other tags in order |
| AddCommand.PriorityOfDigits | src/cli/commands/add.ts:85-87 | a `--priority` of white space, digits and then a non-digit names the digits' value, which counts only in 1..9 |
| AddCommand.ParseOfDigits | src/cli/commands/add.ts:86 | `parseInt` of white space, digits and a non-digit is the digits' value |
| AddCommand.PriorityNotNumeric | src/cli/commands/add.ts:85-92 | a `--priority` with a minus sign, or not starting with a sign or digit, leaves the tags unchanged |
| AddCommand.ProjectChosen | src/cli/commands/add.ts:94-99 | `--project` leaves exactly one `project:` tag, the new one, last, and the other tags in order |
| AddCommand.InitialReserved | src/cli/commands/add.ts:111-118 | the new task's reserved record reads back the chosen priority and project |
| AddCommand.ChosenPriorityKept | src/cli/commands/add.ts:84-99 | the one priority tag survives the project filter and is the priority read |
| AddCommand.ChosenProjectLast | src/cli/commands/add.ts:98 | a last `project:` tag gives the project read |
| Headings.LinewiseNormalize | src/cli/commands/add.ts:14-20 | `normalizeHeadings` rewrites text line by line, for lines without terminators none of which but the last is hashes alone |
| Headings.ShiftedHeading | src/cli/commands/update.ts:14-20 | a heading of level k followed by any white-space character becomes one of level min(k + 2, 6) followed by one space |
| Headings.CappedAtSix | src/cli/commands/update.ts:17 | H5 and H6 both become H6 |
| Headings.NewlineConsumed | src/cli/commands/update.ts:15 | hashes alone followed by a newline take the newline as their white space, so the next line joins the heading |
| Headings.NoHeadingUnchanged | src/cli/commands/update.ts:15-19 | text with no heading marker at any line start is unchanged |
| Headings.LineThenRest | src/cli/commands/add.ts:15-19 | a line followed by a newline is rewritten on its own |
| Headings.LastLine | src/cli/commands/add.ts:15-19 | the last line is rewritten on its own |
| Relate.WouldCreateCycle | src/cli/commands/relate.ts:10-47 | the search answers true exactly when the task can be reached from the target along parent and dependency edges (the target itself included) |
| Relate.HasCycle | src/cli/commands/relate.ts:18-43 | a true answer means the task is reachable from the current id; a false one means the current id is visited and every visited id not under expansion has its successors visited, so nothing reachable was missed |
| Relate.Expand | src/cli/commands/relate.ts:27-42 | searching from the parent and then each dependency keeps the same soundness and closure facts |
| Relate.VisitDeps | src/cli/commands/relate.ts:35-40 | trying each dependency in turn keeps the same facts, and a false answer leaves every dependency visited |
| Relate.Visit | src/cli/commands/relate.ts:31-38 | one recursive call for a successor keeps them too |
| Relate.SuccessorsVisited | src/cli/commands/relate.ts:30-42 | once the parent and every dependency are visited, the current id is closed |
| Relate.CheckParent | src/cli/commands/relate.ts:96-112 | the parent checks return the refusal the parent rules give |
| Relate.CheckDependency | src/cli/commands/relate.ts:122-146 | the dependency checks return the refusal the dependency rules give |
| Relate.Run | src/cli/commands/relate.ts:69-162 | a refusal returns its message and leaves the document; otherwise the document becomes the edit's result |
| Relate.RelateKeepsAcyclic | src/cli/commands/relate.ts:95-151 | every relationship `run` accepts keeps an acyclic graph acyclic |
| Relate.RelatedAccepted | src/cli/commands/relate.ts:87-151 | an accepted edit retags the first task with the id, after checks under which no new target reaches that task |
| Relate.NoRefusal | src/cli/commands/relate.ts:108-146 | when nothing is refused, no new target reaches the task |
| Relate.NewSuccessors | src/cli/commands/relate.ts:114-155 | the retagged task's successors are its old ones plus the new targets |
| Relate.RelatedTask | src/cli/commands/relate.ts:114-155 | the task's tags are edited, its reserved record and status derived again, and no other task changes |
| Relate.NewTagsReserved | src/cli/commands/relate.ts:153-155 | the re-read reserved record has the new parent and the dependency appended; the rest stays |
| Relate.ParentReserved | src/cli/commands/relate.ts:114-118 | setting the parent changes the parent and nothing else |
| Relate.DependencyReserved | src/cli/commands/relate.ts:148-149 | adding a dependency appends it to the dependencies and changes nothing else |
| Relate.ParentTags | src/cli/commands/relate.ts:114-149 | a parent edit leaves exactly one `child-of-` tag, naming the new parent; the other tags keep their order and a new dependency tag comes last |
| TagCommand.AddRun | src/cli/commands/tag.ts:37-107 | the document becomes the result of `tag add`, or is left as it was on a refusal |
| TagCommand.RemoveRun | src/cli/commands/tag.ts:132-183 | the document becomes the result of `tag remove`, or is left as it was on a refusal |
| TagCommand.StripBracketsOf | src/cli/commands/tag.ts:57 | brackets around a tag are dropped, and a tag without them is kept |
| TagCommand.FirstPriority | src/cli/commands/tag.ts:72 | the tag found is a priority tag among the tags, and none is found exactly when there is none |
| TagCommand.AddOther | src/cli/commands/tag.ts:79-80 | a tag that is not a priority is appended and nothing is removed |
| TagCommand.AddPriority | src/cli/commands/tag.ts:68-83 | with at most one priority tag before, exactly one remains, the new one, and the reserved record holds its level |
| TagCommand.AddReplaces | src/cli/commands/tag.ts:68-80 | a priority tag replaces every copy of the first priority tag found, and the other tags keep their order |
| TagCommand.RemoveMembers | src/cli/commands/tag.ts:164 | removing a tag drops every copy and keeps the others in order |
| TagCommand.AddThenRemove | src/cli/commands/tag.ts:80-164 | adding a new non-priority tag and then removing it gives the tags back |
| TagCommand.NoOpCases | src/cli/commands/tag.ts:49-66 | a missing task is refused; adding a tag the task has, or removing one it lacks, leaves the document unchanged |
| TagCommand.AddedTask | src/cli/commands/tag.ts:68-91 | an accepted `tag add` rewrites only the task found: its tags as the edit gives them, consistent reserved record and status, and its log headed by the new entry |
| TagCommand.RemovedTask | src/cli/commands/tag.ts:163-171 | an accepted `tag remove` rewrites only the task found: the tag is gone, the record is consistent and the log is headed by the removal entry |
| Sync.FindDifferences | src/cli/commands/sync.ts:124-163 | the three loops give the ids after the pull that were not there before, the ids before it that are gone, and the ids after it whose task differs, each in the order of the id sets |
| Sync.LookupFinds | src/cli/commands/sync.ts:91-125 | a `Map` built from the tasks finds an id exactly when some task has it, and what it finds is the last task with that id |
| Sync.SetHas | src/cli/commands/sync.ts:90-124 | membership in a `Set` built from the ids is membership in the ids |
| Sync.AbsentMembers | src/cli/commands/sync.ts:133-144 | the kept ids are exactly those of the one list missing from the other, without duplicates when the list has none |
| Sync.UpdatedMembers | src/cli/commands/sync.ts:147-162 | the kept ids are exactly those whose task changed, without duplicates when the list has none |
| Sync.DiffSpec | src/cli/commands/sync.ts:127-163 | new ids are exactly those only after the pull, deleted ids exactly those only before it, updated ids exactly those in both whose title, content, tags or section changed; no list repeats an id and no id is in two lists |
| Sync.AbsentSpec | src/cli/commands/sync.ts:132-144 | the ids of one snapshot that the other lacks, each once |
| Sync.UpdatedSpec | src/cli/commands/sync.ts:146-163 | the updated ids, each once, all present in both snapshots |
| Sync.Unchanged | src/cli/commands/sync.ts:127-163 | a pull that leaves the tasks as they were reports no new, deleted or updated task |
| TaskList.IdNumOf | src/cli/commands/list.ts:42-45 | the number read from an id `prefix-n` is n |
| TaskList.IdNumSuffix | src/cli/commands/list.ts:42-45 | with a `-<digits>` suffix the number is the digits' value, without one it is 0 |
| TaskList.BacklogOrder | src/cli/commands/list.ts:12-26 | the sorted backlog is a permutation of the input ordered by priority (a missing one counting as 10) and then by id number, with tasks equal on both in input order |
| TaskList.DoneOrder | src/cli/commands/list.ts:31-37 | the sorted done section is a permutation of the input ordered by id number from highest to lowest, with equal numbers in input order |
| TaskList.FilterTasksPush | src/cli/commands/list.ts:90-124 | one more task goes through the four filters as a task on its own |
| TaskList.FilterTasksIsMatching | src/cli/commands/list.ts:90-124 | the four filters applied one after another keep exactly the tasks that pass every given filter, in their order |
| TaskList.MatchingMembers | src/cli/commands/list.ts:101-121 | a task is shown exactly when it is one of the tasks and passes every given filter |
| TaskList.MatchingConcat | src/cli/commands/list.ts:101-121 | the filter works task by task, so it keeps the order of the tasks |
| TaskList.FilterTasksSpec | src/cli/commands/list.ts:90-124 | the filtered list is no longer than the input, holds exactly the matching tasks in file order, and is the input itself when no filter is given |
| TaskList.DefaultListsAll | src/cli/commands/list.ts:238-275 | without filters the listing shows every task of the file exactly once |
| TaskList.ShownTitle | src/cli/commands/list.ts:51 | the shown title is never empty and is the title when there is one |
| TaskList.BriefShape | src/cli/commands/list.ts:50-60 | the brief line starts with the id and the shown title and, when there are tags, ends with two spaces and the tag line |
| TaskList.BriefTagsReadBack | src/cli/commands/list.ts:50-60 | the tags read back from a brief line are the task's tags, when neither the id nor the title holds `[` |
| TaskList.FullShape | src/cli/commands/list.ts:65-85 | the full form starts with the `## id title` line and ends with a blank line and the content when there is content; with neither tags nor content it is that line alone |
| LogCommand.GroupEntriesByDate | src/cli/commands/log.ts:9-20 | the loop computes the grouping of the entries by their UTC date, throwing `RangeError` where a date cannot be rendered |
| LogCommand.GroupedSpec | src/cli/commands/log.ts:9-20 | the groups have one key per date in the order the dates first occur, and under each key exactly that date's entries in their order |
| LogCommand.GroupedFails | src/cli/commands/log.ts:13 | the grouping throws `RangeError` exactly when some entry's time cannot be rendered |
| LogCommand.ErrSticks | src/cli/commands/log.ts:12-17 | once an entry has no key the whole grouping throws |
| LogCommand.DateKeyIsSplit | src/cli/commands/log.ts:13 | the first part of `toISOString().split('T')` is the UTC date |
| LogCommand.NeedsTarget | src/cli/commands/log.ts:110-115 | without a task id and without `--all` the command is refused |
| LogCommand.RejectsLimit | src/cli/commands/log.ts:150-157 | a given limit is refused exactly when `parseInt` gives no number or one below 1 |
| LogCommand.ShownSpec | src/cli/commands/log.ts:117-157 | the entries shown are the first ones of the selected entries sorted newest first, as many as the limit says or all of them; each is an entry of the log, of the task when an id is given, and valid times go from latest to earliest |
| LogCommand.SelectedSpec | src/cli/commands/log.ts:117-123 | the selected entries come from the log, and are the task's entries when an id is given |
| LogCommand.SortedPrefix | src/cli/commands/log.ts:146-157 | a prefix of the newest-first sort holds entries of the input, latest first |
| LogCommand.UniqueTasksSpec | src/cli/commands/log.ts:57 | the size of the `Set` of task ids is the number of different task ids, at most the number of entries and at least 1 for a non-empty log |
| LogCommand.LatestBounds | src/cli/commands/log.ts:51-53 | `Math.min` and `Math.max` of the valid times bound every entry's time |
| LogCommand.StatsSummary | src/cli/commands/log.ts:45-64 | an empty log reads "No log entries"; otherwise the entry and distinct-task counts, then "today" when every time is valid and they lie within one day of each other, "over NaN day(s)" when a time is invalid, and otherwise "over n day(s)" for the least n whose days cover the span between the earliest and latest time |
| LogCommand.SummaryToday | src/cli/commands/log.ts:54-63 | the summary says "today" exactly when every time is valid and the times lie within one day of each other |
| Archive.RunArchiveFlow | src/cli/tui/archive.ts:10-70 | the flow writes exactly when there are done tasks, the selection is neither cancelled nor empty and the user confirmed; then the selected done tasks go, in their order, in front of the archive's done section and the rest stay in `tasks.md`; otherwise neither document changes |
| Archive.ArchiveDocument | src/cli/tui/archive.ts:53-57 | the parsed archive when the file exists, otherwise a document with empty sections |
| Archive.Partition | src/cli/tui/archive.ts:38-40 | the two filters split the done section: a task is archived exactly when its id was selected and kept exactly when it was not, and the two parts together are the section as a multiset |
| Archive.SplitConcat | src/cli/tui/archive.ts:39-40 | both filters distribute over concatenation, so each keeps the section's order |
| Archive.NoneSelected | src/cli/tui/archive.ts:39-40 | a selection naming no done task archives nothing and keeps the whole section |
| Archive.AllSelected | src/cli/tui/archive.ts:39-40 | a selection naming every done task archives the whole section |
| Archive.Conserved | src/cli/tui/archive.ts:60-63 | after the move the two done sections hold together what they held before |
| CancelCommand.Run | src/cli/commands/cancel.ts:24-87 | a refusal returns its message and changes neither the document nor the log; otherwise the document becomes the cancellation's result and the log receives the line "Marked as canceled", the call failing with a RangeError for an invalid clock reading after the document was written |
| CancelCommand.CancellationAccepts | src/cli/commands/cancel.ts:36-49 | cancelling succeeds exactly when done holds no task with the id and the backlog holds one |
| CancelCommand.CancellationMoves | src/cli/commands/cancel.ts:51-68 | the first backlog task with the id leaves the backlog and becomes the first done task; the other tasks keep their order |
| CancelCommand.CanceledTaskReads | src/cli/commands/cancel.ts:55-65 | the canceled task's tags are the old ones plus `canceled` without `in-progress`, its reserved record is what those tags give and its status is canceled |
| DoneCommand.Run | src/cli/commands/done.ts:25-83 | a refusal returns its message and changes nothing; otherwise the document becomes the completion's result and the log receives "Moved to Done", a RangeError for an invalid clock reading coming after the document was written |
| DoneCommand.CompletionAccepts | src/cli/commands/done.ts:37-49 | completing succeeds exactly when the backlog holds a task with the id |
| DoneCommand.CompletionMoves | src/cli/commands/done.ts:51-64 | the first backlog task with the id becomes the first done task; the other tasks keep their order |
| DoneCommand.CompletedTask | src/cli/commands/done.ts:55-61 | the completed task has no `in-progress` tag, its reserved record still reads back from its tags, and its status is done, which is what its tags give unless it carries `canceled` |
| UpdateCommand.Run | src/cli/commands/update.ts:54-110 | a refusal returns its message and leaves the document; otherwise the document becomes the update's result |
| UpdateCommand.UpdatedAccepts | src/cli/commands/update.ts:62-76 | the update succeeds exactly when a flag was given and some task has the id, and then only the first such task changes |
| UpdateCommand.EditedKeeps | src/cli/commands/update.ts:80-98 | the edit never touches the id, tags, reserved record, status or section |
| UpdateCommand.UpdatedEdges | src/cli/commands/update.ts:80-98 | the relationship graph of the document is unchanged |
| UpdateCommand.AppendedContent | src/cli/commands/update.ts:90-97 | `--append` puts the normalised text after the content (the replacement when `--content` is given too), with a blank line between unless the content is empty |
| UpdateCommand.PlainAppend | src/cli/commands/update.ts:90-97 | text without a heading at any line start is appended unchanged after a blank line |
| Unrelate.Run | src/cli/commands/unrelate.ts:34-98 | a refusal returns its message and leaves the document; otherwise the document becomes the edit's result |
| Unrelate.UnrelatedAccepts | src/cli/commands/unrelate.ts:42-78 | the edit succeeds exactly when a relationship was named, the task exists, it has a parent if `--parent` was given and it depends on the named task if `--depends-on` was given |
| Unrelate.UnrelatedTagsMembers | src/cli/commands/unrelate.ts:67-80 | the kept tags are exactly the old tags other than the `child-of-` ones (for `--parent`) and the dependency's tag (for `--depends-on`) |
| Unrelate.UnrelatedTagsOrder | src/cli/commands/unrelate.ts:67-80 | the filters work tag by tag, so the kept tags stay in order |
| Unrelate.UnrelatedReserved | src/cli/commands/unrelate.ts:84-86 | in the re-read reserved record the parent is gone for `--parent`, the named dependency is gone for `--depends-on`, the other dependencies stay in order and nothing else changes |
| Unrelate.WithoutDependencyReserved | src/cli/commands/unrelate.ts:80-85 | dropping every `depends-on-d` tag drops every copy of `d` from the dependencies and changes nothing else in the reserved record |
| Unrelate.UnrelateKeepsAcyclic | src/cli/commands/unrelate.ts:59-90 | removing relationships keeps an acyclic graph acyclic |
| Unrelate.UnrelatedAccepted | src/cli/commands/unrelate.ts:51-86 | an accepted edit retags the first task with the id |
| Unrelate.FewerSuccessors | src/cli/commands/unrelate.ts:59-86 | the retagged task's graph successors are among its old ones |
| Templates.EscapeCharwise | src/web/templates.ts:19-26 | the five chained replacements, `&` first, escape each character on its own, so no entity is escaped twice |
| Templates.EscapeOne | src/web/templates.ts:19-26 | one character is escaped to its entity when it is one of the five and kept otherwise |
| Templates.EscapeConcat | src/web/templates.ts:19-26 | escaping a concatenation concatenates the escaped parts |
| Templates.EscapedIsMarkupFree | src/web/templates.ts:19-26 | the escaped text holds none of `<`, `>`, `"` and `'` |
| Templates.LaterReplacementsKeep | src/web/templates.ts:22-25 | the last four replacements leave text without markup characters alone |
| Templates.DecodeEscaped | src/web/templates.ts:19-26 | decoding the five entities gives back the text that was escaped, so escaping loses nothing |
| Templates.DecodeOne | src/web/templates.ts:19-26 | decoding reads one escaped character back |
| Templates.HashRun | src/web/templates.ts:33 | the length of the run of `#` the text starts with |
| Templates.LineRest | src/web/templates.ts:48 | what `(.*)` takes: the longest prefix without a line terminator |
| Templates.DisplayOneLine | src/web/templates.ts:32-40 | at a line start, one line followed by a line break or nothing is shifted as the per-line rule says |
| Templates.StorageOneLine | src/web/templates.ts:47-57 | the same for the storage shift |
| Templates.DisplayCopies | src/web/templates.ts:33 | away from a line start, text without a line break is copied as it is |
| Templates.StorageCopies | src/web/templates.ts:48 | the same for the storage shift |
| Templates.DisplayByLine | src/web/templates.ts:32-40 | `shiftHeadingsForDisplay` works line by line on text whose lines are plain, whatever line breaks (`\n`, `\r\n`, `\r`, U+2028, U+2029 or runs of them) separate the lines, and keeps those breaks |
| Templates.StorageByLine | src/web/templates.ts:47-57 | `shiftHeadingsForStorage` works line by line on text whose lines are plain, whatever line breaks separate the lines, and keeps those breaks |
| Templates.DisplayLevels | src/web/templates.ts:33-39 | for display an H3 to H6 line gets two fewer `#` and a single space; H1 and H2 lines stay as they are |
| Templates.StorageLevels | src/web/templates.ts:48-56 | for storage an H1 to H4 line gets two more `#` and a single space; an H5 or H6 line becomes `**text**` |
| Templates.StoredHeading | src/web/templates.ts:33-55 | what storage makes of an H1 to H4 line displays as that heading again |
| Templates.LineRoundTrip | src/web/templates.ts:32-57 | a storable line comes back unchanged from storage and display |
| Templates.ShiftRoundTrip | src/web/templates.ts:32-57 | storing and then displaying gives the text back when every heading in it is H1 to H4 with a single space, for lines separated by any line breaks (`\r\n` included); a line of bare `#` is excluded, since its break is taken as the heading's white space |
| Templates.CrlfRoundTrip | src/web/templates.ts:32-57 | `## a\r\nfoo` is stored as `#### a\r\nfoo` and displayed back as `## a\r\nfoo` |
| Templates.JoinNewlines | src/web/templates.ts:32-57 | text joined by `\n` is the case of a single `\n` between every two lines |
| Templates.DisplayKeepsLine | src/web/templates.ts:33 | a line that starts no heading comes out of the display shift as it was |
| Templates.BareHashesJoinNextLine | src/web/templates.ts:33 | a line of three to six bare `#` runs into the next line for display, the line break being the white space the pattern takes |
| Templates.ExtractAllPriorities | src/web/templates.ts:115-123 | the priorities of the tasks, each once, in strictly increasing order: a number is in the result exactly when some task has that priority |
| Templates.SortedNumbers | src/web/templates.ts:122 | sorting distinct numbers with `(a, b) => a - b` orders them strictly and keeps exactly them |
| Templates.AllTagsMembers | src/web/templates.ts:307-311 | the collected tags are exactly the tags of the tasks |
| Templates.ExtractAllTags | src/web/templates.ts:305-316 | the tags of the tasks that are not reserved, each once, in string order: a tag is in the result exactly when it is not reserved and some task has it |
| Templates.ReservedVersusParse | src/web/templates.ts:290-303 | priority, relation and status tags are reserved and project tags are not; a custom tag is reserved only when it starts with a relation prefix |
| AcCommand.CriteriaTexts | src/cli/commands/ac.ts:226-240 | the loop collects the criterion texts: the arguments after the task id that are not flags |
| AcCommand.TextsAfterMembers | src/cli/commands/ac.ts:226-240 | an argument is kept exactly when it comes after the first occurrence of the id, is not `--json` and does not start with `-` |
| AcCommand.Reindex | src/cli/commands/ac.ts:254-255 | the loop renumbers the criteria from 1 in list order |
| AcCommand.PushAll | src/cli/commands/ac.ts:246-255 | the push loop adds one unmet criterion per text, numbered after the existing ones |
| AcCommand.AddCriteria | src/cli/commands/ac.ts:224-258 | the body of `add` computes the edit `add`'s rules give |
| AcCommand.MarkCriterion | src/cli/commands/ac.ts:372-399 | the body of `meets` and `fails` computes the edit their rules give |
| AcCommand.SetText | src/cli/commands/ac.ts:553-565 | the body of `update` computes the edit its rules give |
| AcCommand.DeleteCriterion | src/cli/commands/ac.ts:626-641 | the body of `delete` computes the edit its rules give |
| AcCommand.Run | src/cli/commands/ac.ts:205-262 | a refusal, or a mark that changes nothing, writes nothing; otherwise the document becomes the first task with the id rewritten with the edited criteria |
| AcCommand.RenumberedKeeps | src/cli/commands/ac.ts:637-638 | renumbering keeps every text and mark in place and numbers the list 1..n |
| AcCommand.IndexRule | src/cli/commands/ac.ts:372-378 | `meets`, `fails`, `update` and `delete` refuse exactly the indices that do not parse to a number in 1..n, with a message naming the argument and n |
| AcCommand.MarkRule | src/cli/commands/ac.ts:460-485 | `meets` on a met criterion and `fails` on an unmet one write nothing; otherwise only that mark flips and the list stays well formed |
| AcCommand.UpdateRule | src/cli/commands/ac.ts:553-565 | `update` replaces the one text and changes nothing else |
| AcCommand.AddRule | src/cli/commands/ac.ts:237-258 | `add` refuses without criterion texts; otherwise the new criteria come after the existing ones, unmet and in argument order, numbered 1..n |
| AcCommand.DeleteRule | src/cli/commands/ac.ts:626-641 | `delete` removes the one criterion; the others keep their texts and marks in order and are numbered 1..n-1 |
| AcCommand.OutcomeRule | src/cli/commands/ac.ts:105-153 | the subcommand succeeds exactly when a task has the id and the edit is accepted; it then changes only the first such task's content |
| AcCommand.WrittenCriteria | src/cli/commands/ac.ts:58-153 | the content written reads back as the edited criteria |
| Init.HasSectionIff | src/cli/commands/init.ts:20-22 | a file counts as having the SIMBL section exactly when the begin marker or the `## SIMBL` heading occurs in it |
| Init.ExtractNeedsMarkers | src/cli/commands/init.ts:28-38 | without both markers, or with the first end marker not after the first begin marker, no user text is found |
| Init.ExtractShape | src/cli/commands/init.ts:40-58 | user text that is found is non-empty and trimmed, and holds neither a fence (it lies after the last one) nor the end marker (it lies before the first one) |
| Init.AfterLastFenceShape | src/cli/commands/init.ts:44-54 | the text after the last fence holds no fence |
| Init.InnerShape | src/cli/commands/init.ts:44-58 | what is kept from the inner text is non-empty and trimmed and lacks the fence |
| Init.ExtractAt | src/cli/commands/init.ts:32-40 | where the first begin marker and the first end marker lie decides what is extracted |
| Init.BuildBegins | src/cli/commands/init.ts:63-97 | a built section has the begin marker right after its first line break, so it counts as a section; when neither the standard block nor the user text holds a begin marker, that is the only one |
| Init.SectionBeginOnce | src/cli/commands/init.ts:63-97 | in a section whose block and user text hold no begin marker, the begin marker occurs exactly once, right after the first line break |
| Init.BuildEndsOnce | src/cli/commands/init.ts:63-97 | a built section holds the end marker exactly once, right before its last line break |
| Init.ExtractOfSection | src/cli/commands/init.ts:28-97 | extracting from a section built around user text gives that text back: non-empty trimmed text without the end marker or a fence comes back as it is, and no text gives none |
| Init.ExtractOfBuilt | src/cli/commands/init.ts:28-97 | the same for the section `buildSimblSection` builds with the standard block |
| Init.ReplaceWithoutMarkers | src/cli/commands/init.ts:106-112 | without both markers the fresh section is appended after the text with its trailing white space trimmed and a line break |
| Init.ReplaceAddsSection | src/cli/commands/init.ts:106-112 | without both markers the result has a section |
| Init.ReplaceKeeps | src/cli/commands/init.ts:114-121 | with both markers the text before the first begin marker and after the first end marker stays, and between them stand the begin marker, the block, the user text found and the end marker |
| Init.SpliceBegin | src/cli/commands/init.ts:118-121 | after the splice the first begin marker and the text before it are where they were |
| Init.SpliceEnd | src/cli/commands/init.ts:118-121 | after the splice the first end marker is the new one |
| Init.SpliceAfter | src/cli/commands/init.ts:119-121 | the text after the new end marker is what came after the old one |
| Init.ExtractSplice | src/cli/commands/init.ts:102-122 | extracting from the spliced text gives back the user text that was spliced in |
| Init.ReplaceKeepsUserText | src/cli/commands/init.ts:102-122 | rebuilding a well-formed section keeps the user's text |
| Init.ReplaceIdempotent | src/cli/commands/init.ts:102-122 | rebuilding a well-formed section twice is rebuilding it once |
| Init.ReplacePreserves | src/cli/commands/init.ts:102-122 | for the standard block, rebuilding an existing section keeps the user's text and is idempotent |
| Init.ExtractUserContent | src/cli/commands/init.ts:28-58 | a user part is found only when both markers occur and the first end marker follows the first begin marker |
| Doctor.DfsDeps | src/cli/commands/doctor.ts:172-175 | the ids the search follows from a task are exactly its dependencies and its non-empty parent |
| Doctor.Dfs | src/cli/commands/doctor.ts:155-184 | one call of `dfs` records only real cycles, marks the id visited and never unmarks anything; while no cycle is found, the visited ids keep a ranking under which every edge leaves a finished id for one finished earlier |
| Doctor.Explore | src/cli/commands/doctor.ts:167-183 | visiting a new id keeps those invariants and takes it off the stack when done |
| Doctor.Step | src/cli/commands/doctor.ts:177-179 | one recursive call per successor keeps those invariants |
| Doctor.Mark | src/cli/commands/doctor.ts:167-168 | marking an id visited and on the stack keeps the ranking |
| Doctor.Finish | src/cli/commands/doctor.ts:182 | taking a finished id off the stack keeps the ranking |
| Doctor.RankedAcyclic | src/cli/commands/doctor.ts:186-190 | a ranking of every id with an outgoing edge rules out a cycle |
| Doctor.FindCircularDependencies | src/cli/commands/doctor.ts:148-193 | every reported cycle is a cycle through parent and dependency edges, and none is reported exactly when there is no such cycle |
| Doctor.CollectH1Texts | src/cli/commands/doctor.ts:25-34 | the loop collects the lower-cased texts of the H1 headings in order, from their text children only |
| Doctor.InlineCodeH1 | src/cli/commands/doctor.ts:28-33 | an H1 of inline code opens its section for the parser, but the doctor sees an empty text and reports an error |
| Doctor.CheckHeadings | src/cli/commands/doctor.ts:36-58 | the heading checks report the missing sections and each unexpected H1 |
| Doctor.MissingHeadings | src/cli/commands/doctor.ts:36-48 | a missing `# Backlog` or `# Done` error is reported exactly when no H1 has that name |
| Doctor.UnexpectedHeadings | src/cli/commands/doctor.ts:50-58 | an unexpected-H1 error names exactly the H1 texts other than `backlog` and `done`, one error per such heading |
| Doctor.HeadingsErrorFree | src/cli/commands/doctor.ts:36-58 | the heading checks report no error exactly when both sections exist and no other H1 does |
| Doctor.CheckTasks | src/cli/commands/doctor.ts:78-131 | the loop over the tasks appends the issues `TaskIssues` describes |
| Doctor.CheckTask | src/cli/commands/doctor.ts:79-130 | the checks on one task append the issues `TaskChecks` describes |
| Doctor.CheckDependencies | src/cli/commands/doctor.ts:121-130 | the loop over the dependencies warns about each missing one |
| Doctor.InChecks | src/cli/commands/doctor.ts:79-130 | an issue reported for a task comes from exactly one of the five checks |
| Doctor.FormatWarning | src/cli/commands/doctor.ts:75-86 | the id-format warning fires exactly when the id is not the prefix, a hyphen and digits |
| Doctor.GeneratedIdHasFormat | src/cli/commands/doctor.ts:75-86 | an id made as `add` makes it raises no format warning |
| Doctor.PriorityConflict | src/cli/commands/doctor.ts:99-106 | the multiple-priority error fires exactly when two of the task's tags are priority tags |
| Doctor.ParentWarning | src/cli/commands/doctor.ts:109-118 | a dangling parent is warned about exactly when the task names a non-empty parent that no task has as its id |
| Doctor.DependencyWarning | src/cli/commands/doctor.ts:121-130 | a dangling dependency is warned about exactly when the task depends on an id that no task has |
| Doctor.DuplicateCount | src/cli/commands/doctor.ts:76-96 | an id that occurs n > 0 times gets n - 1 duplicate errors |
| Doctor.TaskErrorFree | src/cli/commands/doctor.ts:79-130 | the checks on one task report no error exactly when its id was not seen before and it has at most one priority tag |
| Doctor.TasksErrorFree | src/cli/commands/doctor.ts:78-131 | the task checks report no error exactly when the ids are distinct and no task has two priority tags |
| Doctor.CyclesErrorFree | src/cli/commands/doctor.ts:134-140 | the cycle check reports no error exactly when no cycle was found |
| Doctor.ReportCycles | src/cli/commands/doctor.ts:135-140 | the loop appends one error per cycle |
| Doctor.ValidateTasksFile | src/cli/commands/doctor.ts:18-143 | the issues are the report `Report` describes, for cycles that are exactly the cycles of the graph |
| Doctor.ReportErrorFree | src/cli/commands/doctor.ts:18-143 | the report holds no error exactly when both sections exist and no other H1 does, the ids are distinct, no task has two priority tags and there is no cycle |
| Doctor.ExitCode | src/cli/commands/doctor.ts:228-258 | `doctor` exits with status 0 exactly when it printed JSON or the report holds no error |
| Migrate.NeedsMigrationSpec | src/core/migrate.ts:48-64 | migration is needed exactly when the version is not 2 and `tasks.md` exists and holds the marker; the second test adds nothing |
| Migrate.MigratedHasNoLog | src/core/migrate.ts:133-134 | a migrated task has no embedded log left, and migrating it again changes nothing |
| Migrate.MigratedAllPending | src/core/migrate.ts:109-137 | after migration no task has entries to migrate |
| Migrate.PendingCount | src/core/migrate.ts:109-137 | there are entries to migrate exactly when some task has a log |
| Migrate.AppendsRead | src/core/migrate.ts:123-131 | reading the log after the appends gives the entries read before, then the appended ones |
| Migrate.Store.MigrateTaskLogs | src/core/migrate.ts:75-150 | version 2 changes nothing; without `tasks.md` only the version is set; otherwise the entries are appended in task order up to the first invalid date, which aborts with nothing else written; on success the counts are the tasks with a log and the entries, the version is 2, and `tasks.md` is rewritten with the logs stripped when some task had one |
| Migrate.Store.MigrateTasks | src/core/migrate.ts:109-137 | the loop over the tasks appends their entries in order, stops at the first invalid date, and otherwise counts the tasks and entries and strips each log |
| Migrate.Store.MigrateTask | src/core/migrate.ts:110-136 | a task without `task-log` or without entries is skipped; otherwise its entries are written and its log section stripped |
| Migrate.Store.WriteEntries | src/core/migrate.ts:123-131 | the entries are appended with the task id, in order, until one throws |
| Migrate.StopsAt | src/core/migrate.ts:129 | an invalid date stops the appends before that entry |
| Migrate.MigrateStops | src/core/migrate.ts:109-137 | an invalid date in one task stops the whole migration after the entries before it |
| Migrate.Store.constructor | src/core/migrate.ts:83-102 | the store starts with the given version, document and log |
| Sorting.SortBySorted | src/cli/commands/list.ts:12-26 | the sort orders by the key |
| Sorting.SortByPermutation | src/cli/commands/list.ts:12-26 | the sort is a permutation |
| Sorting.SortByStable | src/core/log.ts:347 | the sort is stable: elements with equal keys keep their input order |
| Sorting.SortStrings | src/web/templates.ts:315 | `sort()` permutes the strings |
| Sorting.SortStringsSorted | src/web/templates.ts:315 | `sort()` orders the strings character by character, a prefix first |
| Sorting.StrLeTotal | src/web/templates.ts:315 | any two strings are ordered one way or the other |
| Sorting.StrLeAntisymmetric | src/web/templates.ts:315 | strings ordered both ways are equal |
| Sorting.StrLeTransitive | src/web/templates.ts:315 | the order is transitive |
| Calendar.ToMs | src/core/log.ts:113 | the time value of a calendar date lies within the range `toISOString` renders |
| Calendar.FromToMs | src/core/log.ts:113 | the calendar fields of a date's time value are that date |
| Calendar.ToFromMs | src/core/log.ts:113 | the time value of the fields of a time value is that time value |
| Calendar.ParseIso | src/core/log.ts:321 | a valid date read from a string lies within the rendered range |
| Calendar.ParseIsoMillis | src/core/log.ts:274-321 | reading back what `toISOString` wrote gives the same time value |
| Calendar.ParseIsoSeconds | src/core/log.ts:83-113 | reading back a rendering without milliseconds loses only the milliseconds |
| Calendar.SecondsAreStable | src/core/log.ts:83-113 | truncating to the second changes nothing on a whole-second time value |
| Json.Get | src/core/log.ts:316-318 | a property read finds a value exactly when a member has that name, and it is the last such member's value |
| Json.StringRoundTrip | src/core/log.ts:271-313 | an escaped string body reads back as the string, whatever follows its closing quote |
| Json.StringObjectRoundTrip | src/core/log.ts:271-313 | `JSON.parse` of `JSON.stringify` of an object of string members gives that object back |
| Json.StringifyOneLine | src/core/log.ts:271-277 | `JSON.stringify` of such an object is one line between braces |
| JsString.Split | src/core/log.ts:303 | `split` yields at least one part, no part holds the separator, and joining the parts with it gives the text |
| JsString.SplitJoin | src/core/log.ts:303 | splitting parts joined with a separator they lack gives the parts |
| JsString.TrimEnd | src/core/log.ts:105 | `trimEnd` drops exactly the trailing white space |
| JsString.Trim | src/core/log.ts:305 | the result is no longer than the text and neither starts nor ends with white space; `JsString.TrimBetweenWhitespace` adds that it is the text between the leading and the trailing white space |
| JsString.TrimBetweenWhitespace | src/core/log.ts:305 | `trim` returns the part of the text between its leading and its trailing white space: the text before and after it is all white space, and (by `JsString.Trim`) it neither starts nor ends with white space |
| JsString.IndexOf | src/cli/commands/init.ts:32 | `indexOf` finds the first occurrence, and none exactly when there is none |
| JsString.LastIndexOf | src/cli/commands/init.ts:45 | `lastIndexOf` finds the last occurrence, and none exactly when there is none |
| JsString.ParseIntJsSpec | src/utils/id.ts:12 | after the leading white space and an optional `+` or `-`, `parseInt` yields a number exactly when a digit follows; the number is the value of the longest run of digits there, negated after `-` |
| JsString.ParseTrimmedDigits | src/utils/id.ts:12 | `parseInt` of digits followed by a non-digit is their value |
| JsString.ParseIntOfNat | src/utils/id.ts:63 | `parseInt` reads back a number's decimal form |

## Left out

- The Markdown tokenizer and stringifier (remark/unified, src/core/parser.ts:17-35) are not modelled. This includes the whitespace normalisation in `nodesToMarkdown`. A document is its sequence of top-level blocks, `render` turns blocks back into text, and `tokenize` in `Parser.RoundTrip` is a parameter. The round trip is proved for a tokenizer that returns the intended block layout of the serialised text.
- File I/O is not modelled: reading and writing `tasks.md`, `tasks-archive.md`, `log.ndjson` and the instruction files. The documents and the log file are the state of `Commands.TasksFile`, `CentralLog.LogFile` and `Migrate.Store`. The atomicity of `appendFileSync` is an operating-system concern.
- Migrate.Store.MigrateTaskLogs: the backup copy `tasks.md.backup` (`createBackup`, src/core/migrate.ts:26-31 and 99) is not modelled, because it is a file copy with no effect on the migrated state.
- Migrate.Store.MigrateTaskLogs: when a migrated entry has an Invalid timestamp, `appendLogToFile` throws and the migration stops with that error. The lines already appended stay in the log, and neither `logVersion` nor the document is written. The `errors` list is initialised empty and never appended to, so it is always empty.
- The configuration (`findSimblDir`, YAML `loadConfig`/`saveConfig`, `initSimblDir`) is reduced to the `logVersion` field of `Migrate.Store`.
- Concurrent appends and timing assertions in the log tests are not modelled. They concern the operating system and wall-clock time.
- The web server, its WebSocket and file watcher, and HTML page rendering (src/web/server.ts, src/web/page.ts, the `render*` functions of src/web/templates.ts) are not modelled. Only the pure helpers of src/web/templates.ts are in `Templates`. The server's own task mutations differ from the CLI's (it appends done tasks at the end) and are not part of this model.
- The terminal menu and the prompts of `archive` and `init` are not modelled. The archive selection and confirmation are parameters of `Archive`. `buildClaudeMdStarter` and the file handling of `init` (src/cli/commands/init.ts:151-326) are left out.
- CLI dispatch and argument parsing (src/index.ts, the citty command shells, `serve`, `usage`) are not modelled. The commands take their arguments as `Option<string>` flags. A flag given as `""` counts as absent (`Commands.Given`), as the source's truthiness tests do.
- Display-only output is left out: `show`, every `console.log` text, `--json` output, `criteriaToJson`, `formatCriteriaList`, `formatGroupedEntries`, `serializeLogEntries` and `formatLogEntriesForDisplay`. `AcCommand` covers only the criteria edits of `ac` (add, meets, fails, update, delete), not its listing.
- The git subprocess calls of `sync` (src/cli/commands/sync.ts:10-41 and 95-118) are not modelled. The two snapshots are the inputs of `Sync.FindDifferences`.
- Sync.FindDifferences: like the source's `Map`, a snapshot holding the same id twice is compared by its last task with that id (`Sync.Lookup`).
- Locale- and time-zone-dependent behaviour is not modelled: `toLocaleString`/`toTimeString`, the local-time `--since`/`--until` filters of `log` and `localeCompare` sorting in the web views. Timestamps are integer UTC milliseconds.
- Calendar.ParseIso reads only the form `YYYY-MM-DDTHH:mm:ss[.sss]Z` with hours below 24 and years 0000–9999. Every other string `new Date(string)` accepts becomes an Invalid date: a date alone, a time without seconds, a `±HH:mm` offset, an expanded `±YYYYYY` year and `T24:00:00`. So `CentralLog.TaskEntries` and the other log readers treat entries stamped that way as Invalid where the source reads a real date.
- Log.FormatTimestamp: a timestamp is rendered only for years 0000–9999 (`Calendar.Renderable`, milliseconds from -62167219200000 to 253402300799999). The source's `toISOString` renders later and earlier years as `+YYYYYY`/`-YYYYYY`. The members that write a timestamp require `Renderable` of the stamp for this reason: `Log.FormatLogEntry`, `Log.AppendedText`, `Log.AppendLogEntry` and their lemmas, `CentralLog.EntryText`, `CentralLog.LogFile.AppendLogToFile`, `AddCommand.Run`, `DoneCommand.Run`, `CancelCommand.Run`, `TagCommand.AddRun` and `TagCommand.RemoveRun`. `LogCommand.DateKey` gives no key for such a time either, so `LogCommand.GroupEntriesByDate` and `LogCommand.GroupedFails` fail on it where the source groups it under its expanded date; log entries read by this model never carry one, since `Calendar.ParseIso` reads only years 0000–9999.
- CentralLog.NewestFirst: an Invalid date gets the sort key (0,0), i.e. the epoch. In the source the comparator (src/core/log.ts:347) returns NaN for it, which leaves the order implementation-defined. The same key is used by the newest-first sort of `LogCommand`.
- TaskIds.GenerateNextId: id numbers are unbounded integers, not JavaScript doubles. In the source, `parseInt` of a suffix above 2^53 loses precision, so after `t-9007199254740992` the computed next number rounds back to an existing one. A number of 10^21 or more prints as `1e+21`. The model's freshness and `prefix-<digits>` guarantees hold only for ids below 2^53. The same applies to `TaskIds.ExtractIdNumber`, `TaskIds.FindMaxIdNumber` and `TaskList.IdNumOf`.
- The id prefix is treated as literal text in `TaskIds.IsValidId`, `TaskIds.UpdateIdPrefix` and the doctor's id-format warning. The source puts it into a regular expression unescaped.
- `toLowerCase` is modelled as ASCII case folding (`JsString.Lower`).
- Strings are sequences of Unicode scalar values, not UTF-16 code units. The source's default `sort()` of tags orders by UTF-16 code units, which differs for characters outside the Basic Multilingual Plane.
- Criteria.UpdateRoundTrip and AcCommand.WrittenCriteria: the read-back is proved for a non-empty list of criteria numbered from 1 with non-empty single-line texts (`Criteria.WellFormed`). A criterion with empty or multi-line text is written as the source writes it but does not read back, and `AcCommand.AddRule` states well-formedness of the result only when every added text is non-empty and single-line. Writing an empty list removes the section. A later `Acceptance Criteria` heading in the rest of the content may then be found, so the empty case is not covered.
- Init.BuildBegins proves the begin marker unique only when neither the standard block of the prefix nor the user text contains `<!-- SIMBL:BEGIN -->`; otherwise it states only where the first one is.
- Init.BuildEndsOnce, Init.ExtractOfBuilt and Init.ReplacePreserves assume that the standard block of the prefix contains no `<!-- SIMBL:END -->`. A prefix containing that text is not covered.
- Log.AppendRoundTrip, Log.LogTextReads, Log.BatchRoundTrip, AddCommand.AddedTask, TagCommand.AddedTask and TagCommand.RemovedTask assume that the user part of the content does not end in `***\n\ntask-log`. The first finding below shows what the source does then.
- Templates.ShiftRoundTrip: the round trip is proved for text cut into lines at any line breaks, but not for a line of one to six bare `#`. The storage pattern then takes the line break as the white space after the `#` and runs into the next line, so such text does not come back; `Templates.BareHashesJoinNextLine` shows the display side of this.

## Findings

| source | as written | input that shows it | evidently intended | confidence | as-written member | corrected member |
|---|---|---|---|---|---|---|
| src/core/log.ts:99-156 | `appendLogEntry` puts a newline and the log marker `***\n\ntask-log\n` after the user part, and `stripTaskLog` cuts at the first place the marker regular expression matches. A user part that ends in the marker without its last newline becomes a full marker once that newline follows it | task content `***\n\ntask-log` (the marker without its last newline) | the text the user wrote survives an append: reading the result back gives that text as the user part and the new entry first in the log | not executed | Log.AppendLosesUserText | Log.AppendRoundTrip |
