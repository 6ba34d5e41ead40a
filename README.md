# Task validation and checkbox update, modelled in Dafny

Two maintenance scripts keep the task lists in a repository's markdown files up to date:

- `validate_tasks.py` scans the markdown files for open tasks and validates each one. An open task is an unchecked `[ ]` checkbox line or a line with a TODO-style marker word. A task is "likely complete" when the log query for its identifier (such as `H-08`, `SF-01` or `T-SF-03`) prints something that does not contain `ERROR`, or when one of the first three keywords of its text is found in the source code before any search fails. Otherwise it is "pending".
- `update_task_checkboxes.py` takes the validation results, groups the likely-complete tasks by file and turns the first `[ ]` of each targeted checkbox line into `[x]`. It totals how many files changed and how many boxes were checked off. Only one box per task is checked off in a run, so a second run with the same results checks off the next box of a line that holds several.

The project models these in seven modules in six files:

| module | file | what it holds |
|---|---|---|
| `Text` | `text.dfy` | ASCII character classes, `\b`, case mapping, substring search, `str.strip()` |
| `TaskIds` | `task_ids.dfy` | the five identifier patterns, a matcher proved equal to each pattern's language, leftmost search, `extract_task_id` and its case-insensitivity |
| `TaskIdExamples` | `task_ids.dfy` | worked identifiers derived from the definitions |
| `Extraction` | `extraction.dfy` | the line classifier and `extract_unchecked_tasks` as a loop proved against a specification function |
| `Validation` | `validation.dfy` | keyword selection, commit and code evidence, the status rule, and the validation and scanning loops of `main` |
| `Checkboxes` | `checkboxes.dfy` | `update_file_checkboxes` on an array of lines, proved against a task-by-task specification, with its line-by-line meaning |
| `Update` | `update.dfy` | grouping by file, the update loop with its totals, and the whole run |

The two external commands are parameters:

- `gitLog(id)` is what `git log --all --grep <id> --oneline` produced: its output, or the exception the call raised.
- `grep(kw)` is the outcome of `git grep -i <kw>` over the source files: `Hit` (exit status 0 and non-blank output), `Miss`, or `Failed` (an exception such as a timeout).

A file system is a map from path to lines; a path that cannot be read is missing from the map.

Where the code and its documentation disagree, the model follows the code:

- The first pattern is `T-\w+-\d+`, which needs two hyphens. So `T-SF03` yields no identifier, although the comment next to the pattern lists it (`SingleHyphenTwoPartIsNotAnId`).
- The pattern `\b(#[A-Z]+-\d+)\b` starts with `\b` before `#`. That boundary only holds when a word character precedes the `#`. `TASK-\d+` is tried first, so `#TASK-7` after a space yields `TASK-7` (`HashAfterSpaceLosesHash`).
- `check_code_exists` returns `has_tests` and `has_config` but never sets them. Code evidence therefore means an implementation hit only.

## Model

| member | source | states |
|---|---|---|
| Text.LowerShape | validate_tasks.py:74 | `str.lower()` leaves no upper-case letter and changes letters only in case: upper-casing its result gives what upper-casing the original gives |
| Text.UpperShape | validate_tasks.py:53 | `str.upper()` leaves no lower-case letter and changes letters only in case: lower-casing its result gives what lower-casing the original gives |
| Text.IndexOf | update_task_checkboxes.py:28 | the result is the first position where the text occurs, and None exactly when it occurs nowhere |
| Text.ContainsIndexOf | update_task_checkboxes.py:26-28 | Python's `t in s` holds exactly when `s.find(t)` finds a position, the position where the replacement then happens |
| Text.SpanEnd | validate_tasks.py:112 | a greedy run of one character class: every character before the end is in the class, the one at the end is not |
| Text.SpanEndUnique | validate_tasks.py:112 | a class run that cannot be extended is the one the greedy scan finds |
| Text.Strip | validate_tasks.py:117 | `str.strip()` gives a result no longer than the line that starts and ends with a non-space character |
| Text.StripTrimmed | validate_tasks.py:117 | `str.strip()` gives a slice of the line with only whitespace before and after it |
| Text.StripExact | validate_tasks.py:117 | any such slice is the result: a slice with only whitespace around it and non-space ends, or nothing when the line is all whitespace |
| TaskIds.DigitsEndIff | validate_tasks.py:45-47 | `\d+\b` from p ends at j exactly when p..j is a non-empty digit run followed by a word boundary |
| TaskIds.RunDashDigitsIff | validate_tasks.py:44 | `<class>+-\d+\b` from p ends at j exactly when a non-empty run of the class, a hyphen and digits span p..j and a boundary follows |
| TaskIds.MatchAtIff | validate_tasks.py:43-49 | the matcher at position i returns j exactly when s[i..j] is in the pattern's language with `\b` at both ends, so a match at i is unique |
| TaskIds.SearchFrom | validate_tasks.py:51 | `re.search` returns the leftmost start at or after `from` where the pattern matches, and none when no position matches |
| TaskIds.SearchIsLeftmostMatch | validate_tasks.py:51 | the search result is a match of the pattern's language, and whenever a match exists the search finds one starting no later |
| TaskIds.FirstFoundIff | validate_tasks.py:50-54 | the identifier is what the first pattern that matches anywhere finds, and there is none exactly when no pattern matches |
| TaskIds.TaskIdShape | validate_tasks.py:53 | every identifier is upper case and at least three characters long |
| TaskIds.ExtractTaskIdIgnoresCase | validate_tasks.py:51 | texts that agree up to case yield the same identifier, as `re.IGNORECASE` promises |
| TaskIds.ExtractTaskIdOfLower | validate_tasks.py:51-53 | lower-casing the text first does not change the identifier |
| TaskIdExamples.LowerCaseId | validate_tasks.py:45 | `h-08` yields `H-08` |
| TaskIdExamples.SingleHyphenTwoPartIsNotAnId | validate_tasks.py:44 | `T-SF03` yields no identifier |
| TaskIdExamples.PatternOrderBeatsPosition | validate_tasks.py:50-53 | in `H-1 T-A-2` the earlier pattern wins over the earlier match: the result is `T-A-2` |
| TaskIdExamples.HashAfterSpaceLosesHash | validate_tasks.py:47-48 | ` #TASK-7` yields `TASK-7`, without the hash |
| Extraction.UncheckedBoxIff | validate_tasks.py:112 | the greedy scan accepts exactly the lines of the bullet shape `\s*[-*]\s*[ ]` or the numbered shape `\s*\d+.\s*[ ]` |
| Extraction.ClassifyCheckbox | validate_tasks.py:112-126 | a line gives a checkbox task exactly when it has a box shape, no `(REJECT`/`(WARNING`/`(ACCEPT` and at least 20 characters after stripping |
| Extraction.ClassifyTodo | validate_tasks.py:127-141 | a line gives a todo task exactly when it has no box shape, no `[x]`/`[X]`, a whole-word marker in any case and none of the four false-positive phrases |
| Extraction.Extracted | validate_tasks.py:110-141 | every record carries the 1-based number of a line of the file, and records are in strictly increasing line order |
| Extraction.ExtractedSound | validate_tasks.py:110-141 | every record is the one its own 1-based line classifies to |
| Extraction.ExtractedComplete | validate_tasks.py:110-141 | no line that classifies as a task is missed |
| Extraction.ExtractUncheckedTasks | validate_tasks.py:99-144 | a skipped or unreadable file gives no tasks; otherwise the loop yields exactly the extracted records |
| Validation.CommitEvidence | validate_tasks.py:56-61 | commit evidence needs an identifier and a log query that did not raise and printed something without the word `ERROR` |
| Validation.TokenAtIff | validate_tasks.py:74 | the token scan at i ends at e exactly when s[i..e] matches `\b[a-zA-Z]{5,}\b` |
| Validation.TokenSpans | validate_tasks.py:74 | `re.findall` spans are matches of the token pattern, in order and non-overlapping |
| Validation.TokenSpansComplete | validate_tasks.py:74 | `re.findall` misses no match of the token pattern |
| Validation.Keywords | validate_tasks.py:74-75 | the keywords are the first three qualifying tokens of the lower-cased text, in order, or all of them when there are fewer |
| Validation.QualifyingComplete | validate_tasks.py:75 | the filter keeps every token that is not a stop word and is longer than four |
| Validation.QualifyingAppend | validate_tasks.py:75 | the filter keeps the order of the tokens: filtering a concatenation filters each part on its own |
| Validation.QualifyingSound | validate_tasks.py:72-75 | the filter keeps only tokens that are not stop words and are longer than four |
| Validation.KeywordShape | validate_tasks.py:72-75 | every keyword is a whole token of the lower-cased text: lower-case letters only, at least five long, not a stop word |
| Validation.QualifyingEmpty | validate_tasks.py:75 | the filter leaves nothing exactly when every token is a stop word or at most four long |
| Validation.NoKeywordsIff | validate_tasks.py:74-78 | no search happens exactly when every token of the lower-cased text is a stop word |
| Validation.ImplementationFoundIff | validate_tasks.py:81-95 | implementation evidence exactly when some keyword hits and every keyword before it missed; an exception ends the search without evidence |
| Validation.CheckCodeExists | validate_tasks.py:63-97 | the search loop yields that evidence and never sets tests or config; it issues at most one query per keyword, none without keywords and at least one with keywords, and the last query of a hit is the hit |
| Validation.ValidateStatus | validate_tasks.py:182-194 | a task is likely complete exactly when its commit evidence holds or a keyword hits before any search fails |
| Validation.FailedQueriesLeavePending | validate_tasks.py:81-95 | when every query raises, every task stays pending |
| Validation.ValidateTask | validate_tasks.py:175-196 | the loop body queries the log exactly when the task has a non-empty identifier, and records the result the status rule defines |
| Validation.ValidateTasks | validate_tasks.py:169-196 | one result per task, in order, each the validation of that task |
| Validation.TaskOfFile | validate_tasks.py:120-122 | a task found in a file carries that file's path and a line number of at least 1 |
| Validation.AllTasksFromFiles | validate_tasks.py:157-160 | every collected task comes from a scanned file, carries that file's path and has a line number of at least 1 |
| Validation.CollectTasks | validate_tasks.py:157-160 | the scanning loop concatenates the tasks of every file, file after file |
| Checkboxes.NoBoxIff | update_task_checkboxes.py:26 | a line has no box positions exactly when `'[ ]' in line` is false |
| Checkboxes.ReplaceFirstAt | update_task_checkboxes.py:28 | `replace('[ ]', '[x]', 1)` turns the first box into `[x]` and keeps the text before and after it |
| Checkboxes.ReplaceFirstChars | update_task_checkboxes.py:28 | only the blank inside the first box changes, and it becomes `x` |
| Checkboxes.ReplaceFirstBoxes | update_task_checkboxes.py:28 | the replacement removes exactly the first box and creates none |
| Checkboxes.ReplaceFirstChanges | update_task_checkboxes.py:26-29 | a line holding a box always changes, so `new_line != original_line` always holds after the `in` test |
| Checkboxes.ReplaceTimesBoxes | update_task_checkboxes.py:28 | each repeated replacement checks off one more box while boxes remain |
| Checkboxes.CheckedLine | update_task_checkboxes.py:17-32 | each line has its first box checked off once per checkbox task aimed at it; a line no checkbox task names is kept |
| Checkboxes.ReplacementsRemoveBoxes | update_task_checkboxes.py:26-32 | the returned count equals the number of boxes that disappeared from the file |
| Checkboxes.UnchangedIff | update_task_checkboxes.py:31-37 | the lines change exactly when the count is positive, so `modified` and a positive count agree |
| Checkboxes.ReplacementsBound | update_task_checkboxes.py:17-32 | at most one replacement per checkbox task; todo tasks never count |
| Checkboxes.SecondRunChangesNothing | update_task_checkboxes.py:9-40 | when no line holds more than one box, a second run with the same tasks changes nothing and counts 0 |
| Checkboxes.RerunChecksNextBox | update_task_checkboxes.py:26-28 | the one-box condition is needed: for `- [ ] a [ ] b` and one checkbox task, the first run gives `- [x] a [ ] b` and a second run counts one more replacement and gives `- [x] a [x] b` |
| Checkboxes.CheckOff | update_task_checkboxes.py:18-32 | one task changes the lines exactly as the task-by-task specification says, and reports a change exactly when it targets an unchecked box |
| Checkboxes.UpdateFileCheckboxes | update_task_checkboxes.py:9-40 | an unreadable file counts 0 and changes nothing; otherwise the count is the number of replacements, and the file is rewritten with the checked lines only when it is positive |
| Update.CompletedIff | update_task_checkboxes.py:49-50 | the grouped tasks are exactly those of the results marked likely complete |
| Update.FileOrderIff | update_task_checkboxes.py:51-53 | a file gets a group exactly when some grouped task belongs to it |
| Update.FileOrderDistinct | update_task_checkboxes.py:52-53 | no file is grouped twice |
| Update.FileOrderFirstSeen | update_task_checkboxes.py:48-60 | files are visited in order of first appearance |
| Update.BucketIff | update_task_checkboxes.py:54 | a file's group holds exactly the grouped tasks of that file |
| Update.NoBucket | update_task_checkboxes.py:48-54 | a file no grouped task belongs to has an empty group |
| Update.GroupStep | update_task_checkboxes.py:51-54 | one loop step keeps the dictionary equal to the grouping of the tasks seen so far |
| Update.GroupByFile | update_task_checkboxes.py:48-54 | the dictionary's keys are the files in first-seen order, and each key maps to its group in input order |
| Update.UpdatedFilesBound | update_task_checkboxes.py:58-64 | the updated-files total grows by at most one per file and never exceeds the checked-boxes total |
| Update.TotalCheckedBound | update_task_checkboxes.py:58-64 | no more boxes are checked off than there are checkbox tasks |
| Update.FilesKept | update_task_checkboxes.py:60-61 | updating creates and removes no file |
| Update.UnlistedFileKept | update_task_checkboxes.py:60-61 | a file without a group is left as it was |
| Update.ListedFilesChecked | update_task_checkboxes.py:60-61 | each grouped file ends with its group's boxes checked off |
| Update.RunFilesTotals | update_task_checkboxes.py:58-64 | with each file listed once, the boxes checked off are exactly the boxes that disappeared from the listed files, and the files counted as updated are exactly those whose lines changed |
| Update.UpdateFiles | update_task_checkboxes.py:58-64 | the update loop computes the file system and both totals as the file-by-file specification does |
| Update.BucketNumbered | update_task_checkboxes.py:22-23 | every grouped task carries a line number of at least 1 when the results do |
| Update.UpdateTaskCheckboxes | update_task_checkboxes.py:42-68 | the checked-boxes total is the number of boxes that disappeared from the grouped files, the updated-files total is the number of grouped files whose lines changed, and never exceeds the former; no file appears or disappears; every file ends as its likely-complete checkbox tasks, applied in order, leave it |

## Left out

- Running `git`: the log query and the code search are parameters `gitLog` and `grep`. Their 30- and 5-second timeouts show up only as the `Raised` and `Failed` outcomes.
- `gitLog` and `grep` are fixed functions, so one identifier or keyword gets the same outcome for every task. The real commands can time out on one call and succeed on the next; no proved property depends on this.
- Finding the markdown files (`find_all_md_files`): `CollectTasks` takes the list of files as given.
- Reading files: a file that cannot be read has no contents. `errors='ignore'` decoding is not modelled, and neither is the trailing newline that `readlines()` keeps.
- Line endings: both opens use text mode (update_task_checkboxes.py:12 and :35), so a file with CRLF endings is written back with LF endings on every line. A file here is a list of lines without their endings, so the model cannot show this change.
- Text is a sequence of characters with ASCII character classes. Python's Unicode `\w`, `\d`, `\s` and case mapping of non-ASCII letters are not modelled.
- JSON loading and saving, printing, the progress messages and the summary lists of `main` are not modelled. The results pass from the validator to the updater as a sequence of `Validation` values.
- The initial status `'unknown'` of each result is always overwritten before the result is stored, so the model has only `LikelyComplete` and `Pending`.
- Checkboxes.UpdateFileCheckboxes: requires every task's line number to be at least 1. Line 0 would address the last line through Python's negative indexing. The validator only produces line numbers from 1, as `AllTasksFromFiles` proves.
- Update.UpdateTaskCheckboxes: requires every result's task to have a line number of at least 1, for the same reason as `UpdateFileCheckboxes`; `AllTasksFromFiles` proves the validator never produces another.
- Checkboxes.UpdateFileCheckboxes: a failure while writing the file back is not modelled. The write is the final map update.
- The `fetch_media.py` and `write_checksums.py` scripts of the repository are not part of this model.
