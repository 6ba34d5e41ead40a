/**
 Task extraction (`extract_unchecked_tasks` in validate_tasks.py): each line of a
 markdown file is classified as an unchecked checkbox, a TODO-style marker or
 neither, and a task record is produced for the first two kinds.
 */
module Extraction {
  import opened Text
  import opened TaskIds

  datatype Kind = Checkbox | Todo

  /** A task record: file, 1-based line number, stripped text, kind and optional identifier. */
  datatype Task = Task(file: string, line: nat, text: string, kind: Kind, taskId: Option<string>)

  datatype LineClass = CheckboxLine | TodoLine | Skipped

  const Box := "[ ]"

  /** Files whose path mentions one of these are reference material, never scanned. */
  predicate SkipFile(path: string) {
    Contains(path, "CURSOR-WARNINGS") || Contains(path, "README") ||
    Contains(path, "CONTRIBUTING") || Contains(path, "AGENTS.md")
  }

  // ---- Unchecked checkbox: `^\s*[-*]\s*\[ \]` or `^\s*\d+\.\s*\[ \]` -----------------------

  /** `\s*\[ \]` from p */
  predicate BoxAfterSpace(s: string, p: nat)
    requires p <= |s|
  {
    OccursAt(s, Box, SpanEnd(s, p, Space))
  }

  /** The two anchored searches of the classifier, each run greedily as the regex engine would. */
  predicate IsUncheckedBoxLine(s: string) {
    var a := SpanEnd(s, 0, Space);
    (a < |s| && (s[a] == '-' || s[a] == '*') && BoxAfterSpace(s, a + 1)) ||
    (var d := SpanEnd(s, a, Digit); a < d < |s| && s[d] == '.' && BoxAfterSpace(s, d + 1))
  }

  /** Whitespace, a bullet `-` or `*`, whitespace, then `[ ]`. */
  ghost predicate BulletBox(s: string) {
    exists a, b :: 0 <= a < b <= |s| && AllIn(s, 0, a, Space) && (s[a] == '-' || s[a] == '*') &&
                   AllIn(s, a + 1, b, Space) && OccursAt(s, Box, b)
  }

  /** Whitespace, digits, `.`, whitespace, then `[ ]`. */
  ghost predicate NumberedBox(s: string) {
    exists a, d, b :: 0 <= a < d < b <= |s| && AllIn(s, 0, a, Space) && AllIn(s, a, d, Digit) &&
                      s[d] == '.' && AllIn(s, d + 1, b, Space) && OccursAt(s, Box, b)
  }

  lemma BoxAfterSpaceIff(s: string, p: nat, b: nat)
    requires p <= b <= |s| && AllIn(s, p, b, Space) && OccursAt(s, Box, b)
    ensures BoxAfterSpace(s, p)
  {
    SpanEndUnique(s, p, b, Space);
  }

  lemma BulletBoxScanned(s: string)
    requires BulletBox(s)
    ensures IsUncheckedBoxLine(s)
  {
    var a, b :| 0 <= a < b <= |s| && AllIn(s, 0, a, Space) && (s[a] == '-' || s[a] == '*') &&
                AllIn(s, a + 1, b, Space) && OccursAt(s, Box, b);
    SpanEndUnique(s, 0, a, Space);
    BoxAfterSpaceIff(s, a + 1, b);
  }

  lemma NumberedBoxScanned(s: string)
    requires NumberedBox(s)
    ensures IsUncheckedBoxLine(s)
  {
    var a, d, b :| 0 <= a < d < b <= |s| && AllIn(s, 0, a, Space) && AllIn(s, a, d, Digit) &&
                   s[d] == '.' && AllIn(s, d + 1, b, Space) && OccursAt(s, Box, b);
    NumberedBoxAt(s, a, d, b);
  }

  lemma NumberedBoxAt(s: string, a: nat, d: nat, b: nat)
    requires a < d < b <= |s| && AllIn(s, 0, a, Space) && AllIn(s, a, d, Digit)
    requires s[d] == '.' && AllIn(s, d + 1, b, Space) && OccursAt(s, Box, b)
    ensures IsUncheckedBoxLine(s)
  {
    assert InClass(s[a], Digit);
    assert !InClass(s[a], Space) && !InClass(s[d], Digit);
    SpanEndUnique(s, 0, a, Space);
    SpanEndUnique(s, a, d, Digit);
    BoxAfterSpaceIff(s, d + 1, b);
  }

  lemma ScannedBoxHasShape(s: string)
    requires IsUncheckedBoxLine(s)
    ensures BulletBox(s) || NumberedBox(s)
  {
    var a := SpanEnd(s, 0, Space);
    if a < |s| && (s[a] == '-' || s[a] == '*') && BoxAfterSpace(s, a + 1) {
      var b := SpanEnd(s, a + 1, Space);
      assert 0 <= a < b <= |s| && AllIn(s, 0, a, Space) && (s[a] == '-' || s[a] == '*') &&
             AllIn(s, a + 1, b, Space) && OccursAt(s, Box, b);
    } else {
      var d := SpanEnd(s, a, Digit);
      var b := SpanEnd(s, d + 1, Space);
      assert 0 <= a < d < b <= |s| && AllIn(s, 0, a, Space) && AllIn(s, a, d, Digit) &&
             s[d] == '.' && AllIn(s, d + 1, b, Space) && OccursAt(s, Box, b);
    }
  }

  /** The greedy scan accepts exactly the lines of the two shapes. */
  lemma UncheckedBoxIff(s: string)
    ensures IsUncheckedBoxLine(s) <==> BulletBox(s) || NumberedBox(s)
  {
    if BulletBox(s) { BulletBoxScanned(s); }
    if NumberedBox(s) { NumberedBoxScanned(s); }
    if IsUncheckedBoxLine(s) { ScannedBoxHasShape(s); }
  }

  // ---- The filters -------------------------------------------------------------------

  /** Annotated example lines of a checklist, not tasks (case-sensitive). */
  predicate Annotated(s: string) {
    Contains(s, "(REJECT") || Contains(s, "(WARNING") || Contains(s, "(ACCEPT")
  }

  /** `\[x\]` searched case-insensitively */
  predicate HasCheckedBox(s: string) {
    Contains(s, "[x]") || Contains(s, "[X]")
  }

  const TodoWords: seq<string> := ["TODO", "FIXME", "XXX", "HACK", "PLANNED", "FUTURE"]

  /** One of the marker words, in any case, as a whole word at position i. */
  predicate MarkerAt(s: string, i: nat, w: string)
    requires i <= |s|
  {
    FoldAt(s, i, w) && Boundary(s, i) && Boundary(s, i + |w|)
  }

  /** `\b(TODO|FIXME|XXX|HACK|PLANNED|FUTURE)\b` searched case-insensitively */
  predicate HasMarker(s: string) {
    exists i, k :: 0 <= i <= |s| && 0 <= k < |TodoWords| && MarkerAt(s, i, TodoWords[k])
  }

  /** Lines that mention a marker word without being a task. */
  predicate FalsePositive(s: string) {
    var l := Lower(s);
    Contains(l, "todo.md") || Contains(l, "note that") || Contains(l, "project note") || Contains(l, "see note")
  }

  /** The classifier's if/elif chain for one line. */
  function Classify(line: string): LineClass {
    if IsUncheckedBoxLine(line) then
      if Annotated(line) || |Strip(line)| < 20 then Skipped else CheckboxLine
    else if HasCheckedBox(line) then Skipped
    else if HasMarker(line) then
      if FalsePositive(line) then Skipped else TodoLine
    else Skipped
  }

  /** A checkbox record needs the box shape, no annotation and at least 20 characters after stripping. */
  lemma ClassifyCheckbox(line: string)
    ensures Classify(line) == CheckboxLine <==>
            (BulletBox(line) || NumberedBox(line)) && !Annotated(line) && |Strip(line)| >= 20
  {
    UncheckedBoxIff(line);
  }

  /** A todo record needs: not a box line, no `[x]`, a marker word and none of the false-positive
      phrases. A box line rejected by the checkbox filters is never reconsidered as a todo. */
  lemma ClassifyTodo(line: string)
    ensures Classify(line) == TodoLine <==>
            !(BulletBox(line) || NumberedBox(line)) && !HasCheckedBox(line) && HasMarker(line) && !FalsePositive(line)
  {
    UncheckedBoxIff(line);
  }

  // ---- Records ------------------------------------------------------------------------

  function KindOf(c: LineClass): Kind
    requires c != Skipped
  {
    if c == CheckboxLine then Checkbox else Todo
  }

  /** The record for line number n (1-based). */
  function Record(path: string, n: nat, line: string, c: LineClass): Task
    requires c != Skipped
  {
    Task(path, n, Strip(line), KindOf(c), ExtractTaskId(line))
  }

  /** t is the record that classifying its own line of lines gives. */
  ghost predicate RecordOfLine(t: Task, path: string, lines: seq<string>) {
    1 <= t.line <= |lines| &&
    var l := lines[t.line - 1];
    Classify(l) != Skipped && t == Record(path, t.line, l, Classify(l))
  }

  lemma RecordOfLinePrefix(t: Task, path: string, lines: seq<string>, m: nat)
    requires m <= |lines| && RecordOfLine(t, path, lines[..m])
    ensures RecordOfLine(t, path, lines)
  {
    assert lines[..m][t.line - 1] == lines[t.line - 1];
  }

  /** The records of the scanned lines, in line order. */
  function Extracted(path: string, lines: seq<string>): (r: seq<Task>)
    decreases |lines|
    ensures forall k :: 0 <= k < |r| ==> 1 <= r[k].line <= |lines|
    ensures forall k, k' :: 0 <= k < k' < |r| ==> r[k].line < r[k'].line
  {
    if lines == [] then []
    else
      var n := |lines|;
      var prev := Extracted(path, lines[..n - 1]);
      var c := Classify(lines[n - 1]);
      if c == Skipped then prev else prev + [Record(path, n, lines[n - 1], c)]
  }

  /** Every record is the one its own line classifies to. */
  lemma {:induction false} ExtractedSound(path: string, lines: seq<string>, k: nat)
    requires k < |Extracted(path, lines)|
    ensures RecordOfLine(Extracted(path, lines)[k], path, lines)
  {
    var n := |lines|;
    var prev := Extracted(path, lines[..n - 1]);
    if k < |prev| {
      ExtractedSound(path, lines[..n - 1], k);
      assert Extracted(path, lines)[k] == prev[k];
      RecordOfLinePrefix(prev[k], path, lines, n - 1);
    }
  }

  /** No classified line is missed. */
  lemma {:induction false} ExtractedComplete(path: string, lines: seq<string>, n: nat)
    requires 1 <= n <= |lines| && Classify(lines[n - 1]) != Skipped
    ensures exists k :: 0 <= k < |Extracted(path, lines)| && Extracted(path, lines)[k].line == n
  {
    var m := |lines|;
    var r := Extracted(path, lines);
    if n == m {
      assert r[|r| - 1].line == n;
    } else {
      ExtractedComplete(path, lines[..m - 1], n);
      var prev := Extracted(path, lines[..m - 1]);
      var k :| 0 <= k < |prev| && prev[k].line == n;
      assert r[k] == prev[k];
    }
  }

  /** A file as the scan sees it: its path, and its lines unless it could not be read. */
  datatype MarkdownFile = MarkdownFile(path: string, contents: Option<seq<string>>)

  /** The records of one file: none for a skipped or unreadable file. */
  function TasksOfFile(f: MarkdownFile): seq<Task> {
    if SkipFile(f.path) || f.contents.None? then [] else Extracted(f.path, f.contents.value)
  }

  /** `extract_unchecked_tasks`: the loop over the lines with its `continue` branches. */
  method ExtractUncheckedTasks(f: MarkdownFile) returns (tasks: seq<Task>)
    ensures SkipFile(f.path) || f.contents.None? ==> tasks == []
    ensures !SkipFile(f.path) && f.contents.Some? ==> tasks == Extracted(f.path, f.contents.value)
  {
    tasks := [];
    if SkipFile(f.path) {
      return;
    }
    if f.contents.None? {
      return;
    }
    var lines := f.contents.value;
    for i := 0 to |lines|
      invariant tasks == Extracted(f.path, lines[..i])
    {
      assert lines[..i + 1][..i] == lines[..i];
      var line := lines[i];
      if IsUncheckedBoxLine(line) {
        if Annotated(line) {
          continue;
        }
        if |Strip(line)| < 20 {
          continue;
        }
        tasks := tasks + [Task(f.path, i + 1, Strip(line), Checkbox, ExtractTaskId(line))];
      } else if HasCheckedBox(line) {
        continue;
      } else if HasMarker(line) {
        if FalsePositive(line) {
          continue;
        }
        tasks := tasks + [Task(f.path, i + 1, Strip(line), Todo, ExtractTaskId(line))];
      }
    }
    assert lines[..|lines|] == lines;
  }
}
