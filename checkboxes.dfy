/**
 Checking off boxes (`update_file_checkboxes` in update_task_checkboxes.py): for
 each checkbox task, in order, the first `[ ]` of its line becomes `[x]`, provided
 the line exists and still holds an unchecked box. The lines are edited in place
 and written back only when something changed.

 Checked and Replacements describe the edit task by task; CheckedLine gives the
 equivalent line-by-line view, and ReplacementsRemoveBoxes shows that the count
 returned is exactly the number of boxes that disappeared.
 */
module Checkboxes {
  import opened Text
  import opened Extraction

  const Mark := "[x]"

  // ---- One line ----------------------------------------------------------------------

  lemma BoxAt(s: string, j: int)
    ensures OccursAt(s, Box, j) <==> 0 <= j && j + 3 <= |s| && s[j] == '[' && s[j + 1] == ' ' && s[j + 2] == ']'
  {
    if 0 <= j && j + 3 <= |s| {
      assert s[j..j + 3] == [s[j], s[j + 1], s[j + 2]];
    }
  }

  /** The positions at which an unchecked box `[ ]` starts. */
  function BoxesIn(s: string): set<int> {
    set j | 0 <= j < |s| && OccursAt(s, Box, j)
  }

  function BoxCount(s: string): nat {
    |BoxesIn(s)|
  }

  lemma NoBoxIff(s: string)
    ensures BoxCount(s) == 0 <==> !Contains(s, Box)
  {
    if Contains(s, Box) {
      var j :| 0 <= j <= |s| && OccursAt(s, Box, j);
      BoxAt(s, j);
      assert j in BoxesIn(s);
    } else {
      assert BoxesIn(s) == {};
    }
  }

  /** k is where the first `[ ]` of s starts. */
  predicate FirstBoxAt(s: string, k: int) {
    OccursAt(s, Box, k) && forall j :: 0 <= j < k ==> !OccursAt(s, Box, j)
  }

  /** `s.replace('[ ]', '[x]', 1)`, with the scan for `[ ]` starting at position i. */
  function ReplaceFrom(s: string, i: nat): (r: string)
    decreases |s| - i
    ensures |r| == |s|
    ensures (forall j :: i <= j ==> !OccursAt(s, Box, j)) ==> r == s
  {
    if i + 3 > |s| then s
    else if s[i..i + 3] == Box then assert OccursAt(s, Box, i); s[..i] + Mark + s[i + 3..]
    else ReplaceFrom(s, i + 1)
  }

  /** `s.replace('[ ]', '[x]', 1)` */
  function ReplaceFirst(s: string): (r: string)
    ensures |r| == |s|
    ensures !Contains(s, Box) ==> r == s
  {
    ReplaceFrom(s, 0)
  }

  lemma {:induction false} ReplaceFromAt(s: string, i: nat, k: int)
    requires i <= k && OccursAt(s, Box, k) && forall j :: i <= j < k ==> !OccursAt(s, Box, j)
    decreases k - i
    ensures ReplaceFrom(s, i) == s[..k] + Mark + s[k + 3..]
  {
    if i < k {
      assert !OccursAt(s, Box, i);
      ReplaceFromAt(s, i + 1, k);
    }
  }

  /** A line with a box: the first box becomes `[x]`, the text before and after it is kept. */
  lemma ReplaceFirstAt(s: string, k: int)
    requires FirstBoxAt(s, k)
    ensures ReplaceFirst(s) == s[..k] + Mark + s[k + 3..]
  {
    ReplaceFromAt(s, 0, k);
  }

  /** Every line with a box has a first one. */
  lemma FirstBox(s: string) returns (k: nat)
    requires Contains(s, Box)
    ensures FirstBoxAt(s, k)
  {
    ContainsIndexOf(s, Box);
    k := IndexOf(s, Box).value;
  }

  /** Only the blank inside the first box changes: it becomes `x`. */
  lemma ReplaceFirstChars(s: string, k: int)
    requires FirstBoxAt(s, k)
    ensures 0 <= k && k + 3 <= |s| && ReplaceFirst(s)[k + 1] == 'x'
    ensures forall x :: 0 <= x < |s| && x != k + 1 ==> ReplaceFirst(s)[x] == s[x]
  {
    ReplaceFirstAt(s, k);
    BoxAt(s, k);
  }

  /** Replacing removes exactly the first box and creates none. */
  lemma ReplaceFirstBoxes(s: string, k: int)
    requires FirstBoxAt(s, k)
    ensures BoxesIn(ReplaceFirst(s)) == BoxesIn(s) - {k}
    ensures BoxCount(ReplaceFirst(s)) == BoxCount(s) - 1
  {
    var r := ReplaceFirst(s);
    ReplaceFirstChars(s, k);
    BoxAt(s, k);
    forall j ensures j in BoxesIn(r) <==> j in BoxesIn(s) && j != k {
      BoxAt(r, j);
      BoxAt(s, j);
      if k - 1 <= j <= k + 1 {
        assert !OccursAt(r, Box, j);
      } else if 0 <= j && j + 3 <= |s| {
        assert r[j] == s[j] && r[j + 1] == s[j + 1] && r[j + 2] == s[j + 2];
      }
    }
    assert k in BoxesIn(s);
  }

  /** A line holding a box always changes, so the `new_line != original_line` test never fails. */
  lemma ReplaceFirstChanges(s: string)
    requires Contains(s, Box)
    ensures ReplaceFirst(s) != s
  {
    var k := FirstBox(s);
    ReplaceFirstChars(s, k);
    BoxAt(s, k);
  }

  /** ReplaceFirst applied n times. */
  function ReplaceTimes(s: string, n: nat): string {
    if n == 0 then s else ReplaceFirst(ReplaceTimes(s, n - 1))
  }

  /** One box fewer, unless there was none. */
  lemma ReplaceFirstCount(s: string)
    ensures BoxCount(ReplaceFirst(s)) == if BoxCount(s) > 0 then BoxCount(s) - 1 else 0
  {
    NoBoxIff(s);
    if Contains(s, Box) {
      var k := FirstBox(s);
      ReplaceFirstBoxes(s, k);
    }
  }

  /** Each application checks off one box while boxes remain. */
  lemma {:induction false} ReplaceTimesBoxes(s: string, n: nat)
    ensures BoxCount(ReplaceTimes(s, n)) == if n <= BoxCount(s) then BoxCount(s) - n else 0
  {
    if n > 0 {
      ReplaceTimesBoxes(s, n - 1);
      ReplaceFirstCount(ReplaceTimes(s, n - 1));
    }
  }

  /** A line the replacement leaves alone stays as it is however often it is applied. */
  lemma {:induction false} ReplaceTimesFixed(s: string, n: nat)
    requires ReplaceFirst(s) == s
    ensures ReplaceTimes(s, n) == s
  {
    if n > 0 {
      ReplaceTimesFixed(s, n - 1);
    }
  }

  // ---- A file's lines ----------------------------------------------------------------

  /** Every task carries a line number of at least 1 (0 would address the last line). */
  predicate Numbered(tasks: seq<Task>) {
    forall i :: 0 <= i < |tasks| ==> tasks[i].line >= 1
  }

  /** Task t checks off a box: it is a checkbox task, its line exists and still holds `[ ]`. */
  predicate Targets(lines: seq<string>, t: Task)
    requires t.line >= 1
  {
    t.kind == Checkbox && t.line - 1 < |lines| && Contains(lines[t.line - 1], Box)
  }

  function Apply(lines: seq<string>, t: Task): seq<string>
    requires t.line >= 1
  {
    if Targets(lines, t) then lines[t.line - 1 := ReplaceFirst(lines[t.line - 1])] else lines
  }

  /** The lines after every task has been applied in turn. */
  function Checked(lines: seq<string>, tasks: seq<Task>): (r: seq<string>)
    requires Numbered(tasks)
    decreases |tasks|
    ensures |r| == |lines|
  {
    if tasks == [] then lines
    else Apply(Checked(lines, tasks[..|tasks| - 1]), tasks[|tasks| - 1])
  }

  /** How many tasks checked off a box. */
  function Replacements(lines: seq<string>, tasks: seq<Task>): nat
    requires Numbered(tasks)
    decreases |tasks|
  {
    if tasks == [] then 0
    else
      var n := |tasks| - 1;
      Replacements(lines, tasks[..n]) + if Targets(Checked(lines, tasks[..n]), tasks[n]) then 1 else 0
  }

  /** The checkbox tasks aimed at line i (0-based). */
  function Hits(tasks: seq<Task>, i: nat): nat
    decreases |tasks|
  {
    if tasks == [] then 0
    else
      var t := tasks[|tasks| - 1];
      Hits(tasks[..|tasks| - 1], i) + if t.kind == Checkbox && t.line == i + 1 then 1 else 0
  }

  /** One task touches at most its own line. */
  lemma ApplyAt(prev: seq<string>, t: Task, i: nat)
    requires t.line >= 1 && i < |prev|
    ensures Apply(prev, t)[i] == if t.kind == Checkbox && t.line == i + 1 then ReplaceFirst(prev[i]) else prev[i]
  {
  }

  lemma CheckedStep(lines: seq<string>, tasks: seq<Task>, i: nat)
    requires Numbered(tasks) && tasks != [] && i < |lines|
    ensures var n := |tasks| - 1;
            var t := tasks[n];
            Checked(lines, tasks)[i] ==
              if t.kind == Checkbox && t.line == i + 1 then ReplaceFirst(Checked(lines, tasks[..n])[i])
              else Checked(lines, tasks[..n])[i]
  {
    var n := |tasks| - 1;
    ApplyAt(Checked(lines, tasks[..n]), tasks[n], i);
  }

  /** Line by line: each line has had its first box checked off once per checkbox task aimed at
      it; in particular a line no checkbox task names is left as it was. */
  lemma {:induction false} CheckedLine(lines: seq<string>, tasks: seq<Task>, i: nat)
    requires Numbered(tasks) && i < |lines|
    decreases |tasks|
    ensures Checked(lines, tasks)[i] == ReplaceTimes(lines[i], Hits(tasks, i))
  {
    if tasks != [] {
      CheckedLine(lines, tasks[..|tasks| - 1], i);
      CheckedStep(lines, tasks, i);
    }
  }

  function TotalBoxes(lines: seq<string>): nat
    decreases |lines|
  {
    if lines == [] then 0 else TotalBoxes(lines[..|lines| - 1]) + BoxCount(lines[|lines| - 1])
  }

  lemma {:induction false} TotalBoxesUpdate(lines: seq<string>, i: nat, x: string)
    requires i < |lines|
    decreases |lines|
    ensures TotalBoxes(lines[i := x]) + BoxCount(lines[i]) == TotalBoxes(lines) + BoxCount(x)
  {
    var n := |lines| - 1;
    var u := lines[i := x];
    assert u[..n] == if i == n then lines[..n] else lines[..n][i := x];
    if i < n {
      TotalBoxesUpdate(lines[..n], i, x);
    }
  }

  /** The count equals the number of boxes that disappeared from the file. */
  lemma {:induction false} ReplacementsRemoveBoxes(lines: seq<string>, tasks: seq<Task>)
    requires Numbered(tasks)
    decreases |tasks|
    ensures Replacements(lines, tasks) + TotalBoxes(Checked(lines, tasks)) == TotalBoxes(lines)
  {
    if tasks != [] {
      var n := |tasks| - 1;
      var t := tasks[n];
      var prev := Checked(lines, tasks[..n]);
      ReplacementsRemoveBoxes(lines, tasks[..n]);
      if Targets(prev, t) {
        var l := prev[t.line - 1];
        var k := FirstBox(l);
        ReplaceFirstBoxes(l, k);
        TotalBoxesUpdate(prev, t.line - 1, ReplaceFirst(l));
        NoBoxIff(l);
      }
    }
  }

  lemma {:induction false} NoReplacementsNoChange(lines: seq<string>, tasks: seq<Task>)
    requires Numbered(tasks) && Replacements(lines, tasks) == 0
    decreases |tasks|
    ensures Checked(lines, tasks) == lines
  {
    if tasks != [] {
      NoReplacementsNoChange(lines, tasks[..|tasks| - 1]);
    }
  }

  /** Something changed exactly when the count is positive: `modified` and `updated_count > 0` agree. */
  lemma UnchangedIff(lines: seq<string>, tasks: seq<Task>)
    requires Numbered(tasks)
    ensures Checked(lines, tasks) == lines <==> Replacements(lines, tasks) == 0
  {
    ReplacementsRemoveBoxes(lines, tasks);
    if Replacements(lines, tasks) == 0 {
      NoReplacementsNoChange(lines, tasks);
    }
  }

  function CheckboxTasks(tasks: seq<Task>): nat
    decreases |tasks|
  {
    if tasks == [] then 0
    else CheckboxTasks(tasks[..|tasks| - 1]) + if tasks[|tasks| - 1].kind == Checkbox then 1 else 0
  }

  /** At most one replacement per checkbox task; todo tasks never count. */
  lemma {:induction false} ReplacementsBound(lines: seq<string>, tasks: seq<Task>)
    requires Numbered(tasks)
    decreases |tasks|
    ensures Replacements(lines, tasks) <= CheckboxTasks(tasks)
  {
    if tasks != [] {
      ReplacementsBound(lines, tasks[..|tasks| - 1]);
    }
  }

  /** When no line holds more than one box, running the same tasks again changes nothing. */
  lemma SecondRunChangesNothing(lines: seq<string>, tasks: seq<Task>)
    requires Numbered(tasks)
    requires forall i :: 0 <= i < |lines| ==> BoxCount(lines[i]) <= 1
    ensures Checked(Checked(lines, tasks), tasks) == Checked(lines, tasks)
    ensures Replacements(Checked(lines, tasks), tasks) == 0
  {
    var once := Checked(lines, tasks);
    forall i | 0 <= i < |lines| ensures Checked(once, tasks)[i] == once[i] {
      var h := Hits(tasks, i);
      CheckedLine(lines, tasks, i);
      CheckedLine(once, tasks, i);
      if h > 0 {
        ReplaceTimesBoxes(lines[i], h);
        NoBoxIff(once[i]);
        assert ReplaceFirst(once[i]) == once[i];
        ReplaceTimesFixed(once[i], h);
      }
    }
    UnchangedIff(once, tasks);
  }

  /** The one-box hypothesis above is needed: on a line with two boxes, a second run with the
      same task checks off the next box and counts it. */
  lemma RerunChecksNextBox()
    ensures var tasks := [Task("TASKS.md", 1, "a", Checkbox, None)];
            var once := Checked(["- [ ] a [ ] b"], tasks);
            once == ["- [x] a [ ] b"] &&
            Replacements(once, tasks) == 1 && Checked(once, tasks) == ["- [x] a [x] b"]
  {
    var t := Task("TASKS.md", 1, "a", Checkbox, None);
    var s, s1, s2 := "- [ ] a [ ] b", "- [x] a [ ] b", "- [x] a [x] b";
    ExampleFirstStep();
    ExampleSecondStep();
    assert [t][..0] == [];
    assert Checked([s], [t]) == Apply([s], t) == [s1];
    assert Checked([s1], [t]) == Apply([s1], t) == [s2];
    assert Replacements([s1], [t]) == Replacements([s1], []) + 1;
  }

  lemma ExampleFirstStep()
    ensures Contains("- [ ] a [ ] b", Box) && ReplaceFirst("- [ ] a [ ] b") == "- [x] a [ ] b"
  {
    var s := "- [ ] a [ ] b";
    FirstBoxOfExample(s, 2);
    ReplaceFirstIs(s, 2);
    assert s[3 := 'x'] == "- [x] a [ ] b";
  }

  lemma ExampleSecondStep()
    ensures Contains("- [x] a [ ] b", Box) && ReplaceFirst("- [x] a [ ] b") == "- [x] a [x] b"
  {
    var s := "- [x] a [ ] b";
    FirstBoxOfExample(s, 8);
    ReplaceFirstIs(s, 8);
    assert s[9 := 'x'] == "- [x] a [x] b";
  }

  /** The replacement puts an `x` inside the first box and changes nothing else. */
  lemma ReplaceFirstIs(s: string, k: int)
    requires FirstBoxAt(s, k)
    ensures 0 <= k + 1 < |s| && ReplaceFirst(s) == s[k + 1 := 'x']
  {
    ReplaceFirstChars(s, k);
  }

  /** In the example lines, the first box starts at k, after a prefix `- [` or `- [x] a [`
      with no box in it. */
  lemma FirstBoxOfExample(s: string, k: nat)
    requires (s == "- [ ] a [ ] b" && k == 2) || (s == "- [x] a [ ] b" && k == 8)
    ensures FirstBoxAt(s, k) && Contains(s, Box)
  {
    BoxAt(s, k);
    forall j | 0 <= j < k ensures !OccursAt(s, Box, j) {
      BoxAt(s, j);
    }
  }

  /** One more task: applied to the lines so far, and counted when it checks off a box. */
  lemma CheckedSnoc(lines: seq<string>, tasks: seq<Task>, k: nat)
    requires Numbered(tasks) && k < |tasks|
    ensures Numbered(tasks[..k]) && Numbered(tasks[..k + 1])
    ensures Checked(lines, tasks[..k + 1]) == Apply(Checked(lines, tasks[..k]), tasks[k])
    ensures Replacements(lines, tasks[..k + 1]) ==
            Replacements(lines, tasks[..k]) + if Targets(Checked(lines, tasks[..k]), tasks[k]) then 1 else 0
  {
    assert tasks[..k + 1][..k] == tasks[..k];
  }

  // ---- The procedure -----------------------------------------------------------------

  /** The body of the loop of `update_file_checkboxes` for one task: a checkbox task whose line
      exists and holds `[ ]` has that line's first box checked off in place. */
  method CheckOff(lines: array<string>, t: Task) returns (changed: bool)
    requires t.line >= 1
    modifies lines
    ensures changed == Targets(old(lines[..]), t)
    ensures lines[..] == Apply(old(lines[..]), t)
  {
    changed := false;
    if t.kind != Checkbox {
      return;
    }
    var n := t.line - 1;
    if n < lines.Length {
      var original := lines[n];
      if Contains(original, Box) {
        var newLine := ReplaceFirst(original);
        ReplaceFirstChanges(original);
        if newLine != original {
          lines[n] := newLine;
          changed := true;
        }
      }
    }
  }

  /** `update_file_checkboxes`: the file system maps each readable path to its lines; a path
      that cannot be read counts 0 and changes nothing. The lines are edited in place in an
      array and written back only when something changed. */
  method UpdateFileCheckboxes(disk: map<string, seq<string>>, path: string, tasks: seq<Task>)
    returns (after: map<string, seq<string>>, count: nat)
    requires Numbered(tasks)
    ensures path !in disk ==> after == disk && count == 0
    ensures path in disk ==> count == Replacements(disk[path], tasks)
    ensures path in disk ==> after == if count > 0 then disk[path := Checked(disk[path], tasks)] else disk
  {
    if path !in disk {
      return disk, 0;
    }
    var contents := disk[path];
    var lines := new string[|contents|](i requires 0 <= i < |contents| => contents[i]);
    var modified := false;
    var updated := 0;
    for k := 0 to |tasks|
      invariant lines[..] == Checked(contents, tasks[..k])
      invariant updated == Replacements(contents, tasks[..k])
      invariant modified <==> updated > 0
    {
      CheckedSnoc(contents, tasks, k);
      var changed := CheckOff(lines, tasks[k]);
      if changed {
        modified := true;
        updated := updated + 1;
      }
    }
    assert tasks[..|tasks|] == tasks;
    if modified {
      return disk[path := lines[..]], updated;
    }
    return disk, 0;
  }
}
