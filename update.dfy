/**
 The driver of update_task_checkboxes.py: the validation results are grouped by
 file (only those marked likely complete, files in the order they are first seen,
 tasks in input order within a file), then each file is updated in turn and the
 number of files changed and of boxes checked off are totalled.

 The file system is a map from path to lines; a path missing from it is a file
 that cannot be read.
 */
module Update {
  import opened Extraction
  import opened Validation
  import opened Checkboxes

  // ---- Grouping ----------------------------------------------------------------------

  /** The task records of the results marked likely complete, in input order. */
  function Completed(results: seq<Validation>): seq<Task>
    decreases |results|
  {
    if results == [] then []
    else
      var r := results[|results| - 1];
      Completed(results[..|results| - 1]) + if r.status == LikelyComplete then [r.task] else []
  }

  lemma {:induction false} CompletedIff(results: seq<Validation>, t: Task)
    decreases |results|
    ensures t in Completed(results) <==>
            exists i :: 0 <= i < |results| && results[i].status == LikelyComplete && results[i].task == t
  {
    if results != [] {
      var n := |results| - 1;
      CompletedIff(results[..n], t);
      if exists i :: 0 <= i < n && results[..n][i].status == LikelyComplete && results[..n][i].task == t {
        var i :| 0 <= i < n && results[..n][i].status == LikelyComplete && results[..n][i].task == t;
        assert results[i] == results[..n][i];
      }
      if exists i :: 0 <= i < |results| && results[i].status == LikelyComplete && results[i].task == t {
        var i :| 0 <= i < |results| && results[i].status == LikelyComplete && results[i].task == t;
        if i < n {
          assert results[..n][i] == results[i];
        }
      }
    }
  }

  /** The files of ts, each once, in the order in which they first appear. */
  function FileOrder(ts: seq<Task>): seq<string>
    decreases |ts|
  {
    if ts == [] then []
    else
      var prev := FileOrder(ts[..|ts| - 1]);
      var f := ts[|ts| - 1].file;
      if f in prev then prev else prev + [f]
  }

  /** The tasks of ts that belong to file f, in their order in ts. */
  function Bucket(ts: seq<Task>, f: string): seq<Task>
    decreases |ts|
  {
    if ts == [] then []
    else
      var t := ts[|ts| - 1];
      Bucket(ts[..|ts| - 1], f) + if t.file == f then [t] else []
  }

  /** A file is listed exactly when some task belongs to it. */
  lemma {:induction false} FileOrderIff(ts: seq<Task>, f: string)
    decreases |ts|
    ensures f in FileOrder(ts) <==> exists i :: 0 <= i < |ts| && ts[i].file == f
  {
    if ts != [] {
      var n := |ts| - 1;
      FileOrderIff(ts[..n], f);
      if exists i :: 0 <= i < n && ts[..n][i].file == f {
        var i :| 0 <= i < n && ts[..n][i].file == f;
        assert ts[i] == ts[..n][i];
      }
      if exists i :: 0 <= i < |ts| && ts[i].file == f {
        var i :| 0 <= i < |ts| && ts[i].file == f;
        if i < n {
          assert ts[..n][i] == ts[i];
        }
      }
    }
  }

  /** No file is listed twice. */
  lemma {:induction false} FileOrderDistinct(ts: seq<Task>)
    decreases |ts|
    ensures forall a, b :: 0 <= a < b < |FileOrder(ts)| ==> FileOrder(ts)[a] != FileOrder(ts)[b]
  {
    if ts != [] {
      FileOrderDistinct(ts[..|ts| - 1]);
    }
  }

  /** Files are listed in order of first appearance: every task of a later-listed file comes
      after some task of each earlier-listed file. */
  lemma {:induction false} FileOrderFirstSeen(ts: seq<Task>, a: nat, b: nat, j: nat)
    requires a < b < |FileOrder(ts)| && j < |ts| && ts[j].file == FileOrder(ts)[b]
    decreases |ts|
    ensures exists i :: 0 <= i < j && ts[i].file == FileOrder(ts)[a]
  {
    var n := |ts| - 1;
    var prev := FileOrder(ts[..n]);
    var order := FileOrder(ts);
    assert order[a] in prev;
    FileOrderIff(ts[..n], order[a]);
    var i0 :| 0 <= i0 < n && ts[..n][i0].file == order[a];
    if j == n {
      if b < |prev| {
        FileOrderIff(ts[..n], order[b]);
        var j' :| 0 <= j' < n && ts[..n][j'].file == order[b];
        FileOrderFirstSeen(ts[..n], a, b, j');
        var i :| 0 <= i < j' && ts[..n][i].file == order[a];
        assert ts[i] == ts[..n][i];
      } else {
        assert ts[i0] == ts[..n][i0];
      }
    } else {
      if b < |prev| {
        assert ts[..n][j] == ts[j];
        FileOrderFirstSeen(ts[..n], a, b, j);
        var i :| 0 <= i < j && ts[..n][i].file == order[a];
        assert ts[i] == ts[..n][i];
      } else {
        assert ts[..n][j] == ts[j];
        FileOrderIff(ts[..n], order[b]);
        assert false;
      }
    }
  }

  /** A bucket holds exactly the tasks of its file. */
  lemma {:induction false} BucketIff(ts: seq<Task>, f: string, t: Task)
    decreases |ts|
    ensures t in Bucket(ts, f) <==> t in ts && t.file == f
  {
    if ts != [] {
      var n := |ts| - 1;
      BucketIff(ts[..n], f, t);
      assert ts == ts[..n] + [ts[n]];
    }
  }

  lemma CompletedSnoc(results: seq<Validation>, i: nat)
    requires i < |results|
    ensures Completed(results[..i + 1]) ==
            Completed(results[..i]) + if results[i].status == LikelyComplete then [results[i].task] else []
  {
    assert results[..i + 1][..i] == results[..i];
  }

  lemma FileOrderSnoc(ts: seq<Task>, t: Task)
    ensures FileOrder(ts + [t]) == if t.file in FileOrder(ts) then FileOrder(ts) else FileOrder(ts) + [t.file]
  {
    assert (ts + [t])[..|ts|] == ts;
  }

  lemma BucketSnoc(ts: seq<Task>, t: Task, f: string)
    ensures Bucket(ts + [t], f) == Bucket(ts, f) + if t.file == f then [t] else []
  {
    assert (ts + [t])[..|ts|] == ts;
  }

  /** order and byFile are the keys, in insertion order, and the values of the dictionary built from ts. */
  ghost predicate Grouped(order: seq<string>, byFile: map<string, seq<Task>>, ts: seq<Task>) {
    order == FileOrder(ts) &&
    (forall f :: f in byFile <==> f in order) &&
    (forall f :: f in byFile ==> byFile[f] == Bucket(ts, f))
  }

  /** One step of the grouping loop: the task t is appended to its file's list, and the file
      becomes a new key, after the existing ones, when it is not one yet. */
  lemma GroupStep(order: seq<string>, byFile: map<string, seq<Task>>, ts: seq<Task>, t: Task,
                  order': seq<string>, byFile': map<string, seq<Task>>)
    requires Grouped(order, byFile, ts)
    requires order' == if t.file in byFile then order else order + [t.file]
    requires forall g :: g in byFile' <==> g in byFile || g == t.file
    requires t.file in byFile' && byFile'[t.file] == (if t.file in byFile then byFile[t.file] else []) + [t]
    requires forall g :: g in byFile && g != t.file ==> byFile'[g] == byFile[g]
    ensures Grouped(order', byFile', ts + [t])
  {
    FileOrderSnoc(ts, t);
    if t.file !in byFile {
      NoBucket(ts, t.file);
    }
    forall g | g in byFile' ensures byFile'[g] == Bucket(ts + [t], g) {
      BucketSnoc(ts, t, g);
    }
  }

  /** The `tasks_by_file` dictionary: its keys in insertion order, and the bucket of each key. */
  method GroupByFile(results: seq<Validation>) returns (order: seq<string>, byFile: map<string, seq<Task>>)
    ensures order == FileOrder(Completed(results))
    ensures forall f :: f in byFile <==> f in order
    ensures forall f :: f in byFile ==> byFile[f] == Bucket(Completed(results), f)
  {
    order := [];
    byFile := map[];
    for i := 0 to |results|
      invariant Grouped(order, byFile, Completed(results[..i]))
    {
      CompletedSnoc(results, i);
      var r := results[i];
      if r.status == LikelyComplete {
        ghost var order0, byFile0 := order, byFile;
        var f := r.task.file;
        if f !in byFile {
          byFile := byFile[f := []];
          order := order + [f];
        }
        byFile := byFile[f := byFile[f] + [r.task]];
        GroupStep(order0, byFile0, Completed(results[..i]), r.task, order, byFile);
        assert Completed(results[..i + 1]) == Completed(results[..i]) + [r.task];
      } else {
        assert Completed(results[..i + 1]) == Completed(results[..i]);
      }
    }
    assert results[..|results|] == results;
  }

  // ---- Updating the files ------------------------------------------------------------

  /** The file system and the two running totals. */
  datatype Totals = Totals(disk: map<string, seq<string>>, updatedFiles: nat, totalChecked: nat)

  /** Every listed file has a bucket, and every task in it a line number of at least 1. */
  predicate Ready(order: seq<string>, byFile: map<string, seq<Task>>) {
    forall f :: f in order ==> f in byFile && Numbered(byFile[f])
  }

  /** The count `update_file_checkboxes` returns for file f: 0 when the file cannot be read. */
  function FileCount(disk: map<string, seq<string>>, f: string, tasks: seq<Task>): nat
    requires Numbered(tasks)
  {
    if f in disk then Replacements(disk[f], tasks) else 0
  }

  /** The file system after `update_file_checkboxes` on file f: rewritten only when a box was
      checked off. */
  function AfterFile(disk: map<string, seq<string>>, f: string, tasks: seq<Task>): map<string, seq<string>>
    requires Numbered(tasks)
  {
    if FileCount(disk, f, tasks) > 0 then disk[f := Checked(disk[f], tasks)] else disk
  }

  /** The loop of `main` over the files, from running totals st. */
  function RunFiles(st: Totals, order: seq<string>, byFile: map<string, seq<Task>>): Totals
    requires Ready(order, byFile)
    decreases |order|
  {
    if order == [] then st
    else
      var f := order[0];
      var c := FileCount(st.disk, f, byFile[f]);
      var next := Totals(AfterFile(st.disk, f, byFile[f]),
                         st.updatedFiles + (if c > 0 then 1 else 0), st.totalChecked + c);
      RunFiles(next, order[1..], byFile)
  }

  /** Every updated file contributed at least one checked box, and no file is counted twice. */
  lemma {:induction false} UpdatedFilesBound(st: Totals, order: seq<string>, byFile: map<string, seq<Task>>)
    requires Ready(order, byFile)
    decreases |order|
    ensures var out := RunFiles(st, order, byFile);
            st.updatedFiles <= out.updatedFiles <= st.updatedFiles + |order| &&
            out.updatedFiles - st.updatedFiles <= out.totalChecked - st.totalChecked
  {
    if order != [] {
      var f := order[0];
      var c := FileCount(st.disk, f, byFile[f]);
      var next := Totals(AfterFile(st.disk, f, byFile[f]),
                         st.updatedFiles + (if c > 0 then 1 else 0), st.totalChecked + c);
      UpdatedFilesBound(next, order[1..], byFile);
    }
  }

  /** The sum, over the listed files, of their checkbox tasks. */
  function CheckboxTasksOf(order: seq<string>, byFile: map<string, seq<Task>>): nat
    requires forall f :: f in order ==> f in byFile
    decreases |order|
  {
    if order == [] then 0 else CheckboxTasks(byFile[order[0]]) + CheckboxTasksOf(order[1..], byFile)
  }

  /** No more boxes are checked off than there are checkbox tasks. */
  lemma {:induction false} TotalCheckedBound(st: Totals, order: seq<string>, byFile: map<string, seq<Task>>)
    requires Ready(order, byFile)
    decreases |order|
    ensures RunFiles(st, order, byFile).totalChecked <= st.totalChecked + CheckboxTasksOf(order, byFile)
  {
    if order != [] {
      var f := order[0];
      if f in st.disk {
        ReplacementsBound(st.disk[f], byFile[f]);
      }
      var c := FileCount(st.disk, f, byFile[f]);
      var next := Totals(AfterFile(st.disk, f, byFile[f]),
                         st.updatedFiles + (if c > 0 then 1 else 0), st.totalChecked + c);
      TotalCheckedBound(next, order[1..], byFile);
    }
  }

  /** No file appears or disappears. */
  lemma {:induction false} FilesKept(st: Totals, order: seq<string>, byFile: map<string, seq<Task>>)
    requires Ready(order, byFile)
    decreases |order|
    ensures RunFiles(st, order, byFile).disk.Keys == st.disk.Keys
  {
    if order != [] {
      var f := order[0];
      var c := FileCount(st.disk, f, byFile[f]);
      var next := Totals(AfterFile(st.disk, f, byFile[f]),
                         st.updatedFiles + (if c > 0 then 1 else 0), st.totalChecked + c);
      FilesKept(next, order[1..], byFile);
    }
  }

  /** Files that are not listed are left as they are. */
  lemma {:induction false} UnlistedFileKept(st: Totals, order: seq<string>, byFile: map<string, seq<Task>>, g: string)
    requires Ready(order, byFile) && g !in order && g in st.disk
    decreases |order|
    ensures g in RunFiles(st, order, byFile).disk && RunFiles(st, order, byFile).disk[g] == st.disk[g]
  {
    if order != [] {
      var f := order[0];
      var c := FileCount(st.disk, f, byFile[f]);
      var next := Totals(AfterFile(st.disk, f, byFile[f]),
                         st.updatedFiles + (if c > 0 then 1 else 0), st.totalChecked + c);
      UnlistedFileKept(next, order[1..], byFile, g);
    }
  }

  /** Each listed file, read once, ends up with its bucket's boxes checked off (a file with no
      change is not rewritten, and then its lines are what Checked gives anyway). */
  lemma {:induction false} ListedFilesChecked(st: Totals, order: seq<string>, byFile: map<string, seq<Task>>, g: string)
    requires Ready(order, byFile) && g in order && g in st.disk
    requires forall a, b :: 0 <= a < b < |order| ==> order[a] != order[b]
    decreases |order|
    ensures g in byFile && g in RunFiles(st, order, byFile).disk
    ensures RunFiles(st, order, byFile).disk[g] == Checked(st.disk[g], byFile[g])
  {
    var f := order[0];
    var c := FileCount(st.disk, f, byFile[f]);
    var next := Totals(AfterFile(st.disk, f, byFile[f]),
                       st.updatedFiles + (if c > 0 then 1 else 0), st.totalChecked + c);
    if g == f {
      forall b | 0 <= b < |order[1..]| ensures order[1..][b] != g {
        assert order[1..][b] == order[b + 1];
      }
      UnlistedFileKept(next, order[1..], byFile, g);
      UnchangedIff(st.disk[g], byFile[g]);
    } else {
      forall a, b | 0 <= a < b < |order[1..]| ensures order[1..][a] != order[1..][b] {
        assert order[1..][a] == order[a + 1] && order[1..][b] == order[b + 1];
      }
      ListedFilesChecked(next, order[1..], byFile, g);
    }
  }

  /** The unchecked boxes in the files of order, a file that cannot be read counting none. */
  function BoxesLeft(disk: map<string, seq<string>>, order: seq<string>): nat
    decreases |order|
  {
    if order == [] then 0
    else (if order[0] in disk then TotalBoxes(disk[order[0]]) else 0) + BoxesLeft(disk, order[1..])
  }

  /** The number of files of order that exist before and after and whose lines differ. */
  function ChangedFiles(before: map<string, seq<string>>, after: map<string, seq<string>>, order: seq<string>): nat
    decreases |order|
  {
    if order == [] then 0
    else
      var f := order[0];
      (if f in before && f in after && after[f] != before[f] then 1 else 0) + ChangedFiles(before, after, order[1..])
  }

  /** Two file systems that agree on the files of order leave the same boxes in them. */
  lemma {:induction false} BoxesLeftFrame(d: map<string, seq<string>>, d': map<string, seq<string>>, order: seq<string>)
    requires forall g :: g in order ==> (g in d <==> g in d') && (g in d ==> d[g] == d'[g])
    decreases |order|
    ensures BoxesLeft(d, order) == BoxesLeft(d', order)
  {
    if order != [] {
      BoxesLeftFrame(d, d', order[1..]);
    }
  }

  /** Two starting file systems that agree on the files of order have the same changed files. */
  lemma {:induction false} ChangedFilesFrame(d: map<string, seq<string>>, d': map<string, seq<string>>,
                                             after: map<string, seq<string>>, order: seq<string>)
    requires forall g :: g in order ==> (g in d <==> g in d') && (g in d ==> d[g] == d'[g])
    decreases |order|
    ensures ChangedFiles(d, after, order) == ChangedFiles(d', after, order)
  {
    if order != [] {
      ChangedFilesFrame(d, d', after, order[1..]);
    }
  }

  /** With each file listed once, the boxes checked off are exactly the boxes that disappeared from
      the listed files, and the files counted as updated are exactly those whose lines changed. */
  lemma {:induction false} RunFilesTotals(st: Totals, order: seq<string>, byFile: map<string, seq<Task>>)
    requires Ready(order, byFile)
    requires forall a, b :: 0 <= a < b < |order| ==> order[a] != order[b]
    decreases |order|
    ensures var out := RunFiles(st, order, byFile);
            out.totalChecked + BoxesLeft(out.disk, order) == st.totalChecked + BoxesLeft(st.disk, order) &&
            out.updatedFiles == st.updatedFiles + ChangedFiles(st.disk, out.disk, order)
  {
    if order != [] {
      var f := order[0];
      var rest := order[1..];
      var c := FileCount(st.disk, f, byFile[f]);
      var next := Totals(AfterFile(st.disk, f, byFile[f]),
                         st.updatedFiles + (if c > 0 then 1 else 0), st.totalChecked + c);
      var out := RunFiles(next, rest, byFile);
      assert out == RunFiles(st, order, byFile);
      forall a, b | 0 <= a < b < |rest| ensures rest[a] != rest[b] {
        assert rest[a] == order[a + 1] && rest[b] == order[b + 1];
      }
      assert f !in rest by {
        forall b | 0 <= b < |rest| ensures rest[b] != f {
          assert rest[b] == order[b + 1];
        }
      }
      RunFilesTotals(next, rest, byFile);
      FilesKept(next, rest, byFile);
      BoxesLeftFrame(next.disk, st.disk, rest);
      ChangedFilesFrame(next.disk, st.disk, out.disk, rest);
      if f in st.disk {
        UnlistedFileKept(next, rest, byFile, f);
        ReplacementsRemoveBoxes(st.disk[f], byFile[f]);
        UnchangedIff(st.disk[f], byFile[f]);
      }
    }
  }

  /** The update loop of `main`. */
  method UpdateFiles(disk: map<string, seq<string>>, order: seq<string>, byFile: map<string, seq<Task>>)
    returns (out: Totals)
    requires Ready(order, byFile)
    ensures out == RunFiles(Totals(disk, 0, 0), order, byFile)
  {
    out := Totals(disk, 0, 0);
    var i := 0;
    while i < |order|
      invariant i <= |order|
      invariant RunFiles(Totals(disk, 0, 0), order, byFile) == RunFiles(out, order[i..], byFile)
    {
      var f := order[i];
      assert order[i..][1..] == order[i + 1..];
      var after, count := UpdateFileCheckboxes(out.disk, f, byFile[f]);
      var updatedFiles, totalChecked := out.updatedFiles, out.totalChecked;
      if count > 0 {
        updatedFiles := updatedFiles + 1;
        totalChecked := totalChecked + count;
      }
      out := Totals(after, updatedFiles, totalChecked);
      i := i + 1;
    }
  }

  // ---- The whole run -----------------------------------------------------------------

  /** Every result's task carries a line number of at least 1. */
  predicate ResultsNumbered(results: seq<Validation>) {
    forall i :: 0 <= i < |results| ==> results[i].task.line >= 1
  }

  lemma BucketNumbered(results: seq<Validation>, f: string)
    requires ResultsNumbered(results)
    ensures Numbered(Bucket(Completed(results), f))
  {
    var b := Bucket(Completed(results), f);
    forall k | 0 <= k < |b| ensures b[k].line >= 1 {
      BucketIff(Completed(results), f, b[k]);
      CompletedIff(results, b[k]);
    }
  }

  /** `main` after loading the results: group, then update every file. */
  method UpdateTaskCheckboxes(results: seq<Validation>, disk: map<string, seq<string>>) returns (out: Totals)
    requires ResultsNumbered(results)
    ensures out.updatedFiles <= out.totalChecked
    ensures out.totalChecked + BoxesLeft(out.disk, FileOrder(Completed(results))) ==
            BoxesLeft(disk, FileOrder(Completed(results)))
    ensures out.updatedFiles == ChangedFiles(disk, out.disk, FileOrder(Completed(results)))
    ensures out.disk.Keys == disk.Keys
    ensures forall f :: Numbered(Bucket(Completed(results), f))
    ensures forall f :: f in disk ==> out.disk[f] == Checked(disk[f], Bucket(Completed(results), f))
  {
    var order, byFile := GroupByFile(results);
    forall f ensures Numbered(Bucket(Completed(results), f)) {
      BucketNumbered(results, f);
    }
    out := UpdateFiles(disk, order, byFile);
    UpdatedFilesBound(Totals(disk, 0, 0), order, byFile);
    FilesKept(Totals(disk, 0, 0), order, byFile);
    FileOrderDistinct(Completed(results));
    RunFilesTotals(Totals(disk, 0, 0), order, byFile);
    forall f | f in disk ensures out.disk[f] == Checked(disk[f], Bucket(Completed(results), f)) {
      if f in order {
        ListedFilesChecked(Totals(disk, 0, 0), order, byFile, f);
      } else {
        UnlistedFileKept(Totals(disk, 0, 0), order, byFile, f);
        NoBucket(Completed(results), f);
      }
    }
  }

  /** A file no task belongs to has an empty bucket. */
  lemma NoBucket(ts: seq<Task>, f: string)
    requires f !in FileOrder(ts)
    ensures Bucket(ts, f) == []
  {
    FileOrderIff(ts, f);
    BucketOfNone(ts, f);
  }

  lemma BucketOfNone(ts: seq<Task>, f: string)
    requires forall i :: 0 <= i < |ts| ==> ts[i].file != f
    ensures Bucket(ts, f) == []
  {
  }
}
