/**
 Task validation (validate_tasks.py): commit evidence from the version-control
 log, code evidence from a source search for keywords of the task's text, and the
 status derived from them. The two external queries are parameters:

 - gitLog(id) is what `git log --all --grep <id> --oneline` produced: its output,
   or the exception that the call raised;
 - grep(kw) is the outcome of `git grep -i <kw>` over the source files: a hit
   (exit status 0 and non-blank output), a miss, or an exception (such as a
   timeout).
 */
module Validation {
  import opened Text
  import opened Extraction

  datatype Status = LikelyComplete | Pending

  datatype CodeEvidence = CodeEvidence(hasImplementation: bool, hasTests: bool, hasConfig: bool)

  /** One entry of the results list handed to the checkbox updater. */
  datatype Validation = Validation(task: Task, hasCommit: bool, hasCode: CodeEvidence, status: Status)

  datatype GitOutcome = Output(stdout: string) | Raised(message: string)

  datatype SearchOutcome = Hit | Miss | Failed

  // ---- Commit evidence -----------------------------------------------------------------

  /** `run_git_command`: the stripped output, or an error text when the call raised. */
  function GitResult(o: GitOutcome): string {
    match o
    case Output(out) => Strip(out)
    case Raised(message) => "ERROR: " + message
  }

  /** `check_git_commits`, guarded as `main` guards it by the presence of an identifier. */
  function HasCommit(taskId: Option<string>, gitLog: string -> GitOutcome): bool {
    match taskId
    case None => false
    case Some(id) => id != [] && var out := GitResult(gitLog(id)); out != [] && !Contains(out, "ERROR")
  }

  /** Commit evidence needs an identifier and a log query that ran and printed something free of
      the word ERROR; a failed query never counts as evidence. */
  lemma CommitEvidence(taskId: Option<string>, gitLog: string -> GitOutcome)
    ensures HasCommit(taskId, gitLog) <==>
            taskId.Some? && taskId.value != [] && gitLog(taskId.value).Output? &&
            Strip(gitLog(taskId.value).stdout) != [] && !Contains(Strip(gitLog(taskId.value).stdout), "ERROR")
  {
    if taskId.Some? && gitLog(taskId.value).Raised? {
      var out := GitResult(gitLog(taskId.value));
      assert out[..5] == "ERROR";
      assert OccursAt(out, "ERROR", 0);
    }
  }

  // ---- Keywords ----------------------------------------------------------------------

  const StopWords: set<string> := {
    "this", "that", "with", "from", "have", "will", "should", "would", "could",
    "implement", "add", "create", "update", "fix", "remove", "delete", "change" }

  /** s[i..e] is a match of `\b[a-zA-Z]{5,}\b`. */
  predicate IsToken(s: string, i: nat, e: nat) {
    i + 5 <= e <= |s| && Boundary(s, i) && AllIn(s, i, e, Letter) && Boundary(s, e)
  }

  /** The match of `\b[a-zA-Z]{5,}\b` starting at i, if there is one. */
  function TokenAt(s: string, i: nat): (r: Option<nat>)
    requires i <= |s|
    ensures r.Some? ==> IsToken(s, i, r.value)
  {
    var e := SpanEnd(s, i, Letter);
    if i + 5 <= e && Boundary(s, i) && Boundary(s, e) then Some(e) else None
  }

  lemma TokenAtIff(s: string, i: nat, e: nat)
    requires i <= |s|
    ensures TokenAt(s, i) == Some(e) <==> IsToken(s, i, e)
  {
    if IsToken(s, i, e) {
      assert IsWordChar(s[e - 1]);
      SpanEndUnique(s, i, e, Letter);
    }
  }

  /** `re.findall` from position from: the spans of successive non-overlapping matches. */
  function TokenSpans(s: string, from: nat): (r: seq<(nat, nat)>)
    requires from <= |s|
    decreases |s| - from
    ensures forall k :: 0 <= k < |r| ==> from <= r[k].0 && IsToken(s, r[k].0, r[k].1)
    ensures forall k :: 0 < k < |r| ==> r[k - 1].1 <= r[k].0
  {
    if from == |s| then []
    else match TokenAt(s, from)
      case Some(e) => [(from, e)] + TokenSpans(s, e)
      case None => TokenSpans(s, from + 1)
  }

  /** findall misses no match: every token at or after from is among the spans. */
  lemma {:induction false} TokenSpansComplete(s: string, from: nat, i: nat, e: nat)
    requires from <= i && from <= |s| && IsToken(s, i, e)
    decreases |s| - from
    ensures (i, e) in TokenSpans(s, from)
  {
    TokenAtIff(s, from, e);
    match TokenAt(s, from)
    case Some(e0) =>
      if i == from {
        assert TokenSpans(s, from)[0] == (i, e);
      } else if i < e0 {
        assert false;
      } else {
        TokenSpansComplete(s, e0, i, e);
      }
    case None =>
      TokenSpansComplete(s, from + 1, i, e);
  }

  /** The matched text of each span. */
  function Texts(s: string, spans: seq<(nat, nat)>): (r: seq<string>)
    requires forall k :: 0 <= k < |spans| ==> spans[k].0 <= spans[k].1 <= |s|
    ensures |r| == |spans|
    ensures forall k :: 0 <= k < |spans| ==> r[k] == s[spans[k].0..spans[k].1]
  {
    if spans == [] then [] else [s[spans[0].0..spans[0].1]] + Texts(s, spans[1..])
  }

  /** `re.findall(r'\b[a-zA-Z]{5,}\b', s)` */
  function Tokens(s: string): (r: seq<string>)
  {
    Texts(s, TokenSpans(s, 0))
  }

  /** `[kw for kw in keywords if kw not in stop_words and len(kw) > 4]` */
  function Qualifying(ws: seq<string>): seq<string>
  {
    if ws == [] then []
    else if ws[0] !in StopWords && |ws[0]| > 4 then [ws[0]] + Qualifying(ws[1..])
    else Qualifying(ws[1..])
  }

  /** The keyword selection of `check_code_exists`: at most three qualifying tokens of the
      lower-cased text, in order of appearance. */
  function Keywords(text: string): (r: seq<string>)
    ensures |r| <= 3
    ensures var q := Qualifying(Tokens(Lower(text)));
            |r| == (if |q| <= 3 then |q| else 3) && r == q[..|r|]
  {
    var q := Qualifying(Tokens(Lower(text)));
    if |q| <= 3 then q else q[..3]
  }

  /** The filter keeps only tokens of the list that are neither stop words nor shorter than five. */
  lemma {:induction false} QualifyingSound(ws: seq<string>, w: string)
    requires w in Qualifying(ws)
    ensures w in ws && w !in StopWords && |w| > 4
  {
    if ws[0] !in StopWords && |ws[0]| > 4 && w == ws[0] {
    } else {
      QualifyingSound(ws[1..], w);
    }
  }

  /** The filter drops no token that is neither a stop word nor shorter than five. */
  lemma {:induction false} QualifyingComplete(ws: seq<string>, w: string)
    requires w in ws && w !in StopWords && |w| > 4
    ensures w in Qualifying(ws)
  {
    if ws[0] != w {
      assert w in ws[1..];
      QualifyingComplete(ws[1..], w);
    }
  }

  /** The filter keeps the order of the list: it works on each part of a concatenation alone. */
  lemma {:induction false} QualifyingAppend(a: seq<string>, b: seq<string>)
    ensures Qualifying(a + b) == Qualifying(a) + Qualifying(b)
  {
    if a == [] {
      assert a + b == b;
    } else {
      assert (a + b)[0] == a[0] && (a + b)[1..] == a[1..] + b;
      QualifyingAppend(a[1..], b);
    }
  }

  /** Every token is the text of a match of `\b[a-zA-Z]{5,}\b`. */
  lemma TokenIsMatch(s: string, w: string)
    requires w in Tokens(s)
    ensures exists i: nat, e: nat :: IsToken(s, i, e) && s[i..e] == w
  {
    var spans := TokenSpans(s, 0);
    var ts := Texts(s, spans);
    var k :| 0 <= k < |ts| && ts[k] == w;
    var i, e := spans[k].0, spans[k].1;
    assert IsToken(s, i, e) && s[i..e] == w;
  }

  lemma KeywordIsQualifying(text: string, w: string)
    requires w in Keywords(text)
    ensures w in Qualifying(Tokens(Lower(text)))
  {
    var q := Qualifying(Tokens(Lower(text)));
    if |q| > 3 {
      var x :| 0 <= x < 3 && q[..3][x] == w;
      assert q[x] == w;
    }
  }

  /** A run of letters in lower-cased text is made of lower-case letters. */
  lemma LowerLetterRun(text: string, i: nat, e: nat)
    requires i <= e <= |text| && AllIn(Lower(text), i, e, Letter)
    ensures forall c :: c in Lower(text)[i..e] ==> 'a' <= c <= 'z'
  {
    var s := Lower(text);
    forall c | c in s[i..e] ensures 'a' <= c <= 'z' {
      var x :| 0 <= x < e - i && s[i..e][x] == c;
      assert c == s[i + x] && IsLetter(c) && c == LowerChar(text[i + x]);
    }
  }

  /** Every keyword is a whole token of the lower-cased text, made of lower-case letters only,
      at least five long and not a stop word. */
  lemma KeywordShape(text: string, w: string)
    requires w in Keywords(text)
    ensures |w| >= 5 && w !in StopWords
    ensures forall c :: c in w ==> 'a' <= c <= 'z'
    ensures exists i: nat, e: nat :: IsToken(Lower(text), i, e) && Lower(text)[i..e] == w
  {
    var s := Lower(text);
    KeywordIsQualifying(text, w);
    QualifyingSound(Tokens(s), w);
    TokenIsMatch(s, w);
    var i: nat, e: nat :| IsToken(s, i, e) && s[i..e] == w;
    LowerLetterRun(text, i, e);
  }

  /** The qualifying filter drops only stop words and short words. */
  lemma {:induction false} QualifyingEmpty(ws: seq<string>)
    ensures Qualifying(ws) == [] <==> forall w :: w in ws ==> w in StopWords || |w| <= 4
  {
    if ws != [] {
      QualifyingEmpty(ws[1..]);
      assert forall w :: w in ws <==> w == ws[0] || w in ws[1..];
    }
  }

  /** Every match of the token pattern is among the tokens. */
  lemma MatchIsToken(s: string, i: nat, e: nat)
    requires IsToken(s, i, e)
    ensures s[i..e] in Tokens(s)
  {
    TokenSpansComplete(s, 0, i, e);
    var spans := TokenSpans(s, 0);
    var k :| 0 <= k < |spans| && spans[k] == (i, e);
    assert Tokens(s)[k] == s[i..e];
  }

  /** No keyword is selected exactly when every token of the text is a stop word; in that case
      no search is made. */
  lemma NoKeywordsIff(text: string)
    ensures Keywords(text) == [] <==>
            forall i: nat, e: nat :: IsToken(Lower(text), i, e) ==> Lower(text)[i..e] in StopWords
  {
    var s := Lower(text);
    var ts := Tokens(s);
    QualifyingEmpty(ts);
    if Keywords(text) == [] {
      forall i: nat, e: nat | IsToken(s, i, e) ensures s[i..e] in StopWords {
        MatchIsToken(s, i, e);
      }
    } else {
      var w := Keywords(text)[0];
      KeywordShape(text, w);
    }
  }

  // ---- Code evidence -----------------------------------------------------------------

  /** The search loop: the first keyword with a hit settles it; a miss moves on; an exception
      ends the whole search without evidence. */
  function ImplementationFound(kws: seq<string>, grep: string -> SearchOutcome): bool {
    if kws == [] then false
    else match grep(kws[0])
      case Hit => true
      case Failed => false
      case Miss => ImplementationFound(kws[1..], grep)
  }

  /** Evidence exactly when some keyword hits and every keyword before it missed. */
  lemma {:induction false} ImplementationFoundIff(kws: seq<string>, grep: string -> SearchOutcome)
    ensures ImplementationFound(kws, grep) <==>
            exists k :: 0 <= k < |kws| && grep(kws[k]) == Hit && forall j :: 0 <= j < k ==> grep(kws[j]) == Miss
  {
    if kws != [] {
      ImplementationFoundIff(kws[1..], grep);
      if grep(kws[0]) == Miss {
        if ImplementationFound(kws, grep) {
          var k :| 0 <= k < |kws[1..]| && grep(kws[1..][k]) == Hit &&
                   forall j :: 0 <= j < k ==> grep(kws[1..][j]) == Miss;
          assert grep(kws[k + 1]) == Hit;
          forall j | 0 <= j < k + 1 ensures grep(kws[j]) == Miss {
            if j > 0 { assert kws[j] == kws[1..][j - 1]; }
          }
        } else {
          forall k | 0 <= k < |kws| && grep(kws[k]) == Hit
            ensures exists j :: 0 <= j < k && grep(kws[j]) != Miss
          {
            assert k > 0 && kws[k] == kws[1..][k - 1];
            if forall j :: 0 <= j < k ==> grep(kws[j]) == Miss {
              forall j | 0 <= j < k - 1 ensures grep(kws[1..][j]) == Miss {
                assert kws[1..][j] == kws[j + 1];
              }
              assert false;
            }
          }
        }
      } else if grep(kws[0]) == Failed {
        forall k | 0 <= k < |kws| && grep(kws[k]) == Hit
          ensures exists j :: 0 <= j < k && grep(kws[j]) != Miss
        {
          assert k > 0 && grep(kws[0]) != Miss;
        }
      } else {
        assert grep(kws[0]) == Hit;
      }
    }
  }

  /** `check_code_exists`: evidence from the source search; tests and configuration are never
      looked for. searched counts the queries issued. */
  method CheckCodeExists(text: string, grep: string -> SearchOutcome) returns (r: CodeEvidence, searched: nat)
    ensures r == CodeEvidence(ImplementationFound(Keywords(text), grep), false, false)
    ensures searched <= |Keywords(text)|
    ensures Keywords(text) == [] ==> searched == 0
    ensures Keywords(text) != [] ==> searched >= 1
    ensures r.hasImplementation ==> 0 < searched && grep(Keywords(text)[searched - 1]) == Hit
  {
    r := CodeEvidence(false, false, false);
    searched := 0;
    var kws := Keywords(text);
    if kws == [] {
      return;
    }
    var i := 0;
    while i < |kws|
      invariant i <= |kws| && searched == i
      invariant r == CodeEvidence(false, false, false)
      invariant ImplementationFound(kws, grep) == ImplementationFound(kws[i..], grep)
    {
      var outcome := grep(kws[i]);
      searched := searched + 1;
      if outcome == Failed {
        return;
      }
      if outcome == Hit {
        r := r.(hasImplementation := true);
        return;
      }
      assert kws[i..][1..] == kws[i + 1..];
      i := i + 1;
    }
  }

  // ---- Status ------------------------------------------------------------------------

  function StatusOf(hasCommit: bool, code: CodeEvidence): Status {
    if hasCommit || code.hasImplementation || code.hasTests || code.hasConfig then LikelyComplete else Pending
  }

  /** The result `main` records for one task. */
  function Validate(t: Task, gitLog: string -> GitOutcome, grep: string -> SearchOutcome): Validation {
    var hasCommit := HasCommit(t.taskId, gitLog);
    var code := CodeEvidence(ImplementationFound(Keywords(t.text), grep), false, false);
    Validation(t, hasCommit, code, StatusOf(hasCommit, code))
  }

  /** A task is likely complete exactly when its identifier shows up in the log or one of its
      keywords is found in the sources before any search fails. */
  lemma ValidateStatus(t: Task, gitLog: string -> GitOutcome, grep: string -> SearchOutcome)
    ensures Validate(t, gitLog, grep).status == LikelyComplete <==>
            (t.taskId.Some? && t.taskId.value != [] && gitLog(t.taskId.value).Output? &&
             Strip(gitLog(t.taskId.value).stdout) != [] && !Contains(Strip(gitLog(t.taskId.value).stdout), "ERROR")) ||
            (exists k :: 0 <= k < |Keywords(t.text)| && grep(Keywords(t.text)[k]) == Hit &&
                         forall j :: 0 <= j < k ==> grep(Keywords(t.text)[j]) == Miss)
  {
    CommitEvidence(t.taskId, gitLog);
    ImplementationFoundIff(Keywords(t.text), grep);
  }

  /** Failures fail open: when every query raises, every task stays pending. */
  lemma FailedQueriesLeavePending(t: Task, gitLog: string -> GitOutcome, grep: string -> SearchOutcome)
    requires forall id :: gitLog(id).Raised?
    requires forall kw :: grep(kw) == Failed
    ensures Validate(t, gitLog, grep).status == Pending
  {
    CommitEvidence(t.taskId, gitLog);
    ImplementationFoundIff(Keywords(t.text), grep);
  }

  /** The results of validating each task in turn. */
  function ValidateAll(tasks: seq<Task>, gitLog: string -> GitOutcome, grep: string -> SearchOutcome)
    : seq<Validation>
  {
    seq(|tasks|, i requires 0 <= i < |tasks| => Validate(tasks[i], gitLog, grep))
  }

  /** The body of the validation loop of `main`: the log is queried (queried) only for a task
      with an identifier, the source search always runs. */
  method ValidateTask(task: Task, gitLog: string -> GitOutcome, grep: string -> SearchOutcome)
    returns (v: Validation, queried: bool)
    ensures v == Validate(task, gitLog, grep)
    ensures queried <==> task.taskId.Some? && task.taskId.value != []
  {
    var hasCommit := false;
    queried := false;
    if task.taskId.Some? && task.taskId.value != [] {
      hasCommit := HasCommit(task.taskId, gitLog);
      queried := true;
    }
    var code, _ := CheckCodeExists(task.text, grep);
    var status := if hasCommit || code.hasImplementation || code.hasTests || code.hasConfig
                  then LikelyComplete else Pending;
    v := Validation(task, hasCommit, code, status);
  }

  /** The validation loop of `main`: one result per task, in order. */
  method ValidateTasks(tasks: seq<Task>, gitLog: string -> GitOutcome, grep: string -> SearchOutcome)
    returns (results: seq<Validation>)
    ensures results == ValidateAll(tasks, gitLog, grep)
  {
    results := [];
    ghost var all := ValidateAll(tasks, gitLog, grep);
    for i := 0 to |tasks|
      invariant |results| == i
      invariant forall k :: 0 <= k < i ==> results[k] == all[k]
    {
      var v, _ := ValidateTask(tasks[i], gitLog, grep);
      results := results + [v];
    }
  }

  // ---- Collecting the tasks of all files ---------------------------------------------

  function AllTasks(files: seq<MarkdownFile>): seq<Task>
    decreases |files|
  {
    if files == [] then [] else AllTasks(files[..|files| - 1]) + TasksOfFile(files[|files| - 1])
  }

  /** A task of a file carries that file's path and a line number of 1 or more. */
  lemma TaskOfFile(f: MarkdownFile, t: Task)
    requires t in TasksOfFile(f)
    ensures t.line >= 1 && t.file == f.path
  {
    var r := Extracted(f.path, f.contents.value);
    var j :| 0 <= j < |r| && r[j] == t;
    ExtractedSound(f.path, f.contents.value, j);
  }

  /** Every collected task comes from a line of a scanned file and carries a line number of 1 or more. */
  lemma {:induction false} AllTasksFromFiles(files: seq<MarkdownFile>, t: Task)
    requires t in AllTasks(files)
    decreases |files|
    ensures t.line >= 1 && exists k :: 0 <= k < |files| && t in TasksOfFile(files[k]) && t.file == files[k].path
  {
    var n := |files| - 1;
    if t in AllTasks(files[..n]) {
      AllTasksFromFiles(files[..n], t);
      var k :| 0 <= k < n && t in TasksOfFile(files[..n][k]) && t.file == files[..n][k].path;
      assert files[..n][k] == files[k];
    } else {
      TaskOfFile(files[n], t);
    }
  }

  /** The scanning loop of `main`: the tasks of every file, file after file. */
  method CollectTasks(files: seq<MarkdownFile>) returns (all: seq<Task>)
    ensures all == AllTasks(files)
  {
    all := [];
    for i := 0 to |files|
      invariant all == AllTasks(files[..i])
    {
      assert files[..i + 1][..i] == files[..i];
      var tasks := ExtractUncheckedTasks(files[i]);
      all := all + tasks;
    }
    assert files[..|files|] == files;
  }
}
