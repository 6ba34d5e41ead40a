/**
 Task identifiers (`extract_task_id`). Five patterns are tried in a fixed order,
 each searched case-insensitively for its leftmost match; the first pattern that
 matches anywhere in the text wins and its match is returned upper-cased:

   1. `\b(T-\w+-\d+)\b`    2. `\b(H-\d+)\b`    3. `\b(SF-\d+)\b`
   4. `\b(TASK-\d+)\b`     5. `\b(#[A-Z]+-\d+)\b`

 MatchAt is a hand-written matcher for one pattern at one position; Matches is
 the language of the pattern stated declaratively, and MatchAtIff proves the
 two agree.
 */
module TaskIds {
  import opened Text

  datatype Pattern =
    | TwoPart                 // T-\w+-\d+
    | Prefixed(word: string)  // H-\d+, SF-\d+, TASK-\d+
    | Hashed                  // #[A-Z]+-\d+

  const Patterns: seq<Pattern> := [TwoPart, Prefixed("H"), Prefixed("SF"), Prefixed("TASK"), Hashed]

  /** `\d+\b` from p: the end of the digit run, if it is non-empty and a word boundary follows. */
  function DigitsEnd(s: string, p: nat): (r: Option<nat>)
    requires p <= |s|
    ensures r.Some? ==> p < r.value <= |s|
  {
    var e := SpanEnd(s, p, Digit);
    if p < e && Boundary(s, e) then Some(e) else None
  }

  /** `<class k>+-\d+\b` from p: a non-empty run of class k, a hyphen, then digits. */
  function RunDashDigits(s: string, p: nat, k: CharClass): (r: Option<nat>)
    requires p <= |s|
    ensures r.Some? ==> p < r.value <= |s|
  {
    var m := SpanEnd(s, p, k);
    if p < m < |s| && s[m] == '-' then DigitsEnd(s, m + 1) else None
  }

  /** The end of the match of pat that starts at position i, if there is one. */
  function MatchAt(pat: Pattern, s: string, i: nat): (r: Option<nat>)
    requires i <= |s|
    ensures r.Some? ==> i < r.value <= |s|
  {
    if !Boundary(s, i) then None
    else match pat
      case TwoPart =>
        if FoldAt(s, i, "T-") then RunDashDigits(s, i + 2, Word) else None
      case Prefixed(w) =>
        if FoldAt(s, i, w + "-") then DigitsEnd(s, i + |w| + 1) else None
      case Hashed =>
        if i < |s| && s[i] == '#' then RunDashDigits(s, i + 1, Letter) else None
  }

  /** s[p..j] is a non-empty run of class k, a hyphen, then one or more digits. */
  ghost predicate RunDashDigitsSpan(s: string, p: nat, k: CharClass, j: nat) {
    exists m :: p < m && m + 1 < j <= |s| && AllIn(s, p, m, k) && s[m] == '-' && AllIn(s, m + 1, j, Digit)
  }

  /** s[i..j] is a match of pat, word boundaries at both ends included. */
  ghost predicate Matches(pat: Pattern, s: string, i: nat, j: nat) {
    i < j <= |s| && Boundary(s, i) && Boundary(s, j) &&
    match pat
    case TwoPart => FoldAt(s, i, "T-") && RunDashDigitsSpan(s, i + 2, Word, j)
    case Prefixed(w) => i + |w| + 1 < j && FoldAt(s, i, w + "-") && AllIn(s, i + |w| + 1, j, Digit)
    case Hashed => s[i] == '#' && RunDashDigitsSpan(s, i + 1, Letter, j)
  }

  lemma DigitsEndIff(s: string, p: nat, j: nat)
    requires p <= |s|
    ensures DigitsEnd(s, p) == Some(j) <==> p < j <= |s| && AllIn(s, p, j, Digit) && Boundary(s, j)
  {
    if p < j <= |s| && AllIn(s, p, j, Digit) && Boundary(s, j) {
      assert IsWordChar(s[j - 1]);
      SpanEndUnique(s, p, j, Digit);
    }
  }

  lemma RunDashDigitsIff(s: string, p: nat, k: CharClass, j: nat)
    requires p <= |s|
    ensures RunDashDigits(s, p, k) == Some(j) <==> RunDashDigitsSpan(s, p, k, j) && Boundary(s, j)
  {
    if RunDashDigitsSpan(s, p, k, j) && Boundary(s, j) {
      var m :| p < m && m + 1 < j <= |s| && AllIn(s, p, m, k) && s[m] == '-' && AllIn(s, m + 1, j, Digit);
      assert !InClass(s[m], k) by { assert s[m] == '-'; }
      SpanEndUnique(s, p, m, k);
      DigitsEndIff(s, m + 1, j);
    }
    if RunDashDigits(s, p, k) == Some(j) {
      var m := SpanEnd(s, p, k);
      DigitsEndIff(s, m + 1, j);
      assert AllIn(s, m + 1, j, Digit);
    }
  }

  /** The matcher finds exactly the matches of the pattern's language; in particular a match
      starting at i is unique, so it is the one a backtracking regex engine reports. */
  lemma MatchAtIff(pat: Pattern, s: string, i: nat, j: nat)
    requires i <= |s|
    ensures MatchAt(pat, s, i) == Some(j) <==> Matches(pat, s, i, j)
  {
    if Boundary(s, i) {
      match pat
      case TwoPart =>
        if FoldAt(s, i, "T-") { RunDashDigitsIff(s, i + 2, Word, j); }
      case Prefixed(w) =>
        if FoldAt(s, i, w + "-") {
          DigitsEndIff(s, i + |w| + 1, j);
        }
      case Hashed =>
        if i < |s| && s[i] == '#' { RunDashDigitsIff(s, i + 1, Letter, j); }
    }
  }

  /** `re.search` from position from: the leftmost start with a match, and that match. */
  function SearchFrom(pat: Pattern, s: string, from: nat): (r: Option<(nat, nat)>)
    requires from <= |s|
    decreases |s| - from
    ensures r.Some? ==> from <= r.value.0 < r.value.1 <= |s| && MatchAt(pat, s, r.value.0) == Some(r.value.1)
    ensures r.Some? ==> forall i :: from <= i < r.value.0 ==> MatchAt(pat, s, i).None?
    ensures r.None? ==> forall i :: from <= i <= |s| ==> MatchAt(pat, s, i).None?
  {
    match MatchAt(pat, s, from)
    case Some(j) => Some((from, j))
    case None => if from == |s| then None else SearchFrom(pat, s, from + 1)
  }

  function Search(pat: Pattern, s: string): (r: Option<(nat, nat)>)
    ensures r.Some? ==> r.value.0 < r.value.1 <= |s|
  {
    SearchFrom(pat, s, 0)
  }

  /** Search returns the leftmost match of the pattern's language, and finds one whenever one exists. */
  lemma SearchIsLeftmostMatch(pat: Pattern, s: string)
    ensures Search(pat, s).Some? ==> Matches(pat, s, Search(pat, s).value.0, Search(pat, s).value.1)
    ensures forall i, j :: Matches(pat, s, i, j) ==> Search(pat, s).Some? && Search(pat, s).value.0 <= i
  {
    var r := Search(pat, s);
    if r.Some? {
      MatchAtIff(pat, s, r.value.0, r.value.1);
    }
    forall i: nat, j: nat | Matches(pat, s, i, j)
      ensures r.Some? && r.value.0 <= i
    {
      MatchAtIff(pat, s, i, j);
    }
  }

  /** `match.group(1).upper()` of the leftmost match, if any. */
  function Found(pat: Pattern, s: string): Option<string> {
    match Search(pat, s)
    case None => None
    case Some((i, j)) => Some(Upper(s[i..j]))
  }

  /** The first pattern of pats that is found anywhere in s decides the identifier. */
  function FirstFound(pats: seq<Pattern>, s: string): Option<string> {
    if pats == [] then None
    else match Found(pats[0], s)
      case Some(id) => Some(id)
      case None => FirstFound(pats[1..], s)
  }

  /** `extract_task_id` */
  function ExtractTaskId(s: string): Option<string> {
    FirstFound(Patterns, s)
  }

  /** The pattern that produced an identifier: it finds the identifier and no earlier pattern
      finds anything. */
  lemma {:induction false} FirstFoundSome(pats: seq<Pattern>, s: string, id: string) returns (k: nat)
    requires FirstFound(pats, s) == Some(id)
    ensures k < |pats| && Found(pats[k], s) == Some(id)
    ensures forall k' :: 0 <= k' < k ==> Found(pats[k'], s).None?
  {
    if Found(pats[0], s).None? {
      assert FirstFound(pats[1..], s) == Some(id);
      var k1 := FirstFoundSome(pats[1..], s, id);
      k := k1 + 1;
      assert pats[k] == pats[1..][k1];
      forall k' | 0 <= k' < k ensures Found(pats[k'], s).None? {
        if k' > 0 { assert pats[k'] == pats[1..][k' - 1]; }
      }
    } else {
      k := 0;
    }
  }

  lemma {:induction false} FirstFoundAt(pats: seq<Pattern>, s: string, k: nat)
    requires k < |pats| && Found(pats[k], s).Some?
    requires forall k' :: 0 <= k' < k ==> Found(pats[k'], s).None?
    ensures FirstFound(pats, s) == Found(pats[k], s)
  {
    if k > 0 {
      assert Found(pats[0], s).None?;
      forall k' | 0 <= k' < k - 1 ensures Found(pats[1..][k'], s).None? {
        assert pats[1..][k'] == pats[k' + 1];
      }
      assert pats[1..][k - 1] == pats[k];
      FirstFoundAt(pats[1..], s, k - 1);
    }
  }

  lemma {:induction false} FirstFoundNone(pats: seq<Pattern>, s: string)
    ensures FirstFound(pats, s).None? <==> forall k :: 0 <= k < |pats| ==> Found(pats[k], s).None?
  {
    if pats != [] {
      FirstFoundNone(pats[1..], s);
      if FirstFound(pats, s).None? {
        forall k | 0 <= k < |pats| ensures Found(pats[k], s).None? {
          if k > 0 { assert pats[k] == pats[1..][k - 1]; }
        }
      }
      if forall k :: 0 <= k < |pats| ==> Found(pats[k], s).None? {
        forall k | 0 <= k < |pats[1..]| ensures Found(pats[1..][k], s).None? {
          assert pats[1..][k] == pats[k + 1];
        }
      }
    }
  }

  /** Pattern order, not position in the text, decides: the result is what the first pattern
      that matches at all finds, and there is no identifier exactly when no pattern matches. */
  lemma FirstFoundIff(pats: seq<Pattern>, s: string, id: string)
    ensures FirstFound(pats, s) == Some(id) <==>
            exists k :: 0 <= k < |pats| && Found(pats[k], s) == Some(id) &&
                        forall k' :: 0 <= k' < k ==> Found(pats[k'], s).None?
    ensures FirstFound(pats, s).None? <==> forall k :: 0 <= k < |pats| ==> Found(pats[k], s).None?
  {
    if FirstFound(pats, s) == Some(id) {
      var k := FirstFoundSome(pats, s, id);
    }
    if exists k :: 0 <= k < |pats| && Found(pats[k], s) == Some(id) &&
                   forall k' :: 0 <= k' < k ==> Found(pats[k'], s).None? {
      var k :| 0 <= k < |pats| && Found(pats[k], s) == Some(id) &&
               forall k' :: 0 <= k' < k ==> Found(pats[k'], s).None?;
      FirstFoundAt(pats, s, k);
    }
    FirstFoundNone(pats, s);
  }

  /** Every identifier is upper case and at least three characters long (the shortest is `H-0`). */
  lemma TaskIdShape(s: string, id: string)
    requires ExtractTaskId(s) == Some(id)
    ensures 3 <= |id| && forall c :: c in id ==> !('a' <= c <= 'z')
  {
    var k := FirstFoundSome(Patterns, s, id);
    var r := Search(Patterns[k], s);
    var i, j := r.value.0, r.value.1;
    SearchIsLeftmostMatch(Patterns[k], s);
    assert Matches(Patterns[k], s, i, j);
    assert id == Upper(s[i..j]);
    UpperShape(s[i..j]);
  }

  // ---- Case-insensitivity -------------------------------------------------------------

  /** Two characters with the same upper-case form are in the same classes. */
  lemma SameFoldSameClass(c: char, d: char)
    requires UpperChar(c) == UpperChar(d)
    ensures IsWordChar(c) == IsWordChar(d)
    ensures forall k :: InClass(c, k) == InClass(d, k)
    ensures c == '-' <==> d == '-'
    ensures c == '#' <==> d == '#'
  {
  }

  /** s and t agree up to case: same length, and the same upper-case form at every position. */
  ghost predicate SameFold(s: string, t: string)
    decreases |s|
  {
    |s| == |t| && (s == [] || (UpperChar(s[0]) == UpperChar(t[0]) && SameFold(s[1..], t[1..])))
  }

  /** SameFold is position-wise agreement of the upper-case forms. */
  lemma {:induction false} SameFoldIff(s: string, t: string)
    decreases |s|
    ensures SameFold(s, t) <==> |s| == |t| && forall p :: 0 <= p < |s| ==> UpperChar(s[p]) == UpperChar(t[p])
  {
    if s != [] && |s| == |t| {
      SameFoldIff(s[1..], t[1..]);
      if forall p :: 0 <= p < |s| ==> UpperChar(s[p]) == UpperChar(t[p]) {
        forall p | 0 <= p < |s| - 1 ensures UpperChar(s[1..][p]) == UpperChar(t[1..][p]) {
          assert s[1..][p] == s[p + 1] && t[1..][p] == t[p + 1];
        }
      }
      if SameFold(s, t) {
        forall p | 0 <= p < |s| ensures UpperChar(s[p]) == UpperChar(t[p]) {
          if p > 0 { assert s[p] == s[1..][p - 1] && t[p] == t[1..][p - 1]; }
        }
      }
    }
  }

  lemma {:induction false} SameFoldChar(s: string, t: string, p: nat)
    requires SameFold(s, t) && p < |s|
    decreases p
    ensures p < |t| && UpperChar(s[p]) == UpperChar(t[p])
  {
    if p > 0 {
      SameFoldChar(s[1..], t[1..], p - 1);
    }
  }

  lemma SameFoldAt(s: string, t: string, p: nat)
    requires SameFold(s, t) && p < |s|
    ensures p < |t|
    ensures IsWordChar(s[p]) == IsWordChar(t[p])
    ensures forall k :: InClass(s[p], k) == InClass(t[p], k)
    ensures s[p] == '-' <==> t[p] == '-'
    ensures s[p] == '#' <==> t[p] == '#'
  {
    SameFoldChar(s, t, p);
    SameFoldSameClass(s[p], t[p]);
  }

  /** Case-folded slices of texts that agree up to case are equal. */
  lemma SameFoldUpperSlice(s: string, t: string, a: nat, b: nat)
    requires SameFold(s, t) && a <= b <= |s|
    ensures b <= |t| && Upper(s[a..b]) == Upper(t[a..b])
  {
    forall q | a <= q < b ensures UpperChar(s[q]) == UpperChar(t[q]) {
      SameFoldChar(s, t, q);
    }
  }

  lemma SpanEndIgnoresCase(s: string, t: string, p: nat, k: CharClass)
    requires SameFold(s, t) && p <= |s|
    ensures SpanEnd(s, p, k) == SpanEnd(t, p, k)
  {
    var e := SpanEnd(s, p, k);
    forall q | p <= q < e ensures InClass(t[q], k) {
      SameFoldAt(s, t, q);
    }
    if e < |s| {
      SameFoldAt(s, t, e);
    }
    SpanEndUnique(t, p, e, k);
  }

  lemma BoundaryIgnoresCase(s: string, t: string, p: nat)
    requires SameFold(s, t) && p <= |s|
    ensures Boundary(s, p) == Boundary(t, p)
  {
    assert |t| == |s|;
    if 0 < p { SameFoldAt(s, t, p - 1); }
    if p < |s| { SameFoldAt(s, t, p); }
  }

  lemma FoldAtIgnoresCase(s: string, t: string, i: nat, lit: string)
    requires SameFold(s, t)
    ensures FoldAt(s, i, lit) == FoldAt(t, i, lit)
  {
    if i + |lit| <= |s| {
      SameFoldUpperSlice(s, t, i, i + |lit|);
    }
  }

  lemma DigitsEndIgnoresCase(s: string, t: string, p: nat)
    requires SameFold(s, t) && p <= |s|
    ensures DigitsEnd(s, p) == DigitsEnd(t, p)
  {
    SpanEndIgnoresCase(s, t, p, Digit);
    BoundaryIgnoresCase(s, t, SpanEnd(s, p, Digit));
  }

  /** RunDashDigits looks only at the run's end, the character there and the digits after it. */
  lemma RunDashDigitsAgree(s: string, t: string, p: nat, k: CharClass)
    requires p <= |s| == |t|
    requires SpanEnd(s, p, k) == SpanEnd(t, p, k)
    requires SpanEnd(s, p, k) < |s| ==> (s[SpanEnd(s, p, k)] == '-') == (t[SpanEnd(s, p, k)] == '-')
    requires SpanEnd(s, p, k) < |s| ==> DigitsEnd(s, SpanEnd(s, p, k) + 1) == DigitsEnd(t, SpanEnd(s, p, k) + 1)
    ensures RunDashDigits(s, p, k) == RunDashDigits(t, p, k)
  {
  }

  lemma RunDashDigitsIgnoresCase(s: string, t: string, p: nat, k: CharClass)
    requires SameFold(s, t) && p <= |s|
    ensures RunDashDigits(s, p, k) == RunDashDigits(t, p, k)
  {
    SpanEndIgnoresCase(s, t, p, k);
    var m := SpanEnd(s, p, k);
    if m < |s| {
      SameFoldAt(s, t, m);
      DigitsEndIgnoresCase(s, t, m + 1);
    }
    RunDashDigitsAgree(s, t, p, k);
  }

  /** MatchAt depends only on the boundary, the literal prefix and the tail matched after it. */
  lemma MatchAtAgree(pat: Pattern, s: string, t: string, i: nat)
    requires i <= |s| == |t| && Boundary(s, i) == Boundary(t, i)
    requires pat.TwoPart? ==>
               FoldAt(s, i, "T-") == FoldAt(t, i, "T-") &&
               (FoldAt(s, i, "T-") ==> RunDashDigits(s, i + 2, Word) == RunDashDigits(t, i + 2, Word))
    requires pat.Prefixed? ==>
               FoldAt(s, i, pat.word + "-") == FoldAt(t, i, pat.word + "-") &&
               (FoldAt(s, i, pat.word + "-") ==>
                  DigitsEnd(s, i + |pat.word| + 1) == DigitsEnd(t, i + |pat.word| + 1))
    requires pat.Hashed? && i < |s| ==>
               (s[i] == '#') == (t[i] == '#') &&
               (s[i] == '#' ==> RunDashDigits(s, i + 1, Letter) == RunDashDigits(t, i + 1, Letter))
    ensures MatchAt(pat, s, i) == MatchAt(pat, t, i)
  {
  }

  lemma MatchAtIgnoresCase(pat: Pattern, s: string, t: string, i: nat)
    requires SameFold(s, t) && i <= |s|
    ensures MatchAt(pat, s, i) == MatchAt(pat, t, i)
  {
    BoundaryIgnoresCase(s, t, i);
    match pat {
      case TwoPart =>
        FoldAtIgnoresCase(s, t, i, "T-");
        if FoldAt(s, i, "T-") {
          RunDashDigitsIgnoresCase(s, t, i + 2, Word);
        }
      case Prefixed(w) =>
        FoldAtIgnoresCase(s, t, i, w + "-");
        if FoldAt(s, i, w + "-") {
          DigitsEndIgnoresCase(s, t, i + |w| + 1);
        }
      case Hashed =>
        if i < |s| {
          SameFoldAt(s, t, i);
          if s[i] == '#' {
            RunDashDigitsIgnoresCase(s, t, i + 1, Letter);
          }
        }
    }
    MatchAtAgree(pat, s, t, i);
  }

  lemma {:induction false} SearchFromIgnoresCase(pat: Pattern, s: string, t: string, from: nat)
    requires SameFold(s, t) && from <= |s|
    decreases |s| - from
    ensures SearchFrom(pat, s, from) == SearchFrom(pat, t, from)
  {
    MatchAtIgnoresCase(pat, s, t, from);
    if from < |s| {
      SearchFromIgnoresCase(pat, s, t, from + 1);
    }
  }

  lemma {:induction false} FirstFoundIgnoresCase(pats: seq<Pattern>, s: string, t: string)
    requires SameFold(s, t)
    ensures FirstFound(pats, s) == FirstFound(pats, t)
  {
    if pats != [] {
      SearchFromIgnoresCase(pats[0], s, t, 0);
      var r := Search(pats[0], s);
      if r.Some? {
        SameFoldUpperSlice(s, t, r.value.0, r.value.1);
      }
      FirstFoundIgnoresCase(pats[1..], s, t);
    }
  }

  /** Matching is case-insensitive: texts that agree up to case yield the same identifier. */
  lemma ExtractTaskIdIgnoresCase(s: string, t: string)
    requires SameFold(s, t)
    ensures ExtractTaskId(s) == ExtractTaskId(t)
  {
    FirstFoundIgnoresCase(Patterns, s, t);
  }

  /** In particular, lower-casing the text first changes nothing. */
  lemma ExtractTaskIdOfLower(s: string)
    ensures ExtractTaskId(Lower(s)) == ExtractTaskId(s)
  {
    SameFoldIff(Lower(s), s);
    ExtractTaskIdIgnoresCase(Lower(s), s);
  }
}

/** Worked identifiers, each derived from the definitions above. */
module TaskIdExamples {
  import opened Text
  import opened TaskIds

  lemma FoundFirstAt(pat: Pattern, s: string, i: nat, j: nat)
    requires i <= |s| && MatchAt(pat, s, i) == Some(j)
    requires forall i' :: 0 <= i' < i ==> MatchAt(pat, s, i').None?
    ensures Found(pat, s) == Some(Upper(s[i..j]))
  {
    var r := Search(pat, s);
    assert r.Some? && r.value.0 == i;
  }

  lemma NotFound(pat: Pattern, s: string)
    requires forall i :: 0 <= i <= |s| ==> MatchAt(pat, s, i).None?
    ensures Found(pat, s).None?
  {
  }

  lemma NoTwoPartAt(s: string, i: nat)
    requires i < |s| && UpperChar(s[i]) != 'T'
    ensures MatchAt(TwoPart, s, i).None?
  {
    if i + 2 <= |s| {
      assert Upper(s[i..i + 2])[0] == UpperChar(s[i]);
    }
  }

  /** Lower-case input is accepted and the identifier comes back upper-cased. */
  lemma LowerCaseId()
    ensures ExtractTaskId("h-08") == Some("H-08")
  {
    var s := "h-08";
    forall i | 0 <= i <= |s| ensures MatchAt(TwoPart, s, i).None? {
      assert i == 0 || i == 1 || i == 2 || i == 3 || i == 4;
    }
    NotFound(TwoPart, s);
    FoundFirstAt(Prefixed("H"), s, 0, 4);
    assert Upper(s[0..4]) == "H-08";
  }

  /** `T-\w+-\d+` needs a second hyphen: `T-SF03` yields no identifier at all. */
  lemma SingleHyphenTwoPartIsNotAnId()
    ensures ExtractTaskId("T-SF03") == None
  {
    var s := "T-SF03";
    forall k, i | 0 <= k < |Patterns| && 0 <= i <= |s| ensures MatchAt(Patterns[k], s, i).None? {
      assert k == 0 || k == 1 || k == 2 || k == 3 || k == 4;
      assert i == 0 || i == 1 || i == 2 || i == 3 || i == 4 || i == 5 || i == 6;
      assert Upper(s[2..5])[2] == '0';
    }
    forall k | 0 <= k < |Patterns| ensures Found(Patterns[k], s).None? {
      NotFound(Patterns[k], s);
    }
    FirstFoundIff(Patterns, s, []);
  }

  /** The earlier pattern wins even though a later one matches earlier in the text. */
  lemma PatternOrderBeatsPosition()
    ensures ExtractTaskId("H-1 T-A-2") == Some("T-A-2")
  {
    var s := "H-1 T-A-2";
    forall i | 0 <= i < 4 ensures MatchAt(TwoPart, s, i).None? {
      assert s[i] != 'T' && s[i] != 't' by { assert i == 0 || i == 1 || i == 2 || i == 3; }
      NoTwoPartAt(s, i);
    }
    assert MatchAt(TwoPart, s, 4) == Some(9);
    FoundFirstAt(TwoPart, s, 4, 9);
    assert Upper(s[4..9]) == "T-A-2";
    FirstFoundAt(Patterns, s, 0);
  }

  /** None of the first three patterns occurs in ` #TASK-7`. */
  lemma HashTextEarlyPatterns()
    ensures forall k :: 0 <= k < 3 ==> Found(Patterns[k], " #TASK-7").None?
  {
    var s := " #TASK-7";
    forall k, i | 0 <= k < 3 && 0 <= i <= |s| ensures MatchAt(Patterns[k], s, i).None? {
      assert k == 0 || k == 1 || k == 2;
      assert i == 0 || i == 1 || i == 2 || i == 3 || i == 4 || i == 5 || i == 6 || i == 7 || i == 8;
      assert Upper(s[2..4])[1] == 'A';
    }
    forall k | 0 <= k < 3 ensures Found(Patterns[k], s).None? {
      NotFound(Patterns[k], s);
    }
  }

  /** After a space, `#TASK-7` is found by `TASK-\d+`: `\b` cannot sit between a space and `#`. */
  lemma HashAfterSpaceLosesHash()
    ensures ExtractTaskId(" #TASK-7") == Some("TASK-7")
  {
    var s := " #TASK-7";
    HashTextEarlyPatterns();
    forall i | 0 <= i < 2 ensures MatchAt(Patterns[3], s, i).None? {
      assert i == 0 || i == 1;
    }
    assert MatchAt(Patterns[3], s, 2) == Some(8);
    FoundFirstAt(Patterns[3], s, 2, 8);
    assert Upper(s[2..8]) == "TASK-7";
    FirstFoundAt(Patterns, s, 3);
  }
}
