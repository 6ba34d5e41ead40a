/**
 The string primitives the task scripts rely on, for ASCII text: the character
 classes of Python's regular expressions (`\s`, `\d`, `\w`, `[a-zA-Z]`), the
 word boundary `\b`, case mapping, substring search (`in`) and `str.strip()`.
 */
module Text {

  datatype Option<T> = None | Some(value: T)

  /** Python's `\s` and `str.isspace()` restricted to ASCII: space, \t \n \v \f \r and \x1c-\x1f. */
  predicate IsSpace(c: char) {
    c == ' ' || 9 <= c as int <= 13 || 28 <= c as int <= 31
  }

  predicate IsDigit(c: char) { '0' <= c <= '9' }

  predicate IsLetter(c: char) { 'a' <= c <= 'z' || 'A' <= c <= 'Z' }

  /** `\w` on ASCII text */
  predicate IsWordChar(c: char) { IsLetter(c) || IsDigit(c) || c == '_' }

  datatype CharClass = Space | Digit | Letter | Word

  predicate InClass(c: char, k: CharClass) {
    match k
    case Space => IsSpace(c)
    case Digit => IsDigit(c)
    case Letter => IsLetter(c)
    case Word => IsWordChar(c)
  }

  function LowerChar(c: char): char {
    if 'A' <= c <= 'Z' then (c as int + 32) as char else c
  }

  function UpperChar(c: char): char {
    if 'a' <= c <= 'z' then (c as int - 32) as char else c
  }

  /** `str.lower()` */
  function Lower(s: string): (r: string)
    ensures |r| == |s| && forall i :: 0 <= i < |s| ==> r[i] == LowerChar(s[i])
  {
    seq(|s|, i requires 0 <= i < |s| => LowerChar(s[i]))
  }

  /** `str.upper()` */
  function Upper(s: string): (r: string)
    ensures |r| == |s| && forall i :: 0 <= i < |s| ==> r[i] == UpperChar(s[i])
  {
    seq(|s|, i requires 0 <= i < |s| => UpperChar(s[i]))
  }

  /** Lower-casing leaves no upper-case letter and changes letters only in case: upper-casing
      afterwards gives what upper-casing the original gives. */
  lemma LowerShape(s: string)
    ensures forall c :: c in Lower(s) ==> !('A' <= c <= 'Z')
    ensures Upper(Lower(s)) == Upper(s)
  {
    forall c | c in Lower(s) ensures !('A' <= c <= 'Z') {
      var i :| 0 <= i < |Lower(s)| && Lower(s)[i] == c;
      assert c == LowerChar(s[i]);
    }
    assert forall i :: 0 <= i < |s| ==> Upper(Lower(s))[i] == Upper(s)[i];
  }

  /** Upper-casing leaves no lower-case letter and changes letters only in case: lower-casing
      afterwards gives what lower-casing the original gives. */
  lemma UpperShape(s: string)
    ensures forall c :: c in Upper(s) ==> !('a' <= c <= 'z')
    ensures Lower(Upper(s)) == Lower(s)
  {
    forall c | c in Upper(s) ensures !('a' <= c <= 'z') {
      var i :| 0 <= i < |Upper(s)| && Upper(s)[i] == c;
      assert c == UpperChar(s[i]);
    }
    assert forall i :: 0 <= i < |s| ==> Lower(Upper(s))[i] == Lower(s)[i];
  }

  /** Every character of s[lo..hi] belongs to class k. */
  predicate AllIn(s: string, lo: int, hi: int, k: CharClass)
    requires 0 <= lo <= hi <= |s|
  {
    forall j :: lo <= j < hi ==> InClass(s[j], k)
  }

  /** The regular-expression word boundary `\b` at position p (between s[p-1] and s[p]). */
  predicate Boundary(s: string, p: int)
    requires 0 <= p <= |s|
  {
    (0 < p && IsWordChar(s[p - 1])) != (p < |s| && IsWordChar(s[p]))
  }

  /** s[i..] starts with the literal lit, compared case-insensitively (lit is upper case). */
  predicate FoldAt(s: string, i: nat, lit: string) {
    i + |lit| <= |s| && Upper(s[i..i + |lit|]) == lit
  }

  predicate OccursAt(s: string, t: string, i: int) {
    0 <= i && i + |t| <= |s| && s[i..i + |t|] == t
  }

  /** The first occurrence of t in s at or after position from. */
  function IndexFrom(s: string, t: string, from: nat): (r: Option<nat>)
    decreases |s| - from
    ensures r.Some? ==> from <= r.value && OccursAt(s, t, r.value)
    ensures r.Some? ==> forall j :: from <= j < r.value ==> !OccursAt(s, t, j)
    ensures r.None? ==> forall j :: from <= j ==> !OccursAt(s, t, j)
  {
    if from + |t| > |s| then None
    else if s[from..from + |t|] == t then Some(from)
    else IndexFrom(s, t, from + 1)
  }

  /** `s.find(t)`, as an option */
  function IndexOf(s: string, t: string): (r: Option<nat>)
    ensures r.Some? ==> OccursAt(s, t, r.value) && forall j :: 0 <= j < r.value ==> !OccursAt(s, t, j)
    ensures r.None? ==> forall j :: !OccursAt(s, t, j)
  {
    IndexFrom(s, t, 0)
  }

  /** Python's `t in s` */
  predicate Contains(s: string, t: string) {
    exists j | 0 <= j <= |s| :: OccursAt(s, t, j)
  }

  /** `t in s` holds exactly when `s.find(t)` finds something. */
  lemma ContainsIndexOf(s: string, t: string)
    ensures Contains(s, t) <==> IndexOf(s, t).Some?
  {
    if IndexOf(s, t).Some? {
      assert OccursAt(s, t, IndexOf(s, t).value);
    }
  }

  /** The end of the longest run of class-k characters that starts at from. */
  function SpanEnd(s: string, from: nat, k: CharClass): (e: nat)
    requires from <= |s|
    decreases |s| - from
    ensures from <= e <= |s|
    ensures forall j :: from <= j < e ==> InClass(s[j], k)
    ensures e == |s| || !InClass(s[e], k)
  {
    if from == |s| || !InClass(s[from], k) then from else SpanEnd(s, from + 1, k)
  }

  /** A run of class-k characters ending where it cannot be extended is the one SpanEnd finds. */
  lemma SpanEndUnique(s: string, from: nat, e: nat, k: CharClass)
    requires from <= e <= |s|
    requires AllIn(s, from, e, k)
    requires e == |s| || !InClass(s[e], k)
    ensures SpanEnd(s, from, k) == e
  {
  }

  /** s is r with whitespace only before and after it: r starts at a. */
  predicate TrimmedAt(s: string, r: string, a: int) {
    0 <= a && a + |r| <= |s| && s[a..a + |r|] == r && AllIn(s, 0, a, Space) && AllIn(s, a + |r|, |s|, Space)
  }

  /** `str.strip()`: what is left after removing leading and trailing whitespace. The result
      is a slice of s with only whitespace around it (StripTrimmed) and none at its ends, which
      fixes it (StripExact). */
  function Strip(s: string): (r: string)
    decreases |s|
    ensures |r| <= |s|
    ensures r != [] ==> !IsSpace(r[0]) && !IsSpace(r[|r| - 1])
  {
    if s != [] && IsSpace(s[0]) then Strip(s[1..])
    else if s != [] && IsSpace(s[|s| - 1]) then Strip(s[..|s| - 1])
    else s
  }

  /** What Strip leaves is a slice of s with only whitespace before and after it. */
  lemma {:induction false} StripTrimmed(s: string)
    decreases |s|
    ensures exists a :: TrimmedAt(s, Strip(s), a)
  {
    if s != [] && IsSpace(s[0]) {
      StripTrimmed(s[1..]);
      TrimmedFront(s, s[1..], Strip(s));
    } else if s != [] && IsSpace(s[|s| - 1]) {
      StripTrimmed(s[..|s| - 1]);
      TrimmedBack(s, s[..|s| - 1], Strip(s));
    } else {
      assert Strip(s) == s;
      assert TrimmedAt(s, Strip(s), 0);
    }
  }

  /** A leading space can be added to the whitespace before the slice. */
  lemma TrimmedFront(s: string, t: string, r: string)
    requires s != [] && IsSpace(s[0]) && t == s[1..] && exists a :: TrimmedAt(t, r, a)
    ensures exists a :: TrimmedAt(s, r, a)
  {
    var a :| TrimmedAt(t, r, a);
    assert s[a + 1..a + 1 + |r|] == t[a..a + |r|];
    assert TrimmedAt(s, r, a + 1);
  }

  /** A trailing space can be added to the whitespace after the slice. */
  lemma TrimmedBack(s: string, t: string, r: string)
    requires s != [] && IsSpace(s[|s| - 1]) && t == s[..|s| - 1] && exists a :: TrimmedAt(t, r, a)
    ensures exists a :: TrimmedAt(s, r, a)
  {
    var a :| TrimmedAt(t, r, a);
    assert s[a..a + |r|] == t[a..a + |r|];
    assert TrimmedAt(s, r, a);
  }

  /** Removing leading and trailing whitespace has one outcome: a slice with only whitespace
      around it and a non-space character at each end, or nothing when s is all whitespace. */
  lemma {:induction false} StripExact(s: string, a: nat, b: nat)
    requires a <= b <= |s| && AllIn(s, 0, a, Space) && AllIn(s, b, |s|, Space)
    requires a < b ==> !IsSpace(s[a]) && !IsSpace(s[b - 1])
    decreases |s|, 1
    ensures Strip(s) == s[a..b]
  {
    if s != [] && IsSpace(s[0]) {
      StripExactFront(s, a, b);
    } else if s != [] && IsSpace(s[|s| - 1]) {
      StripExactBack(s, a, b);
    } else {
      assert s[a..b] == s;
    }
  }

  lemma {:induction false} StripExactFront(s: string, a: nat, b: nat)
    requires a <= b <= |s| && AllIn(s, 0, a, Space) && AllIn(s, b, |s|, Space)
    requires a < b ==> !IsSpace(s[a]) && !IsSpace(s[b - 1])
    requires s != [] && IsSpace(s[0])
    decreases |s|, 0
    ensures Strip(s) == s[a..b]
  {
    var t := s[1..];
    if a > 0 {
      AllInTail(s, 1, a, Space);
      AllInTail(s, b, |s|, Space);
      StripExact(t, a - 1, b - 1);
      assert t[a - 1..b - 1] == s[a..b];
    } else {
      AllInTail(s, 1, |s|, Space);
      StripExact(t, 0, 0);
    }
  }

  lemma AllInTail(s: string, lo: nat, hi: nat, k: CharClass)
    requires 1 <= lo <= hi <= |s| && AllIn(s, lo, hi, k)
    ensures AllIn(s[1..], lo - 1, hi - 1, k)
  {
    forall j | lo - 1 <= j < hi - 1 ensures InClass(s[1..][j], k) {
      assert s[1..][j] == s[j + 1];
    }
  }

  lemma {:induction false} StripExactBack(s: string, a: nat, b: nat)
    requires a <= b <= |s| && AllIn(s, 0, a, Space) && AllIn(s, b, |s|, Space)
    requires a < b ==> !IsSpace(s[a]) && !IsSpace(s[b - 1])
    requires s != [] && !IsSpace(s[0]) && IsSpace(s[|s| - 1])
    decreases |s|, 0
    ensures Strip(s) == s[a..b]
  {
    var t := s[..|s| - 1];
    StripExact(t, a, b);
    assert t[a..b] == s[a..b];
  }
}
