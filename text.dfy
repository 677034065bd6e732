/** Character classes and the few Python `str` operations that the citation
    updater relies on: substring search (`in`), `strip`, `isdigit` and
    `replace(old, new, 1)`, together with the scanning helpers the regular
    expressions need (a run of `\s`, a search that may not cross a newline). */
module Text {

  datatype Option<T> = None | Some(value: T)

  /** Whitespace as Python's `str.isspace`, `str.strip` and the regex class `\s`
      see it, restricted to code points below 128. */
  predicate IsSpace(c: char) {
    c == ' ' || c == '\t' || c == '\n' || c == '\r' || c == '\U{0B}' || c == '\U{0C}'
    || ('\U{1C}' <= c <= '\U{1F}')
  }

  /** A decimal digit, restricted to ASCII. */
  predicate IsDigit(c: char) {
    '0' <= c <= '9'
  }

  /** Python's `str.isdigit()`: non-empty and made of digits only. */
  predicate IsDigitString(s: string) {
    |s| > 0 && forall i :: 0 <= i < |s| ==> IsDigit(s[i])
  }

  /** `isdigit()` accepts a run of digits and rejects the empty string, a
      sign, a separator, a space and a letter. */
  lemma IsDigitStringExamples()
    ensures IsDigitString("0") && IsDigitString("1234")
    ensures !IsDigitString("") && !IsDigitString("-1") && !IsDigitString("1,234")
    ensures !IsDigitString("12 3") && !IsDigitString("12a")
  {
    assert !IsDigit("-1"[0]) && !IsDigit("1,234"[1]) && !IsDigit("12 3"[2]) && !IsDigit("12a"[2]);
  }

  predicate AllSpace(s: string) {
    forall i :: 0 <= i < |s| ==> IsSpace(s[i])
  }

  // ---------------------------------------------------------------------------
  // Substring occurrences and search
  // ---------------------------------------------------------------------------

  /** `w` occurs in `s` starting at index `i`. */
  predicate OccursAt(s: string, w: string, i: int) {
    0 <= i && i + |w| <= |s| && s[i..i + |w|] == w
  }

  lemma OccursTail(s: string, w: string)
    requires |s| > 0
    ensures forall j :: 1 <= j ==> (OccursAt(s, w, j) <==> OccursAt(s[1..], w, j - 1))
  {
    forall j | 1 <= j ensures OccursAt(s, w, j) <==> OccursAt(s[1..], w, j - 1) {
      if j + |w| <= |s| {
        assert s[1..][j - 1..j - 1 + |w|] == s[j..j + |w|];
      }
    }
  }

  /** An occurrence fixes every character it covers. */
  lemma OccursChar(s: string, w: string, j: int, k: int)
    ensures OccursAt(s, w, j) && 0 <= k < |w| ==> s[j + k] == w[k]
  {
    if OccursAt(s, w, j) && 0 <= k < |w| {
      assert s[j..j + |w|][k] == s[j + k];
    }
  }

  /** An occurrence fixes every slice of `w` it covers. */
  lemma OccursPart(s: string, w: string, j: int, lo: int, hi: int)
    requires OccursAt(s, w, j) && 0 <= lo <= hi <= |w|
    ensures s[j + lo..j + hi] == w[lo..hi]
  {
    forall k | 0 <= k < hi - lo ensures s[j + lo..j + hi][k] == w[lo..hi][k] {
      OccursChar(s, w, j, lo + k);
    }
  }

  /** Index of the first occurrence of `w` in `s` (Python's `s.find(w)`,
      with `None` for -1). */
  function Find(s: string, w: string): (r: Option<nat>)
    ensures r.Some? ==> OccursAt(s, w, r.value) && forall j :: 0 <= j < r.value ==> !OccursAt(s, w, j)
    ensures r.None? ==> forall j :: !OccursAt(s, w, j)
  {
    if |s| < |w| then None
    else if s[..|w|] == w then Some(0)
    else
      OccursTail(s, w);
      match Find(s[1..], w)
      case None => None
      case Some(i) => Some(i + 1)
  }

  /** `w` first occurs in `s` at `i`. */
  predicate FirstAt(s: string, w: string, i: int) {
    OccursAt(s, w, i) && forall j :: 0 <= j < i ==> !OccursAt(s, w, j)
  }

  /** Python's `w in s`. */
  predicate Contains(s: string, w: string) {
    Find(s, w).Some?
  }

  /** A text with `w` in the middle contains `w`. */
  lemma ContainsInside(a: string, w: string, b: string)
    ensures Contains(a + (w + b), w)
  {
    assert (a + (w + b))[|a|..|a| + |w|] == w;
    assert OccursAt(a + (w + b), w, |a|);
  }

  lemma FindIs(s: string, w: string, q: nat)
    requires OccursAt(s, w, q)
    requires forall j :: 0 <= j < q ==> !OccursAt(s, w, j)
    ensures Find(s, w) == Some(q)
  {
  }

  lemma FindNone(s: string, w: string)
    requires forall j :: 0 <= j <= |s| - |w| ==> !OccursAt(s, w, j)
    ensures Find(s, w) == None
  {
  }

  /** Occurrences in the second half of a concatenation are those of that half, shifted. */
  lemma OccursAppend(u: string, v: string, w: string)
    ensures forall j :: 0 <= j ==> (OccursAt(u + v, w, |u| + j) <==> OccursAt(v, w, j))
  {
    forall j | 0 <= j ensures OccursAt(u + v, w, |u| + j) <==> OccursAt(v, w, j) {
      if j + |w| <= |v| {
        assert (u + v)[|u| + j..|u| + j + |w|] == v[j..j + |w|];
      }
    }
  }

  /** A prefix in which no occurrence starts does not change where the first one is. */
  lemma FindAppend(u: string, v: string, w: string)
    requires forall j :: 0 <= j < |u| ==> !OccursAt(u + v, w, j)
    ensures Find(u + v, w) == match Find(v, w) case None => None case Some(q) => Some(|u| + q)
  {
    OccursAppend(u, v, w);
    match Find(v, w)
    case None =>
      forall j | 0 <= j <= |u + v| - |w| ensures !OccursAt(u + v, w, j) {
        if j >= |u| {
          assert !OccursAt(v, w, j - |u|);
        }
      }
      FindNone(u + v, w);
    case Some(q) =>
      forall j | 0 <= j < |u| + q ensures !OccursAt(u + v, w, j) {
        if j >= |u| {
          assert !OccursAt(v, w, j - |u|);
        }
      }
      FindIs(u + v, w, |u| + q);
  }

  /** No occurrence can start at a character that is not the first one of `w`. */
  lemma NoStartWithout(u: string, v: string, w: string)
    requires |w| > 0 && w[0] !in u
    ensures forall j :: 0 <= j < |u| ==> !OccursAt(u + v, w, j)
  {
    forall j | 0 <= j < |u| ensures !OccursAt(u + v, w, j) {
      OccursChar(u + v, w, j, 0);
      assert u[j] in u;
    }
  }

  /** No occurrence starts in a tag `u` that differs from `w` at index `k` and
      has no second `<`. */
  lemma NoStartInTag(u: string, v: string, w: string, k: nat)
    requires |w| > k && |u| > k && k >= 1
    requires u[0] == w[0] == '<' && u[k] != w[k] && '<' !in u[1..]
    ensures forall j :: 0 <= j < |u| ==> !OccursAt(u + v, w, j)
  {
    forall j | 0 <= j < |u| ensures !OccursAt(u + v, w, j) {
      OccursChar(u + v, w, j, 0);
      OccursChar(u + v, w, j, k);
      if j > 0 {
        assert u[1..][j - 1] == u[j];
      }
    }
  }

  /** A string lacking one character of `w` does not contain `w`. */
  lemma LacksChar(s: string, w: string, k: nat)
    requires k < |w| && w[k] !in s
    ensures !Contains(s, w)
  {
    forall j | OccursAt(s, w, j) ensures false {
      OccursChar(s, w, j, k);
    }
  }

  /** Occurrences inside a slice are occurrences in the whole string. */
  lemma OccursSlice(s: string, lo: int, hi: int, w: string)
    requires 0 <= lo <= hi <= |s|
    ensures forall j :: OccursAt(s[lo..hi], w, j) ==> OccursAt(s, w, lo + j)
  {
    forall j | 0 <= j && j + |w| <= hi - lo ensures OccursAt(s[lo..hi], w, j) ==> OccursAt(s, w, lo + j) {
      var inner, outer := s[lo..hi][j..j + |w|], s[lo + j..lo + j + |w|];
      assert |inner| == |outer|;
      assert forall k :: 0 <= k < |inner| ==> inner[k] == s[lo + j + k] == outer[k];
      assert inner == outer;
    }
  }

  /** An occurrence in a suffix of `a + b` that ends inside `a` is one in `a`. */
  lemma OccursInFront(a: string, b: string, j: int, i: int, w: string)
    requires 0 <= j <= |a|
    ensures OccursAt((a + b)[j..], w, i) && j + i + |w| <= |a| ==> OccursAt(a, w, j + i)
  {
    if OccursAt((a + b)[j..], w, i) && j + i + |w| <= |a| {
      var inner, outer := (a + b)[j..][i..i + |w|], a[j + i..j + i + |w|];
      assert forall k :: 0 <= k < |w| ==> inner[k] == (a + b)[j + i + k] == outer[k];
      assert inner == outer;
    }
  }

  /** A slice of a string that lacks `w` lacks it too. */
  lemma NotContainsSlice(s: string, lo: int, hi: int, w: string)
    requires 0 <= lo <= hi <= |s|
    requires !Contains(s, w)
    ensures !Contains(s[lo..hi], w)
  {
    OccursSlice(s, lo, hi, w);
  }

  // ---------------------------------------------------------------------------
  // Search that may not cross a newline (a lazy `.*?` without DOTALL)
  // ---------------------------------------------------------------------------

  /** Index of the first occurrence of `w` in `s` that no newline precedes;
      `None` when a newline or the end of `s` comes first. Once a newline
      precedes the first occurrence it precedes every later one too. */
  function FindInLine(s: string, w: string): (r: Option<nat>)
    ensures r.Some? ==> OccursAt(s, w, r.value) && '\n' !in s[..r.value]
                        && forall j :: 0 <= j < r.value ==> !OccursAt(s, w, j)
    ensures r.None? ==> forall j :: OccursAt(s, w, j) ==> '\n' in s[..j]
  {
    match Find(s, w)
    case None => None
    case Some(i) =>
      if '\n' in s[..i] then
        NewlineBeforeLater(s, w, i);
        None
      else Some(i)
  }

  lemma NewlineBeforeLater(s: string, w: string, i: nat)
    requires i <= |s| && '\n' in s[..i]
    requires forall j :: 0 <= j < i ==> !OccursAt(s, w, j)
    ensures forall j :: OccursAt(s, w, j) ==> '\n' in s[..j]
  {
    forall j | OccursAt(s, w, j) ensures '\n' in s[..j] {
      var m :| 0 <= m < i && s[..i][m] == '\n';
      assert s[..j][m] == '\n';
    }
  }

  lemma FindInLineIs(s: string, w: string, q: nat)
    requires OccursAt(s, w, q) && '\n' !in s[..q]
    requires forall j :: 0 <= j < q ==> !OccursAt(s, w, j)
    ensures FindInLine(s, w) == Some(q)
  {
  }

  lemma FindInLineNone(s: string, w: string)
    requires forall j :: OccursAt(s, w, j) ==> '\n' in s[..j]
    ensures FindInLine(s, w) == None
  {
  }

  /** A prefix without a newline in which no occurrence starts does not change
      where the first same-line occurrence is. */
  lemma FindInLineAppend(u: string, v: string, w: string)
    requires '\n' !in u
    requires forall j :: 0 <= j < |u| ==> !OccursAt(u + v, w, j)
    ensures FindInLine(u + v, w) == match FindInLine(v, w) case None => None case Some(q) => Some(|u| + q)
  {
    match FindInLine(v, w)
    case None => InLineAppendNone(u, v, w);
    case Some(q) =>
      FirstInLineShift(u, v, w, q);
      FindInLineIs(u + v, w, |u| + q);
  }

  lemma InLineAppendNone(u: string, v: string, w: string)
    requires forall j :: 0 <= j < |u| ==> !OccursAt(u + v, w, j)
    requires forall j :: OccursAt(v, w, j) ==> '\n' in v[..j]
    ensures FindInLine(u + v, w) == None
  {
    OccursAppend(u, v, w);
    forall j | OccursAt(u + v, w, j) ensures '\n' in (u + v)[..j] {
      assert OccursAt(v, w, j - |u|);
      NewlineShift(u, v, j - |u|);
    }
    FindInLineNone(u + v, w);
  }

  lemma FirstInLineShift(u: string, v: string, w: string, q: nat)
    requires '\n' !in u
    requires forall j :: 0 <= j < |u| ==> !OccursAt(u + v, w, j)
    requires OccursAt(v, w, q) && '\n' !in v[..q]
    requires forall j :: 0 <= j < q ==> !OccursAt(v, w, j)
    ensures OccursAt(u + v, w, |u| + q) && '\n' !in (u + v)[..|u| + q]
    ensures forall j :: 0 <= j < |u| + q ==> !OccursAt(u + v, w, j)
  {
    OccursAppend(u, v, w);
    forall j | 0 <= j < |u| + q ensures !OccursAt(u + v, w, j) {
      if j >= |u| {
        assert !OccursAt(v, w, j - |u|);
      }
    }
    assert (u + v)[..|u| + q] == u + v[..q];
  }

  lemma NewlineShift(u: string, v: string, k: int)
    requires 0 <= k <= |v| && '\n' in v[..k]
    ensures '\n' in (u + v)[..|u| + k]
  {
    var m :| 0 <= m < k && v[..k][m] == '\n';
    assert (u + v)[..|u| + k][|u| + m] == '\n';
  }

  // ---------------------------------------------------------------------------
  // Whitespace runs and strip
  // ---------------------------------------------------------------------------

  /** Length of the longest whitespace prefix of `s` (a greedy `\s*`). */
  function SpaceRun(s: string): (n: nat)
    ensures n <= |s| && AllSpace(s[..n])
    ensures n == |s| || !IsSpace(s[n])
  {
    if s != [] && IsSpace(s[0]) then
      var n := 1 + SpaceRun(s[1..]);
      assert s[..n] == [s[0]] + s[1..][..n - 1];
      n
    else 0
  }

  /** `s` without its trailing whitespace (Python's `rstrip()`). */
  function StripEnd(s: string): (r: string)
    ensures |r| <= |s| && r == s[..|r|]
    ensures AllSpace(s[|r|..])
    ensures r == [] || !IsSpace(r[|r| - 1])
  {
    if s != [] && IsSpace(s[|s| - 1]) then
      var r := StripEnd(s[..|s| - 1]);
      assert s[|r|..] == s[..|s| - 1][|r|..] + [s[|s| - 1]];
      r
    else s
  }

  /** Python's `strip()`: the text after the leading whitespace run, up to a
      whitespace-only tail; it neither starts nor ends with whitespace. */
  function Strip(s: string): (r: string)
    ensures SpaceRun(s) + |r| <= |s| && s[SpaceRun(s)..SpaceRun(s) + |r|] == r
    ensures AllSpace(s[SpaceRun(s) + |r|..])
    ensures r == [] || (!IsSpace(r[0]) && !IsSpace(r[|r| - 1]))
  {
    var t := s[SpaceRun(s)..];
    StripParts(s, t, StripEnd(t), SpaceRun(s));
    StripEnd(t)
  }

  lemma StripParts(s: string, t: string, r: string, i: nat)
    requires i <= |s| && t == s[i..] && (t == [] || !IsSpace(t[0]))
    requires |r| <= |t| && r == t[..|r|] && AllSpace(t[|r|..]) && (r == [] || !IsSpace(r[|r| - 1]))
    ensures i + |r| <= |s| && s[i..i + |r|] == r && AllSpace(s[i + |r|..])
    ensures r == [] || (!IsSpace(r[0]) && !IsSpace(r[|r| - 1]))
  {
    assert s[i..i + |r|] == t[..|r|];
    assert s[i + |r|..] == t[|r|..];
    assert r != [] ==> r[0] == t[0];
  }

  /** The leading whitespace run of `a + x` is `a` when `x` does not start
      with whitespace. */
  lemma {:induction false} SpaceRunOf(a: string, x: string)
    requires AllSpace(a) && (x == [] || !IsSpace(x[0]))
    ensures SpaceRun(a + x) == |a|
    decreases |a|
  {
    if a != [] {
      assert (a + x)[1..] == a[1..] + x;
      SpaceRunOf(a[1..], x);
    } else {
      assert a + x == x;
    }
  }

  /** Trailing whitespace is removed and nothing before it. */
  lemma {:induction false} StripEndOf(x: string, b: string)
    requires AllSpace(b) && (x == [] || !IsSpace(x[|x| - 1]))
    ensures StripEnd(x + b) == x
    decreases |b|
  {
    if b != [] {
      assert (x + b)[..|x + b| - 1] == x + b[..|b| - 1];
      StripEndOf(x, b[..|b| - 1]);
    } else {
      assert x + b == x;
    }
  }

  /** Stripping text padded with whitespace gives the text back. */
  lemma StripAround(a: string, t: string, b: string)
    requires AllSpace(a) && AllSpace(b)
    requires t == [] || (!IsSpace(t[0]) && !IsSpace(t[|t| - 1]))
    ensures Strip(a + t + b) == t
  {
    if t == [] {
      assert a + t + b == a + b;
      StripAllSpace(a + b);
    } else {
      assert a + t + b == a + (t + b);
      SpaceRunOf(a, t + b);
      assert (a + (t + b))[|a|..] == t + b;
      StripEndOf(t, b);
    }
  }

  lemma StripAllSpace(s: string)
    requires AllSpace(s)
    ensures Strip(s) == []
  {
    assert s + [] == s;
    SpaceRunOf(s, []);
    assert s[|s|..] == [];
  }

  // ---------------------------------------------------------------------------
  // Replace the first occurrence
  // ---------------------------------------------------------------------------

  /** Python's `s.replace(target, replacement, 1)`. */
  function ReplaceFirst(s: string, target: string, replacement: string): string
  {
    match Find(s, target)
    case None => s
    case Some(i) => s[..i] + replacement + s[i + |target|..]
  }

  /** Only the first occurrence is replaced; without one the text is kept. */
  lemma ReplaceFirstMeaning(s: string, target: string, replacement: string)
    ensures !Contains(s, target) ==> ReplaceFirst(s, target, replacement) == s
    ensures forall i :: FirstAt(s, target, i) ==>
              ReplaceFirst(s, target, replacement) == s[..i] + replacement + s[i + |target|..]
  {
    forall i | FirstAt(s, target, i)
      ensures ReplaceFirst(s, target, replacement) == s[..i] + replacement + s[i + |target|..]
    {
      FindIs(s, target, i);
    }
  }
}
