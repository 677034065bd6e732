/** The two regular expressions of update_citation_matrix.py and Python's
    `re.sub` over them, written out as scanning functions.

    A match is described by its length at the start of a string; `re.sub`
    tries a match at each position from left to right, replaces it and goes
    on after it, so matches are leftmost and never overlap. */
module Patterns {
  import opened Text

  /** The patterns the updater substitutes over. */
  datatype Pattern =
    | Container   // <div\s+id="citation-matrix">.*?</div>, with DOTALL
    | CountSpan   // (<span id="citation_count">)(.*?)(</span>), without DOTALL

  const DivTag: string := "<div"
  const DivIdAttr: string := "id=\"citation-matrix\">"
  const DivClose: string := "</div>"
  /** The opening tag of the canonical box, `<div id="citation-matrix">`. */
  const DivOpenTag: string := DivTag + " " + DivIdAttr
  const SpanOpen: string := "<span id=\"citation_count\">"
  const SpanClose: string := "</span>"

  /** The characters of the tags that the proofs about where matches start use. */
  lemma TagChars()
    ensures DivTag[0] == '<' && DivTag[1] == 'd' && '<' !in DivTag[1..]
    ensures |DivIdAttr| == 21 && '<' !in DivIdAttr && DivIdAttr[4..19] == "citation-matrix"
    ensures |SpanOpen| == 26 && SpanOpen[0] == '<' && SpanOpen[1] == 's' && '<' !in SpanOpen[1..]
    ensures SpanOpen[10..24] == "citation_count"
    ensures SpanClose[0] == '<' && SpanClose[1] == '/' && SpanClose[2] == 's' && '<' !in SpanClose[1..]
    ensures DivClose[0] == '<' && DivClose[1] == '/' && DivClose[2] == 'd' && '<' !in DivClose[1..]
  {
    DivTagChars();
    SpanOpenChars();
    CloseTagChars();
  }

  lemma DivTagChars()
    ensures DivTag[0] == '<' && DivTag[1] == 'd' && '<' !in DivTag[1..]
    ensures |DivIdAttr| == 21 && '<' !in DivIdAttr && DivIdAttr[4..19] == "citation-matrix"
  {
    assert DivTag[1..] == "div";
  }

  lemma SpanOpenChars()
    ensures |SpanOpen| == 26 && SpanOpen[0] == '<' && SpanOpen[1] == 's' && '<' !in SpanOpen[1..]
    ensures SpanOpen[10..24] == "citation_count"
  {
    SpanOpenId();
    assert SpanOpen[1..] == "span id=\"citation_count\">";
  }

  lemma SpanOpenId()
    ensures SpanOpen[10..24] == "citation_count"
  {
    var pre, id := "<span id=\"", "citation_count";
    assert SpanOpen == pre + id + "\">";
    assert |pre| == 10;
  }

  lemma CloseTagChars()
    ensures SpanClose[0] == '<' && SpanClose[1] == '/' && SpanClose[2] == 's' && '<' !in SpanClose[1..]
    ensures DivClose[0] == '<' && DivClose[1] == '/' && DivClose[2] == 'd' && '<' !in DivClose[1..]
  {
    assert SpanClose[1..] == "/span>";
    assert DivClose[1..] == "/div>";
  }

  /** The id each pattern must see; every match spells it out. */
  function Marker(p: Pattern): string {
    match p
    case Container => "citation-matrix"
    case CountSpan => "citation_count"
  }

  /** Length of `<div\s+id="citation-matrix">` at the start of `s`. The greedy
      `\s+` takes the whole whitespace run: giving any of it back would leave a
      space where the `i` of `id=` has to be. */
  function DivOpening(s: string): Option<nat>
  {
    if OccursAt(s, DivTag, 0) then
      var w := SpaceRun(s[4..]);
      if w >= 1 && OccursAt(s, DivIdAttr, 4 + w) then Some(4 + w + |DivIdAttr|) else None
    else None
  }

  /** Length of the match of `p` at the start of `s`, if there is one: the
      lazy `.*?` stops at the first closing tag after the opening one. */
  function MatchLen(p: Pattern, s: string): (r: Option<nat>)
    ensures r.Some? ==> 0 < r.value <= |s|
  {
    match p
    case Container =>
      (match DivOpening(s)
      case None => None
      case Some(m) =>
        (match Find(s[m..], DivClose)
         case None => None
         case Some(q) => Some(m + q + |DivClose|)))
    case CountSpan =>
      if OccursAt(s, SpanOpen, 0) then
        match FindInLine(s[|SpanOpen|..], SpanClose)
        case None => None
        case Some(q) => Some(|SpanOpen| + q + |SpanClose|)
      else None
  }

  // ---------------------------------------------------------------------------
  // What a match is, stated without the scan
  // ---------------------------------------------------------------------------

  /** `s[..n]` is `<div`, the whitespace `s[4..a]`, `id="citation-matrix">`,
      any text, and the first `</div>` after the opening tag. */
  ghost predicate IsContainerMatchWith(s: string, a: int, n: int) {
    5 <= a && a + |DivIdAttr| + |DivClose| <= n <= |s|
    && OccursAt(s, DivTag, 0) && AllSpace(s[4..a]) && OccursAt(s, DivIdAttr, a)
    && OccursAt(s, DivClose, n - |DivClose|)
    && forall j :: a + |DivIdAttr| <= j < n - |DivClose| ==> !OccursAt(s, DivClose, j)
  }

  ghost predicate IsContainerMatch(s: string, n: int) {
    exists a :: IsContainerMatchWith(s, a, n)
  }

  /** `s[..n]` is `<span id="citation_count">`, text without a newline, and
      the first `</span>` after the opening tag. */
  ghost predicate IsCountSpanMatch(s: string, n: int) {
    |SpanOpen| + |SpanClose| <= n <= |s|
    && OccursAt(s, SpanOpen, 0)
    && OccursAt(s, SpanClose, n - |SpanClose|)
    && '\n' !in s[|SpanOpen|..n - |SpanClose|]
    && forall j :: |SpanOpen| <= j < n - |SpanClose| ==> !OccursAt(s, SpanClose, j)
  }

  /** Occurrences in a suffix are occurrences in the whole string. */
  lemma OccursSuffix(s: string, m: int, w: string)
    requires 0 <= m <= |s|
    ensures forall j :: 0 <= j ==> (OccursAt(s[m..], w, j) <==> OccursAt(s, w, m + j))
    ensures forall j :: m <= j ==> (OccursAt(s, w, j) <==> OccursAt(s[m..], w, j - m))
  {
    assert s == s[..m] + s[m..];
    OccursAppend(s[..m], s[m..], w);
  }

  /** A whitespace prefix ended by a non-space character is the run `SpaceRun` measures. */
  lemma SpaceRunIs(t: string, w: nat)
    requires w < |t| && AllSpace(t[..w]) && !IsSpace(t[w])
    ensures SpaceRun(t) == w
  {
    var n := SpaceRun(t);
    assert forall i :: 0 <= i < w ==> t[..w][i] == t[i];
    assert forall i :: 0 <= i < n ==> t[..n][i] == t[i];
  }

  lemma ContainerMatchSound(s: string, n: int)
    requires MatchLen(Container, s) == Some(n)
    ensures IsContainerMatch(s, n)
  {
    var m := DivOpening(s).value;
    var a := m - |DivIdAttr|;
    assert s[4..a] == s[4..][..a - 4];
    OccursSuffix(s, m, DivClose);
    assert IsContainerMatchWith(s, a, n);
  }

  lemma ContainerMatchComplete(s: string, a: int, n: int)
    requires IsContainerMatchWith(s, a, n)
    ensures MatchLen(Container, s) == Some(n)
  {
    OccursChar(s, DivIdAttr, a, 0);
    assert s[4..][..a - 4] == s[4..a];
    SpaceRunIs(s[4..], a - 4);
    var m := a + |DivIdAttr|;
    assert DivOpening(s) == Some(m);
    OccursSuffix(s, m, DivClose);
    FindIs(s[m..], DivClose, n - |DivClose| - m);
  }

  /** The scan finds exactly the matches the pattern describes. */
  lemma ContainerMatchMeaning(s: string, n: int)
    ensures MatchLen(Container, s) == Some(n) <==> IsContainerMatch(s, n)
  {
    if MatchLen(Container, s) == Some(n) {
      ContainerMatchSound(s, n);
    }
    if IsContainerMatch(s, n) {
      var a :| IsContainerMatchWith(s, a, n);
      ContainerMatchComplete(s, a, n);
    }
  }

  lemma CountSpanMatchSound(s: string, n: int)
    requires MatchLen(CountSpan, s) == Some(n)
    ensures IsCountSpanMatch(s, n)
  {
    var m := |SpanOpen|;
    var q := FindInLine(s[m..], SpanClose).value;
    OccursSuffix(s, m, SpanClose);
    assert s[m..][..q] == s[m..n - |SpanClose|];
  }

  lemma CountSpanMatchComplete(s: string, n: int)
    requires IsCountSpanMatch(s, n)
    ensures MatchLen(CountSpan, s) == Some(n)
  {
    var m := |SpanOpen|;
    var q := n - m - |SpanClose|;
    OccursSuffix(s, m, SpanClose);
    assert s[m..][..q] == s[m..n - |SpanClose|];
    FindInLineIs(s[m..], SpanClose, q);
  }

  lemma CountSpanMatchMeaning(s: string, n: int)
    ensures MatchLen(CountSpan, s) == Some(n) <==> IsCountSpanMatch(s, n)
  {
    if MatchLen(CountSpan, s) == Some(n) {
      CountSpanMatchSound(s, n);
    }
    if IsCountSpanMatch(s, n) {
      CountSpanMatchComplete(s, n);
    }
  }

  // ---------------------------------------------------------------------------
  // re.sub
  // ---------------------------------------------------------------------------

  /** A matcher gives the length of the match at the start of a string. */
  type Matcher = string -> Option<nat>

  /** Every match is non-empty and fits in the text, so the scan advances. */
  ghost predicate Advances(m: Matcher) {
    forall t :: m(t).Some? ==> 0 < m(t).value <= |t|
  }

  function MatchOf(p: Pattern): (m: Matcher)
    ensures Advances(m)
  {
    t => MatchLen(p, t)
  }

  /** Python's `re.sub` with no count: at each position from the left, a match
      is replaced by `r` and the scan goes on after it; elsewhere the
      character is copied. */
  function SubWith(m: Matcher, r: string, s: string): string
    requires Advances(m)
    decreases |s|
  {
    if s == [] then []
    else
      match m(s)
      case Some(n) => r + SubWith(m, r, s[n..])
      case None => [s[0]] + SubWith(m, r, s[1..])
  }

  /** `re.sub(p, r, s)` for one of the updater's patterns (the replacement is
      the same text for every match of both). */
  function Sub(p: Pattern, r: string, s: string): (t: string)
    ensures !Contains(s, Marker(p)) ==> t == s
  {
    SubWithoutMarker(p, r, s);
    SubWith(MatchOf(p), r, s)
  }

  /** A text that never names the pattern's id holds no match. */
  lemma SubWithoutMarker(p: Pattern, r: string, s: string)
    ensures !Contains(s, Marker(p)) ==> SubWith(MatchOf(p), r, s) == s
  {
    if !Contains(s, Marker(p)) {
      NoMatchInPlainText(p, s, []);
      assert s + [] == s;
      SubWithoutMatch(MatchOf(p), r, s);
    }
  }

  /** No match starts before index `k` of `s`. */
  ghost predicate NoMatchBefore(m: Matcher, s: string, k: int) {
    k <= |s| && forall j :: 0 <= j < k ==> m(s[j..]).None?
  }

  lemma SplitFirst(s: string, k: nat)
    requires 0 < k <= |s|
    ensures s[..k] == [s[0]] + s[1..][..k - 1] && s[1..][k - 1..] == s[k..]
  {
  }

  /** Text before the first match is copied unchanged. */
  lemma {:induction false} SubSkip(m: Matcher, r: string, s: string, k: nat)
    requires Advances(m)
    requires NoMatchBefore(m, s, k)
    ensures SubWith(m, r, s) == s[..k] + SubWith(m, r, s[k..])
    decreases k
  {
    if k == 0 {
      assert s[..0] == [] && s[0..] == s;
    } else {
      assert s[0..] == s;
      SubCopies(m, r, s);
      NoMatchBeforeTail(m, s, k);
      SubSkip(m, r, s[1..], k - 1);
      SplitFirst(s, k);
      ConsSplit(s, k, SubWith(m, r, s[1..]), SubWith(m, r, s[k..]));
    }
  }

  /** The last step of SubSkip, stated on plain values so that the `SubWith`
      terms it is applied to are not unfolded there. */
  lemma ConsSplit(s: string, k: nat, tail: string, rest: string)
    requires 0 < k <= |s| && tail == s[1..][..k - 1] + rest
    ensures [s[0]] + tail == s[..k] + rest
  {
    SplitFirst(s, k);
  }

  lemma NoMatchBeforeTail(m: Matcher, s: string, k: nat)
    requires 0 < k && NoMatchBefore(m, s, k)
    ensures NoMatchBefore(m, s[1..], k - 1)
  {
    forall j | 0 <= j < k - 1 ensures m(s[1..][j..]).None? {
      assert s[1..][j..] == s[j + 1..];
    }
  }

  /** Without any match the text is unchanged. */
  lemma SubWithoutMatch(m: Matcher, r: string, s: string)
    requires Advances(m)
    requires NoMatchBefore(m, s, |s|)
    ensures SubWith(m, r, s) == s
  {
    SubSkip(m, r, s, |s|);
    assert s[|s|..] == [];
  }

  /** The leftmost match is replaced, the text before it kept, and the scan
      resumes right after it. */
  lemma SubFirstMatch(m: Matcher, r: string, s: string, k: nat, n: nat)
    requires Advances(m)
    requires NoMatchBefore(m, s, k)
    requires k < |s| && m(s[k..]) == Some(n)
    ensures k + n <= |s|
    ensures SubWith(m, r, s) == s[..k] + r + SubWith(m, r, s[k + n..])
  {
    SubSkip(m, r, s, k);
    assert s[k..][n..] == s[k + n..];
  }

  /** Text in which no match starts can be set aside, whatever follows it. */
  lemma SubPrefix(m: Matcher, r: string, a: string, b: string)
    requires Advances(m)
    requires NoMatchBefore(m, a + b, |a|)
    ensures SubWith(m, r, a + b) == a + SubWith(m, r, b)
  {
    SubSkip(m, r, a + b, |a|);
    assert (a + b)[..|a|] == a && (a + b)[|a|..] == b;
  }

  /** A match at the very start is replaced and the scan resumes after it. */
  lemma SubMatchFirst(m: Matcher, r: string, a: string, b: string)
    requires Advances(m)
    requires a != [] && m(a + b) == Some(|a|)
    ensures SubWith(m, r, a + b) == r + SubWith(m, r, b)
  {
    assert (a + b)[|a|..] == b;
  }

  // ---------------------------------------------------------------------------
  // Where matches cannot start
  // ---------------------------------------------------------------------------

  /** Index just past the id inside the opening tag at the start of `s`. */
  function MarkerEnd(p: Pattern, s: string): nat {
    match p
    case Container => if |s| >= 4 then 4 + SpaceRun(s[4..]) + 19 else 0
    case CountSpan => 24
  }

  lemma DivOpeningShape(s: string)
    ensures DivOpening(s).Some? ==>
      var a := 4 + SpaceRun(s[4..]);
      a + 19 <= |s| && s[0] == '<' && s[1] == 'd' && '<' !in s[1..a + 19]
      && OccursAt(s, "citation-matrix", a + 4)
  {
    if DivOpening(s).Some? {
      var a := 4 + SpaceRun(s[4..]);
      assert s[4..a] == s[4..][..a - 4];
      OccursChar(s, DivTag, 0, 0);
      OccursChar(s, DivTag, 0, 1);
      OpeningHasNoLt(s, a);
      AttrSpellsMarker(s, a);
    }
  }

  /** Between its `<` and the end of the id, the opening tag has no other `<`. */
  lemma OpeningHasNoLt(s: string, a: int)
    requires 4 <= a && OccursAt(s, DivTag, 0) && OccursAt(s, DivIdAttr, a) && AllSpace(s[4..a])
    ensures a + 19 <= |s| && '<' !in s[1..a + 19]
  {
    TagChars();
    var t := s[1..a + 19];
    forall k | 0 <= k < |t| ensures t[k] != '<' {
      var i := k + 1;
      if i < 4 {
        OccursChar(s, DivTag, 0, i);
        assert DivTag[1..][i - 1] == DivTag[i];
      } else if i < a {
        assert s[4..a][i - 4] == s[i];
      } else {
        OccursChar(s, DivIdAttr, a, i - a);
      }
    }
  }

  lemma AttrSpellsMarker(s: string, a: int)
    requires OccursAt(s, DivIdAttr, a)
    ensures OccursAt(s, "citation-matrix", a + 4)
  {
    TagChars();
    OccursPart(s, DivIdAttr, a, 4, 19);
  }

  lemma SpanOpeningShape(s: string)
    ensures OccursAt(s, SpanOpen, 0) ==>
      s[0] == '<' && s[1] == 's' && '<' !in s[1..24] && OccursAt(s, "citation_count", 10)
  {
    if OccursAt(s, SpanOpen, 0) {
      TagChars();
      OccursChar(s, SpanOpen, 0, 0);
      OccursChar(s, SpanOpen, 0, 1);
      OccursPart(s, SpanOpen, 0, 1, 24);
      assert SpanOpen[1..24] == SpanOpen[1..][..23];
      OccursPart(s, SpanOpen, 0, 10, 24);
    }
  }

  /** What every match of `p` at the start of `s` looks like: it opens with
      `<`, its second character is not `/`, and it spells the marker before
      the next `<`. */
  ghost predicate Shaped(p: Pattern, s: string) {
    var k := MarkerEnd(p, s);
    |Marker(p)| <= k <= |s| && s[0] == '<' && s[1] != '/'
    && '<' !in s[1..k]
    && OccursAt(s, Marker(p), k - |Marker(p)|)
  }

  lemma MatchShape(p: Pattern, s: string)
    ensures MatchLen(p, s).Some? ==> Shaped(p, s)
  {
    match p
    case Container => DivOpeningShape(s);
    case CountSpan => SpanOpeningShape(s);
  }

  /** Nothing shaped like a match starts in marker-free text followed by
      nothing or by a tag. */
  lemma NotShapedInPlainText(p: Pattern, a: string, b: string, j: int)
    requires !Contains(a, Marker(p))
    requires b == [] || b[0] == '<'
    requires 0 <= j < |a|
    ensures !Shaped(p, (a + b)[j..])
  {
    var mk := Marker(p);
    var s := (a + b)[j..];
    var k := MarkerEnd(p, s);
    OccursInFront(a, b, j, k - |mk|, mk);
    if j + k > |a| && |a| < |a + b| && 1 <= k <= |s| {
      assert s[|a| - j] == b[0];
      assert s[1..k][|a| - j - 1] == s[|a| - j];
    }
  }

  /** No match starts in a text that lacks the pattern's marker when what
      follows is empty or opens a tag. */
  lemma NoMatchInPlainText(p: Pattern, a: string, b: string)
    requires !Contains(a, Marker(p))
    requires b == [] || b[0] == '<'
    ensures NoMatchBefore(MatchOf(p), a + b, |a|)
  {
    forall j | 0 <= j < |a| ensures MatchLen(p, (a + b)[j..]).None? {
      MatchShape(p, (a + b)[j..]);
      NotShapedInPlainText(p, a, b, j);
    }
  }

  /** No match starts inside a closing tag such as `</div>` or `</body>`. */
  lemma NoMatchInEndTag(p: Pattern, t: string, rest: string)
    requires |t| >= 2 && t[0] == '<' && t[1] == '/' && '<' !in t[1..]
    ensures NoMatchBefore(MatchOf(p), t + rest, |t|)
  {
    forall j | 0 <= j < |t| ensures MatchLen(p, (t + rest)[j..]).None? {
      var s := (t + rest)[j..];
      MatchShape(p, s);
      assert s[0] == t[j];
      if j > 0 {
        assert t[1..][j - 1] == t[j];
      }
    }
  }

  /** No match starts in text without `<`. */
  lemma NoMatchWithoutTag(p: Pattern, a: string, b: string)
    requires '<' !in a
    ensures NoMatchBefore(MatchOf(p), a + b, |a|)
  {
    forall j | 0 <= j < |a| ensures MatchLen(p, (a + b)[j..]).None? {
      MatchShape(p, (a + b)[j..]);
      assert (a + b)[j..][0] == a[j];
    }
  }

  /** A span match needs a span opening where it starts. */
  lemma NoCountSpanWithoutOpening(a: string, b: string)
    requires forall j :: 0 <= j < |a| ==> !OccursAt(a + b, SpanOpen, j)
    ensures NoMatchBefore(MatchOf(CountSpan), a + b, |a|)
  {
    forall j | 0 <= j < |a| ensures MatchLen(CountSpan, (a + b)[j..]).None? {
      SpanMatchOpens((a + b)[j..]);
      OccursSuffix(a + b, j, SpanOpen);
      assert !OccursAt(a + b, SpanOpen, j + 0);
    }
  }

  /** A text without a span opening holds no span match. */
  lemma SubWithoutOpening(r: string, s: string)
    ensures !Contains(s, SpanOpen) ==> Sub(CountSpan, r, s) == s
  {
    if !Contains(s, SpanOpen) {
      assert s + [] == s;
      NoCountSpanWithoutOpening(s, []);
      SubWithoutMatch(MatchOf(CountSpan), r, s);
    }
  }

  lemma SpanMatchOpens(s: string)
    ensures MatchLen(CountSpan, s).Some? ==> OccursAt(s, SpanOpen, 0)
  {
  }

  /** A match at the start is replaced and the scan resumes after it. */
  lemma SubAtMatch(m: Matcher, r: string, s: string, n: nat)
    requires Advances(m)
    requires m(s) == Some(n)
    ensures SubWith(m, r, s) == r + SubWith(m, r, s[n..])
  {
  }

  /** Where no match starts, the scan copies one character. */
  lemma SubCopies(m: Matcher, r: string, s: string)
    requires Advances(m)
    requires s != [] && m(s).None?
    ensures SubWith(m, r, s) == [s[0]] + SubWith(m, r, s[1..])
  {
  }

  /** A tag with no match at its start, followed by text without `<`, is copied. */
  lemma SubTagThenText(p: Pattern, r: string, t: string, rest: string)
    requires t != [] && t[0] == '<' && '<' !in t[1..]
    requires MatchLen(p, t + rest).None?
    ensures Sub(p, r, t + rest) == t + Sub(p, r, rest)
  {
    NoMatchWithoutTag(p, t[1..], rest);
    SubCopyPrefix(MatchOf(p), r, t, rest);
  }

  /** Text with no match at its start and none inside the rest of it is copied. */
  lemma SubCopyPrefix(m: Matcher, r: string, a: string, b: string)
    requires Advances(m)
    requires a != [] && m(a + b).None? && NoMatchBefore(m, a[1..] + b, |a| - 1)
    ensures SubWith(m, r, a + b) == a + SubWith(m, r, b)
  {
    var u := SubWith(m, r, b);
    SubCopies(m, r, a + b);
    assert (a + b)[0] == a[0] && (a + b)[1..] == a[1..] + b;
    SubPrefix(m, r, a[1..], b);
    ConsJoin(a, u);
  }

  /** The last step of SubCopyPrefix, stated on plain values so that the
      `SubWith` terms it is applied to are not unfolded there. */
  lemma ConsJoin(a: string, u: string)
    requires a != []
    ensures [a[0]] + (a[1..] + u) == a + u
  {
    assert [a[0]] + a[1..] == a;
  }

  /** A closing tag is copied. */
  lemma SubEndTag(p: Pattern, r: string, t: string, rest: string)
    requires |t| >= 2 && t[0] == '<' && t[1] == '/' && '<' !in t[1..]
    ensures Sub(p, r, t + rest) == t + Sub(p, r, rest)
  {
    NoMatchInEndTag(p, t, rest);
    SubPrefix(MatchOf(p), r, t, rest);
  }

  /** The opening tag `<div id="citation-matrix">` is 26 characters long. */
  lemma DivOpeningOf(rest: string)
    ensures DivOpening(DivOpenTag + rest) == Some(26)
  {
    var s := DivOpenTag + rest;
    assert s[..4] == DivTag;
    assert s[4..][..1] == " " && s[4..][1] == 'i';
    SpaceRunIs(s[4..], 1);
    assert s[5..26] == DivIdAttr;
  }
}
