/** What the patch of update_citation_matrix.py does to a page, proved from
    the scanning model: on pages whose citation boxes are well formed it
    rewrites exactly the counts, it repairs boxes in any shape to the
    canonical one, it inserts a box into a page that has none, and a second
    run on its own output changes nothing. */
module PatchProperties {
  import opened Text
  import opened Patterns
  import opened CitationMatrix

  // ===========================================================================
  // One citation box under the two patterns
  // ===========================================================================

  /** No `</div>` starts inside a closing `</span>`. */
  lemma NoDivCloseInSpanClose(rest: string)
    ensures forall j :: 0 <= j < |SpanClose| ==> !OccursAt(SpanClose + rest, DivClose, j)
  {
    TagChars();
    NoStartInTag(SpanClose, rest, DivClose, 2);
  }

  /** The first `</div>` after a span's content without `<` is the one right after its `</span>`. */
  lemma DivCloseAfterSpan(x: string, rest: string)
    requires '<' !in x
    ensures Find(x + (SpanClose + (DivClose + rest)), DivClose) == Some(|x| + |SpanClose|)
  {
    DivCloseAfterSpanClose(rest);
    NoStartWithout(x, SpanClose + (DivClose + rest), DivClose);
    FindAppend(x, SpanClose + (DivClose + rest), DivClose);
  }

  lemma DivCloseAfterSpanClose(rest: string)
    ensures Find(SpanClose + (DivClose + rest), DivClose) == Some(|SpanClose|)
  {
    FindIs(DivClose + rest, DivClose, 0);
    NoDivCloseInSpanClose(DivClose + rest);
    FindAppend(SpanClose, DivClose + rest, DivClose);
  }

  lemma DivCloseAfterSpanOpen(t: string, q: nat)
    requires Find(t, DivClose) == Some(q)
    ensures Find(SpanOpen + t, DivClose) == Some(|SpanOpen| + q)
  {
    TagChars();
    NoStartInTag(SpanOpen, t, DivClose, 1);
    FindAppend(SpanOpen, t, DivClose);
  }

  lemma DivCloseAfterLabel(t: string, q: nat)
    requires Find(t, DivClose) == Some(q)
    ensures Find(Label + t, DivClose) == Some(|Label| + q)
  {
    NoStartWithout(Label, t, DivClose);
    FindAppend(Label, t, DivClose);
  }

  /** The first `</div>` after the box's opening tag is the box's own. */
  lemma DivCloseAfterHead(x: string, rest: string)
    requires '<' !in x
    ensures Find(Label + (SpanOpen + (x + (SpanClose + (DivClose + rest)))), DivClose)
            == Some(|Label| + |SpanOpen| + |x| + |SpanClose|)
  {
    var t2 := x + (SpanClose + (DivClose + rest));
    DivCloseAfterSpan(x, rest);
    DivCloseAfterSpanOpen(t2, |x| + |SpanClose|);
    DivCloseAfterLabel(SpanOpen + t2, |SpanOpen| + |x| + |SpanClose|);
  }

  /** The box read as the container pattern sees it. */
  lemma RegionAsContainer(x: string, rest: string)
    ensures Region(x) + rest
            == DivOpenTag + (Label + (SpanOpen + (x + (SpanClose + (DivClose + rest)))))
  {
    assert RegionHead == DivOpenTag + Label;
  }

  /** The box read as the span pattern sees it. */
  lemma RegionAsSpan(x: string, rest: string)
    ensures Region(x) + rest == RegionHead + ((SpanOpen + x + SpanClose) + (DivClose + rest))
  {
  }

  /** The first `</div>` in a box is its last six characters. */
  lemma DivCloseOfRegion(x: string, rest: string)
    requires '<' !in x
    ensures Find(Region(x) + rest, DivClose) == Some(|Region(x)| - |DivClose|)
  {
    var tail := Label + (SpanOpen + (x + (SpanClose + (DivClose + rest))));
    RegionAsContainer(x, rest);
    DivCloseAfterHead(x, rest);
    DivCloseAfterDivOpen(tail, |Label| + |SpanOpen| + |x| + |SpanClose|);
  }

  lemma DivCloseAfterDivOpen(t: string, q: nat)
    requires Find(t, DivClose) == Some(q)
    ensures Find(DivOpenTag + t, DivClose) == Some(26 + q)
  {
    var open := DivOpenTag;
    TagChars();
    assert open[1..] == DivTag[1..] + " " + DivIdAttr;
    NoStartInTag(open, t, DivClose, 1);
    FindAppend(open, t, DivClose);
  }

  /** A box whose count has no `<` is one whole match of the container pattern. */
  lemma ContainerMatchesRegion(x: string, rest: string)
    requires '<' !in x
    ensures MatchLen(Container, Region(x) + rest) == Some(|Region(x)|)
  {
    var s := Region(x) + rest;
    var tail := Label + (SpanOpen + (x + (SpanClose + (DivClose + rest))));
    RegionAsContainer(x, rest);
    assert s[..4] == DivTag;
    assert s[4..][..1] == " " && s[4..][1] == 'i';
    SpaceRunIs(s[4..], 1);
    assert s[5..26] == DivIdAttr;
    assert DivOpening(s) == Some(26);
    assert s[26..] == tail;
    DivCloseAfterHead(x, rest);
  }

  /** A span whose count has neither `<` nor a newline is one whole match of
      the span pattern. */
  lemma CountSpanMatchesSpan(x: string, rest: string)
    requires CountText(x)
    ensures MatchLen(CountSpan, SpanOpen + x + SpanClose + rest) == Some(|SpanOpen| + |x| + |SpanClose|)
  {
    var s := SpanOpen + x + SpanClose + rest;
    assert s[..|SpanOpen|] == SpanOpen;
    assert s[|SpanOpen|..] == x + (SpanClose + rest);
    FindInLineIs(SpanClose + rest, SpanClose, 0);
    NoStartWithout(x, SpanClose + rest, SpanClose);
    FindInLineAppend(x, SpanClose + rest, SpanClose);
  }

  /** Normalising a box replaces it by the canonical one. */
  lemma NormaliseRegion(x: string, rest: string)
    requires '<' !in x
    ensures Sub(Container, Canonical, Region(x) + rest) == Canonical + Sub(Container, Canonical, rest)
  {
    ContainerMatchesRegion(x, rest);
    SubMatchFirst(MatchOf(Container), Canonical, Region(x), rest);
  }

  /** No count span starts in the box's head. */
  lemma NoCountSpanInHead(t: string)
    requires t == [] || t[0] == '<'
    ensures NoMatchBefore(MatchOf(CountSpan), RegionHead + t, |RegionHead|)
  {
    assert '_' !in RegionHead;
    LacksChar(RegionHead, Marker(CountSpan), 8);
    NoMatchInPlainText(CountSpan, RegionHead, t);
  }

  /** Updating a span puts the new count between its tags. */
  lemma UpdateSpan(x: string, c: string, rest: string)
    requires CountText(x)
    ensures UpdateCount((SpanOpen + x + SpanClose) + (DivClose + rest), c)
            == (SpanOpen + c + SpanClose) + (DivClose + UpdateCount(rest, c))
  {
    var m := MatchOf(CountSpan);
    var r := SpanOpen + c + SpanClose;
    CountSpanMatchesSpan(x, DivClose + rest);
    SubMatchFirst(m, r, SpanOpen + x + SpanClose, DivClose + rest);
    TagChars();
    NoMatchInEndTag(CountSpan, DivClose, rest);
    SubPrefix(m, r, DivClose, rest);
  }

  /** Updating a box puts the new count in its span and keeps the rest of it. */
  lemma UpdateRegion(x: string, c: string, rest: string)
    requires CountText(x)
    ensures UpdateCount(Region(x) + rest, c) == Region(c) + UpdateCount(rest, c)
  {
    var t := (SpanOpen + x + SpanClose) + (DivClose + rest);
    var u := UpdateCount(rest, c);
    RegionAsSpan(x, rest);
    NoCountSpanInHead(t);
    SubPrefix(MatchOf(CountSpan), SpanOpen + c + SpanClose, RegionHead, t);
    assert UpdateCount(Region(x) + rest, c) == RegionHead + UpdateCount(t, c);
    UpdateSpan(x, c, rest);
    RegionAsSpan(c, u);
  }

  // ===========================================================================
  // Pages whose citation boxes are well formed
  // ===========================================================================

  /** Text outside the citation boxes: it names neither id. */
  predicate Plain(t: string) {
    !Contains(t, Marker(Container)) && !Contains(t, Marker(CountSpan))
  }

  /** `n` copies of the count `c`. */
  function Fill(c: string, n: nat): (r: seq<string>)
    ensures |r| == n && forall i :: 0 <= i < n ==> r[i] == c
  {
    seq(n, _ => c)
  }

  /** The page `texts[0]`, box with `counts[0]`, `texts[1]`, …, `texts[|counts|]`. */
  function Assemble(texts: seq<string>, counts: seq<string>): string
    requires |texts| == |counts| + 1
    decreases |counts|
  {
    if counts == [] then texts[0]
    else texts[0] + (Region(counts[0]) + Assemble(texts[1..], counts[1..]))
  }

  /** The texts are plain and every box shows a count that fits on one line
      and holds no tag. */
  predicate Managed(texts: seq<string>, counts: seq<string>) {
    |texts| == |counts| + 1
    && (forall i :: 0 <= i < |texts| ==> Plain(texts[i]))
    && (forall i :: 0 <= i < |counts| ==> CountText(counts[i]))
  }

  lemma ManagedTail(texts: seq<string>, counts: seq<string>)
    requires Managed(texts, counts) && counts != []
    ensures Managed(texts[1..], counts[1..])
  {
    assert forall i :: 0 <= i < |texts| - 1 ==> texts[1..][i] == texts[i + 1];
    assert forall i :: 0 <= i < |counts| - 1 ==> counts[1..][i] == counts[i + 1];
  }

  lemma RegionStartsTag(x: string, rest: string)
    ensures (Region(x) + rest)[0] == '<'
  {
  }

  /** A plain text in front of a box is kept by both substitutions. */
  lemma SubPlainBefore(p: Pattern, r: string, t: string, x: string, rest: string)
    requires Plain(t)
    ensures Sub(p, r, t + (Region(x) + rest)) == t + Sub(p, r, Region(x) + rest)
  {
    RegionStartsTag(x, rest);
    NoMatchInPlainText(p, t, Region(x) + rest);
    SubPrefix(MatchOf(p), r, t, Region(x) + rest);
  }

  /** The first box and the rest of a page with the same count everywhere. */
  lemma AssembleFill(texts: seq<string>, c: string, n: nat)
    requires |texts| == n + 1 && n > 0
    ensures Assemble(texts, Fill(c, n)) == texts[0] + (Region(c) + Assemble(texts[1..], Fill(c, n - 1)))
  {
    assert Fill(c, n)[1..] == Fill(c, n - 1);
  }

  /** Normalising resets every box to show 0 and keeps the texts between them. */
  lemma {:induction false} NormaliseManaged(texts: seq<string>, counts: seq<string>)
    requires Managed(texts, counts)
    ensures Normalise(Assemble(texts, counts)) == Assemble(texts, Fill("0", |counts|))
    decreases |counts|
  {
    if counts == [] {
    } else {
      var rest := Assemble(texts[1..], counts[1..]);
      SubPlainBefore(Container, Canonical, texts[0], counts[0], rest);
      NormaliseRegion(counts[0], rest);
      ManagedTail(texts, counts);
      NormaliseManaged(texts[1..], counts[1..]);
      AssembleFill(texts, "0", |counts|);
    }
  }

  /** Updating writes `c` into every box and keeps everything else. */
  lemma {:induction false} UpdateManaged(texts: seq<string>, counts: seq<string>, c: string)
    requires Managed(texts, counts)
    ensures UpdateCount(Assemble(texts, counts), c) == Assemble(texts, Fill(c, |counts|))
    decreases |counts|
  {
    if counts == [] {
    } else {
      var rest := Assemble(texts[1..], counts[1..]);
      SubPlainBefore(CountSpan, SpanOpen + c + SpanClose, texts[0], counts[0], rest);
      UpdateRegion(counts[0], c, rest);
      ManagedTail(texts, counts);
      UpdateManaged(texts[1..], counts[1..], c);
      AssembleFill(texts, c, |counts|);
    }
  }

  /** A page with a box has a count span. */
  lemma AssembleHasSpan(texts: seq<string>, counts: seq<string>)
    requires |texts| == |counts| + 1 && counts != []
    ensures Contains(Assemble(texts, counts), SpanOpen)
  {
    RegionHasSpan(texts[0], counts[0], Assemble(texts[1..], counts[1..]));
  }

  /** The first `<` of tag-free text followed by a tag is that tag's. */
  lemma FirstTag(u: string, v: string)
    requires '<' !in u && v != [] && v[0] == '<'
    ensures Find(u + v, "<") == Some(|u|)
  {
    assert v[..1] == "<";
    FindIs(v, "<", 0);
    NoStartWithout(u, v, "<");
    FindAppend(u, v, "<");
  }

  /** Tag-free text in front of a tag is determined by the whole. */
  lemma SplitAtTag(u1: string, v1: string, u2: string, v2: string)
    requires '<' !in u1 && v1 != [] && v1[0] == '<'
    requires '<' !in u2 && v2 != [] && v2[0] == '<'
    requires u1 + v1 == u2 + v2
    ensures u1 == u2 && v1 == v2
  {
    FirstTag(u1, v1);
    FirstTag(u2, v2);
    assert u1 == (u1 + v1)[..|u1|];
    assert u2 == (u2 + v2)[..|u2|];
    assert v1 == (u1 + v1)[|u1|..];
    assert v2 == (u2 + v2)[|u2|..];
  }

  /** Equal prefixes can be cancelled. */
  lemma CancelPrefix(p: string, x: string, y: string)
    requires p + x == p + y
    ensures x == y
  {
    assert x == (p + x)[|p|..];
    assert y == (p + y)[|p|..];
  }

  /** The box read as its head, its count and its tail. */
  lemma RegionAsCount(x: string, rest: string)
    ensures Region(x) + rest == (RegionHead + SpanOpen) + (x + (SpanClose + DivClose + rest))
  {
  }

  /** Around the same texts, different counts give different pages. */
  lemma {:induction false} AssembleInjective(texts: seq<string>, a: seq<string>, b: seq<string>)
    requires |texts| == |a| + 1 == |b| + 1
    requires forall i :: 0 <= i < |a| ==> CountText(a[i])
    requires forall i :: 0 <= i < |b| ==> CountText(b[i])
    ensures Assemble(texts, a) == Assemble(texts, b) ==> a == b
    decreases |a|
  {
    if a != [] && Assemble(texts, a) == Assemble(texts, b) {
      var ra := Assemble(texts[1..], a[1..]);
      var rb := Assemble(texts[1..], b[1..]);
      CancelPrefix(texts[0], Region(a[0]) + ra, Region(b[0]) + rb);
      RegionAsCount(a[0], ra);
      RegionAsCount(b[0], rb);
      CancelPrefix(RegionHead + SpanOpen, a[0] + (SpanClose + DivClose + ra), b[0] + (SpanClose + DivClose + rb));
      SplitAtTag(a[0], SpanClose + DivClose + ra, b[0], SpanClose + DivClose + rb);
      CancelPrefix(SpanClose + DivClose, ra, rb);
      assert forall i :: 0 <= i < |a| - 1 ==> a[1..][i] == a[i + 1];
      assert forall i :: 0 <= i < |b| - 1 ==> b[1..][i] == b[i + 1];
      AssembleInjective(texts[1..], a[1..], b[1..]);
      assert a == [a[0]] + a[1..] && b == [b[0]] + b[1..];
    }
  }

  // ===========================================================================
  // The whole patch
  // ===========================================================================

  /** Writing one count into every box keeps a page well formed. */
  lemma FillManaged(texts: seq<string>, counts: seq<string>, c: string)
    requires Managed(texts, counts) && CountText(c)
    ensures Managed(texts, Fill(c, |counts|))
  {
  }

  /** The first two steps of the patch reset every box of a page with
      well-formed boxes and insert nothing. */
  lemma ResetManaged(texts: seq<string>, counts: seq<string>)
    requires Managed(texts, counts) && counts != []
    ensures EnsureSpan(Normalise(Assemble(texts, counts))) == Assemble(texts, Fill("0", |counts|))
  {
    NormaliseManaged(texts, counts);
    AssembleHasSpan(texts, Fill("0", |counts|));
  }

  /** The last step of the patch on a page whose boxes were reset. */
  lemma UpdateReset(texts: seq<string>, counts: seq<string>, c: string)
    requires Managed(texts, counts)
    ensures UpdateCount(Assemble(texts, Fill("0", |counts|)), c) == Assemble(texts, Fill(c, |counts|))
  {
    FillManaged(texts, counts, "0");
    UpdateManaged(texts, Fill("0", |counts|), c);
  }

  /** The patch of a page with well-formed boxes, before its verdict. */
  lemma PatchManagedText(texts: seq<string>, counts: seq<string>, c: string)
    requires Managed(texts, counts) && counts != []
    ensures UpdateCount(EnsureSpan(Normalise(Assemble(texts, counts))), c) == Assemble(texts, Fill(c, |counts|))
  {
    ResetManaged(texts, counts);
    UpdateReset(texts, counts, c);
  }

  /** A page with well-formed boxes is the page with `c` in every box
      exactly when every box shows `c`. */
  lemma SameCountsSamePage(texts: seq<string>, counts: seq<string>, c: string)
    requires Managed(texts, counts) && CountText(c)
    ensures Assemble(texts, counts) == Assemble(texts, Fill(c, |counts|)) <==> counts == Fill(c, |counts|)
  {
    AssembleInjective(texts, counts, Fill(c, |counts|));
  }

  /** On a page with well-formed boxes, the patch writes `c` into every box
      and changes nothing else; it reports a change exactly when some box
      showed another count. */
  lemma PatchManaged(texts: seq<string>, counts: seq<string>, c: string)
    requires Managed(texts, counts) && counts != [] && CountText(c)
    ensures Patch(Assemble(texts, counts), c) == (Assemble(texts, Fill(c, |counts|)), counts != Fill(c, |counts|))
  {
    PatchManagedText(texts, counts, c);
    SameCountsSamePage(texts, counts, c);
  }

  /** A second run with the same count on the output of a run over a page
      with well-formed boxes changes nothing and reports no change. */
  lemma PatchIdempotent(texts: seq<string>, counts: seq<string>, c: string)
    requires Managed(texts, counts) && counts != [] && CountText(c)
    ensures var out := Patch(Assemble(texts, counts), c).0;
            Patch(out, c) == (out, false)
  {
    PatchManaged(texts, counts, c);
    FillManaged(texts, counts, c);
    PatchManaged(texts, Fill(c, |counts|), c);
  }

  /** A span opening names the span's id. */
  lemma SpanOpenNamesId(t: string)
    ensures Contains(t, SpanOpen) ==> Contains(t, Marker(CountSpan))
  {
    if Contains(t, SpanOpen) {
      var j := Find(t, SpanOpen).value;
      TagChars();
      OccursPart(t, SpanOpen, j, 10, 24);
      assert OccursAt(t, Marker(CountSpan), j + 10);
    }
  }

  /** Both sides of a cut through a plain text are plain. */
  lemma PlainSplit(html: string, i: int)
    requires Plain(html) && 0 <= i <= |html|
    ensures Plain(html[..i]) && Plain(html[i..])
  {
    NotContainsSlice(html, 0, i, Marker(Container));
    NotContainsSlice(html, 0, i, Marker(CountSpan));
    NotContainsSlice(html, i, |html|, Marker(Container));
    NotContainsSlice(html, i, |html|, Marker(CountSpan));
    assert html[0..i] == html[..i] && html[i..|html|] == html[i..];
  }

  /** Concatenation regrouped, stated on its own so that the proofs using it
      need not unfold the (often long) operands. */
  lemma Regroup(a: string, r: string, b: string)
    ensures a + r + b == a + (r + b)
  {
  }

  /** Normalising a page with one box between plain texts resets the box. */
  lemma NormaliseOne(a: string, x: string, b: string)
    requires Plain(a) && Plain(b) && '<' !in x
    ensures Normalise(a + (Region(x) + b)) == a + (Canonical + b)
  {
    SubPlainBefore(Container, Canonical, a, x, b);
    NormaliseRegion(x, b);
  }

  /** Updating a page with one box between plain texts writes the count into it. */
  lemma UpdateOne(a: string, x: string, b: string, c: string)
    requires Plain(a) && Plain(b) && CountText(x)
    ensures UpdateCount(a + (Region(x) + b), c) == a + (Region(c) + b)
  {
    SubPlainBefore(CountSpan, SpanOpen + c + SpanClose, a, x, b);
    UpdateRegion(x, c, b);
  }

  /** Without boxes, the first two steps insert the canonical box before the
      first `</body>`. */
  lemma FreshInsert(html: string, i: int)
    requires Plain(html) && FirstAt(html, BodyClose, i)
    ensures EnsureSpan(Normalise(html)) == html[..i] + Canonical + html[i..]
  {
    SpanOpenNamesId(html);
    assert EnsureSpan(html) == html[..i] + Canonical + html[i..];
  }

  /** Without boxes, the first two steps insert the canonical box. */
  lemma FreshReset(html: string, i: int)
    requires Plain(html) && FirstAt(html, BodyClose, i)
    ensures EnsureSpan(Normalise(html)) == html[..i] + (Region("0") + html[i..])
  {
    FreshInsert(html, i);
    Regroup(html[..i], Canonical, html[i..]);
  }

  /** The inserted box then gets the count. */
  lemma FreshUpdate(html: string, i: int, c: string)
    requires Plain(html) && 0 <= i <= |html|
    ensures UpdateCount(html[..i] + (Region("0") + html[i..]), c) == html[..i] + Region(c) + html[i..]
  {
    PlainSplit(html, i);
    UpdateOne(html[..i], "0", html[i..], c);
    Regroup(html[..i], Region(c), html[i..]);
  }

  /** The patch of a page without boxes, before its verdict. */
  lemma FreshPipeline(html: string, c: string, i: int)
    requires Plain(html) && FirstAt(html, BodyClose, i)
    ensures UpdateCount(EnsureSpan(Normalise(html)), c) == html[..i] + Region(c) + html[i..]
  {
    FreshReset(html, i);
    FreshUpdate(html, i, c);
  }

  /** Inserting non-empty text changes a page. */
  lemma InsertionChanges(html: string, i: int, r: string)
    requires 0 <= i <= |html| && r != []
    ensures html[..i] + r + html[i..] != html
  {
    assert |html[..i] + r + html[i..]| == |html| + |r|;
  }

  /** A page without any citation box: with `</body>`, the patch inserts a
      box showing `c` right before the first `</body>` and reports a change. */
  lemma PatchFreshAt(html: string, c: string, i: int)
    requires Plain(html) && FirstAt(html, BodyClose, i) && CountText(c)
    ensures Patch(html, c) == (html[..i] + Region(c) + html[i..], true)
  {
    FreshPipeline(html, c, i);
    InsertionChanges(html, i, Region(c));
  }

  /** A page without any citation box: the patch inserts a box showing `c`
      before the first `</body>` and reports a change, or, without a
      `</body>`, leaves the page alone and reports none. */
  lemma PatchFresh(html: string, c: string)
    requires Plain(html) && CountText(c)
    ensures !Contains(html, BodyClose) ==> Patch(html, c) == (html, false)
    ensures forall i :: FirstAt(html, BodyClose, i) ==> Patch(html, c) == (html[..i] + Region(c) + html[i..], true)
  {
    if !Contains(html, BodyClose) {
    }
    forall i | FirstAt(html, BodyClose, i)
      ensures Patch(html, c) == (html[..i] + Region(c) + html[i..], true)
    {
      PatchFreshAt(html, c, i);
    }
  }

  /** A page with one box between plain texts keeps its span through the
      first two steps. */
  lemma OneBoxReset(a: string, x: string, b: string)
    requires Plain(a) && Plain(b) && '<' !in x
    ensures EnsureSpan(Normalise(a + (Region(x) + b))) == a + (Region("0") + b)
  {
    NormaliseOne(a, x, b);
    RegionHasSpan(a, "0", b);
  }

  /** Updating a page whose one box was reset. It is UpdateOne at count 0,
      kept apart so that OneBoxPipeline need not prove `CountText("0")`
      among its own, larger facts. */
  lemma UpdateOneReset(a: string, b: string, c: string)
    requires Plain(a) && Plain(b)
    ensures UpdateCount(a + (Region("0") + b), c) == a + (Region(c) + b)
  {
    UpdateOne(a, "0", b, c);
  }

  lemma OneBoxPipeline(a: string, b: string, c: string)
    requires Plain(a) && Plain(b) && CountText(c)
    ensures UpdateCount(EnsureSpan(Normalise(a + (Region(c) + b))), c) == a + (Region(c) + b)
  {
    OneBoxReset(a, c, b);
    UpdateOneReset(a, b, c);
  }

  /** A page with one box between plain texts, showing `c`, is left alone
      by a run with `c`. */
  lemma OneBoxStable(a: string, b: string, c: string)
    requires Plain(a) && Plain(b) && CountText(c)
    ensures Patch(a + (Region(c) + b), c) == (a + (Region(c) + b), false)
  {
    OneBoxPipeline(a, b, c);
  }

  /** The page a first run makes from a page without boxes is one a second
      run leaves alone. */
  lemma PatchFreshIdempotent(html: string, c: string, i: int)
    requires Plain(html) && FirstAt(html, BodyClose, i) && CountText(c)
    ensures var out := Patch(html, c).0;
            Patch(out, c) == (out, false)
  {
    PatchFreshAt(html, c, i);
    PlainSplit(html, i);
    OneBoxStable(html[..i], html[i..], c);
    Regroup(html[..i], Region(c), html[i..]);
  }

  // ===========================================================================
  // The span update on any page
  // ===========================================================================

  /** No span opening starts inside another one. */
  lemma NoOpeningInsideOpening(t: string)
    requires OccursAt(t, SpanOpen, 0)
    ensures forall j :: 0 < j < |SpanOpen| ==> !OccursAt(t, SpanOpen, j)
  {
    TagChars();
    OccursPart(t, SpanOpen, 0, 1, |SpanOpen|);
    forall j | 0 < j < |SpanOpen| ensures !OccursAt(t, SpanOpen, j) {
      OccursChar(t, SpanOpen, j, 0);
      assert t[1..|SpanOpen|][j - 1] == t[j];
    }
  }

  /** No span match starts where no span opening does. */
  lemma NoSpanMatchAt(t: string, j: int)
    requires 0 <= j <= |t| && !OccursAt(t, SpanOpen, j)
    ensures MatchLen(CountSpan, t[j..]).None?
  {
    SpanMatchOpens(t[j..]);
    OccursSuffix(t, j, SpanOpen);
    assert !OccursAt(t, SpanOpen, j + 0);
  }

  /** A span opening that is not the start of a match is copied whole. */
  lemma UnmatchedOpeningCopied(t: string, r: string)
    requires OccursAt(t, SpanOpen, 0) && MatchLen(CountSpan, t).None?
    ensures Sub(CountSpan, r, t) == SpanOpen + Sub(CountSpan, r, t[|SpanOpen|..])
  {
    var m := MatchOf(CountSpan);
    NoOpeningInsideOpening(t);
    forall j | 0 <= j < |SpanOpen| ensures m(t[j..]).None? {
      if j == 0 {
        assert t[0..] == t;
      } else {
        NoSpanMatchAt(t, j);
      }
    }
    SubSkip(m, r, t, |SpanOpen|);
    assert t[..|SpanOpen|] == SpanOpen;
  }

  /** A span match at the start is replaced by a span with the count. */
  lemma UpdateAtMatch(t: string, c: string, n: nat)
    requires MatchLen(CountSpan, t) == Some(n)
    ensures UpdateCount(t, c) == SpanOpen + (c + SpanClose + UpdateCount(t[n..], c))
  {
    var u := UpdateCount(t[n..], c);
    SubAtMatch(MatchOf(CountSpan), SpanOpen + c + SpanClose, t, n);
    Regroup(SpanOpen, c, SpanClose);
    Regroup(SpanOpen, c + SpanClose, u);
  }

  /** Text that starts with a span opening still does after the update. */
  lemma UpdateFromOpening(t: string, c: string)
    requires OccursAt(t, SpanOpen, 0)
    ensures Contains(UpdateCount(t, c), SpanOpen)
  {
    match MatchLen(CountSpan, t)
    case Some(n) =>
      UpdateAtMatch(t, c, n);
      ContainsInside([], SpanOpen, c + SpanClose + UpdateCount(t[n..], c));
      assert [] + (SpanOpen + (c + SpanClose + UpdateCount(t[n..], c))) == UpdateCount(t, c);
    case None =>
      UnmatchedOpeningCopied(t, SpanOpen + c + SpanClose);
      ContainsInside([], SpanOpen, UpdateCount(t[|SpanOpen|..], c));
      assert [] + (SpanOpen + UpdateCount(t[|SpanOpen|..], c)) == UpdateCount(t, c);
  }

  /** Text before the first span opening is copied by the span update. */
  lemma UpdateBeforeFirstSpan(html: string, c: string, j: nat)
    requires FirstAt(html, SpanOpen, j)
    ensures UpdateCount(html, c) == html[..j] + UpdateCount(html[j..], c)
  {
    assert html == html[..j] + html[j..];
    NoCountSpanWithoutOpening(html[..j], html[j..]);
    SubPrefix(MatchOf(CountSpan), SpanOpen + c + SpanClose, html[..j], html[j..]);
  }

  lemma ContainsAfter(a: string, u: string, w: string)
    requires Contains(u, w)
    ensures Contains(a + u, w)
  {
    OccursAppend(a, u, w);
    assert OccursAt(a + u, w, |a| + Find(u, w).value);
  }

  /** The span update keeps the first span opening. */
  lemma UpdateKeepsFirstSpan(html: string, c: string, j: nat)
    requires FirstAt(html, SpanOpen, j)
    ensures Contains(UpdateCount(html, c), SpanOpen)
  {
    UpdateBeforeFirstSpan(html, c, j);
    OccursSuffix(html, j, SpanOpen);
    UpdateFromOpening(html[j..], c);
    ContainsAfter(html[..j], UpdateCount(html[j..], c), SpanOpen);
  }

  /** The span update keeps a page with a span opening one with a span
      opening, and adds none to a page without one. */
  lemma UpdateKeepsSpan(html: string, c: string)
    ensures Contains(UpdateCount(html, c), SpanOpen) <==> Contains(html, SpanOpen)
  {
    if Contains(html, SpanOpen) {
      UpdateKeepsFirstSpan(html, c, Find(html, SpanOpen).value);
    }
  }

  // ===========================================================================
  // Pages whose citation boxes are in any shape
  // ===========================================================================

  /** A citation box as the repair pass sees it: one whole match of the
      container pattern, whatever its whitespace, label, content or nesting. */
  predicate Box(b: string) {
    MatchLen(Container, b) == Some(|b|)
  }

  /** The page `texts[0]`, `boxes[0]`, `texts[1]`, …, `texts[|boxes|]`. */
  function Interleave(texts: seq<string>, boxes: seq<string>): string
    requires |texts| == |boxes| + 1
    decreases |boxes|
  {
    if boxes == [] then texts[0]
    else texts[0] + (boxes[0] + Interleave(texts[1..], boxes[1..]))
  }

  /** Entry `i` of `boxes` is a box. */
  predicate BoxAt(boxes: seq<string>, i: int) {
    0 <= i < |boxes| && Box(boxes[i])
  }

  /** The texts are plain and every box is a whole container match. */
  predicate Boxed(texts: seq<string>, boxes: seq<string>) {
    |texts| == |boxes| + 1
    && (forall i :: 0 <= i < |texts| ==> Plain(texts[i]))
    && (forall i :: 0 <= i < |boxes| ==> BoxAt(boxes, i))
  }

  lemma BoxedTail(texts: seq<string>, boxes: seq<string>)
    requires Boxed(texts, boxes) && boxes != []
    ensures Boxed(texts[1..], boxes[1..])
  {
    assert forall i :: 0 <= i < |texts| - 1 ==> texts[1..][i] == texts[i + 1];
    forall i | 0 <= i < |boxes| - 1 ensures BoxAt(boxes[1..], i) {
      assert BoxAt(boxes, i + 1) && boxes[1..][i] == boxes[i + 1];
    }
  }

  /** Text after a box does not change where the box's match ends: the
      box already holds the first `</div>` after its opening tag. */
  lemma BoxMatchIn(b: string, rest: string)
    requires Box(b)
    ensures MatchLen(Container, b + rest) == Some(|b|)
  {
    ContainerMatchSound(b, |b|);
    var a :| IsContainerMatchWith(b, a, |b|);
    var s := b + rest;
    forall i, w | 0 <= i && i + |w| <= |b|
      ensures OccursAt(s, w, i) <==> OccursAt(b, w, i)
    {
      assert s[i..i + |w|] == b[i..i + |w|];
    }
    assert s[4..a] == b[4..a];
    ContainerMatchComplete(s, a, |b|);
  }

  /** A box starts with the `<` of its opening tag. */
  lemma BoxStartsTag(b: string)
    requires Box(b)
    ensures b != [] && b[0] == '<'
  {
    ContainerMatchSound(b, |b|);
    var a :| IsContainerMatchWith(b, a, |b|);
    TagChars();
    assert b[0] == b[0..4][0];
  }

  /** The canonical box showing a count without `<` is a box. */
  lemma RegionIsBox(x: string)
    requires '<' !in x
    ensures Box(Region(x))
  {
    ContainerMatchesRegion(x, []);
    assert Region(x) + [] == Region(x);
  }

  /** Normalising replaces the first box by the canonical one. */
  lemma NormaliseBox(t: string, b: string, rest: string)
    requires Plain(t) && Box(b)
    ensures Normalise(t + (b + rest)) == t + (Canonical + Normalise(rest))
  {
    BoxStartsTag(b);
    NoMatchInPlainText(Container, t, b + rest);
    SubPrefix(MatchOf(Container), Canonical, t, b + rest);
    BoxMatchIn(b, rest);
    SubMatchFirst(MatchOf(Container), Canonical, b, rest);
  }

  /** Normalising resets every box, whatever its shape, to the canonical one
      and keeps the texts between them. */
  lemma {:induction false} NormaliseBoxes(texts: seq<string>, boxes: seq<string>)
    requires Boxed(texts, boxes)
    ensures Normalise(Interleave(texts, boxes)) == Assemble(texts, Fill("0", |boxes|))
    decreases |boxes|
  {
    if boxes == [] {
    } else {
      assert BoxAt(boxes, 0);
      NormaliseBox(texts[0], boxes[0], Interleave(texts[1..], boxes[1..]));
      BoxedTail(texts, boxes);
      NormaliseBoxes(texts[1..], boxes[1..]);
      AssembleFill(texts, "0", |boxes|);
    }
  }

  /** A page of canonical boxes showing `c` is a page of boxes. */
  lemma {:induction false} AssembleFillInterleave(texts: seq<string>, c: string, n: nat)
    requires |texts| == n + 1
    ensures Assemble(texts, Fill(c, n)) == Interleave(texts, Fill(Region(c), n))
    decreases n
  {
    if n > 0 {
      AssembleFill(texts, c, n);
      assert Fill(Region(c), n)[1..] == Fill(Region(c), n - 1);
      AssembleFillInterleave(texts[1..], c, n - 1);
    }
  }

  /** Around the same plain texts, different boxes give different pages:
      the container match at the start of a box fixes where it ends. */
  lemma {:induction false} InterleaveInjective(texts: seq<string>, a: seq<string>, b: seq<string>)
    requires Boxed(texts, a) && Boxed(texts, b)
    ensures Interleave(texts, a) == Interleave(texts, b) ==> a == b
    decreases |a|
  {
    if a != [] && Interleave(texts, a) == Interleave(texts, b) {
      var ra := Interleave(texts[1..], a[1..]);
      var rb := Interleave(texts[1..], b[1..]);
      CancelPrefix(texts[0], a[0] + ra, b[0] + rb);
      assert BoxAt(a, 0) && BoxAt(b, 0);
      BoxMatchIn(a[0], ra);
      BoxMatchIn(b[0], rb);
      assert |a[0]| == |b[0]|;
      assert a[0] == (a[0] + ra)[..|a[0]|] && b[0] == (b[0] + rb)[..|b[0]|];
      CancelPrefix(a[0], ra, rb);
      BoxedTail(texts, a);
      BoxedTail(texts, b);
      InterleaveInjective(texts[1..], a[1..], b[1..]);
      assert a == [a[0]] + a[1..] && b == [b[0]] + b[1..];
    }
  }

  /** Plain texts around boxes all showing one count are a page with
      well-formed boxes. */
  lemma FillBoxedManaged(texts: seq<string>, boxes: seq<string>, c: string)
    requires Boxed(texts, boxes) && CountText(c)
    ensures Managed(texts, Fill(c, |boxes|))
  {
  }

  /** The first two steps reset every box, whatever its shape, and insert nothing. */
  lemma ResetBoxes(texts: seq<string>, boxes: seq<string>)
    requires Boxed(texts, boxes) && boxes != []
    ensures EnsureSpan(Normalise(Interleave(texts, boxes))) == Assemble(texts, Fill("0", |boxes|))
  {
    NormaliseBoxes(texts, boxes);
    AssembleHasSpan(texts, Fill("0", |boxes|));
  }

  /** The span update writes `c` into boxes that were reset. */
  lemma UpdateZeros(texts: seq<string>, n: nat, c: string)
    requires |texts| == n + 1 && forall i :: 0 <= i < |texts| ==> Plain(texts[i])
    ensures UpdateCount(Assemble(texts, Fill("0", n)), c) == Assemble(texts, Fill(c, n))
  {
    var zero := Fill("0", n);
    assert |zero| == n && Managed(texts, zero);
    UpdateManaged(texts, zero, c);
  }

  /** The patch of a page with boxes in any shape, before its verdict. */
  lemma PatchBoxesText(texts: seq<string>, boxes: seq<string>, c: string)
    requires Boxed(texts, boxes) && boxes != []
    ensures UpdateCount(EnsureSpan(Normalise(Interleave(texts, boxes))), c) == Assemble(texts, Fill(c, |boxes|))
  {
    ResetBoxes(texts, boxes);
    UpdateZeros(texts, |boxes|, c);
  }

  /** Whether a page with boxes is already the patched page. */
  lemma BoxesUpToDate(texts: seq<string>, boxes: seq<string>, c: string)
    requires Boxed(texts, boxes) && CountText(c)
    ensures Interleave(texts, boxes) == Assemble(texts, Fill(c, |boxes|)) <==> boxes == Fill(Region(c), |boxes|)
  {
    var n := |boxes|;
    AssembleFillInterleave(texts, c, n);
    RegionIsBox(c);
    assert forall i :: 0 <= i < n ==> BoxAt(Fill(Region(c), n), i);
    InterleaveInjective(texts, boxes, Fill(Region(c), n));
  }

  /** On a page whose boxes are in any shape (extra whitespace in the tag, a
      missing label or span, stale content, a nested `<div>` whose remainder
      stays in the following text), the patch repairs every box to the
      canonical one showing `c` and keeps the texts between them. It reports
      a change exactly when some box was not already that canonical box, and
      a second run with `c` changes nothing and reports no change. */
  lemma PatchBoxes(texts: seq<string>, boxes: seq<string>, c: string)
    requires Boxed(texts, boxes) && boxes != [] && CountText(c)
    ensures Patch(Interleave(texts, boxes), c)
            == (Assemble(texts, Fill(c, |boxes|)), boxes != Fill(Region(c), |boxes|))
    ensures var out := Assemble(texts, Fill(c, |boxes|));
            Patch(out, c) == (out, false)
  {
    var filled := Fill(c, |boxes|);
    assert |filled| == |boxes|;
    PatchBoxesText(texts, boxes, c);
    BoxesUpToDate(texts, boxes, c);
    FillBoxedManaged(texts, boxes, c);
    PatchManaged(texts, filled, c);
  }
}
