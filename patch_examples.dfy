/** Concrete pages and what the patch of update_citation_matrix.py makes of
    them: the page the updater is meant for, a page already up to date, two
    boxes, malformed boxes, and two pages that show the limits of the regular
    expressions. */
module PatchExamples {
  import opened Text
  import opened Patterns
  import opened CitationMatrix
  import opened PatchProperties

  /** `<html><body></body></html>`, cut where the box goes. */
  const EmptyPage: string := PageHead + PageTail
  const PageHead: string := "<html><body>"
  const PageTail: string := "</body></html>"

  lemma EmptyPagePlain()
    ensures Plain(EmptyPage)
  {
    assert '-' !in EmptyPage && '_' !in EmptyPage;
    LacksChar(EmptyPage, Marker(Container), 8);
    LacksChar(EmptyPage, Marker(CountSpan), 8);
  }

  /** The first `</body>` of the empty page is at 12. */
  lemma EmptyPageBody()
    ensures FirstAt(EmptyPage, BodyClose, 12)
  {
    assert EmptyPage[12..19] == PageTail[..7] == BodyClose;
    assert '/' !in PageHead;
    forall j | 0 <= j < 12 ensures !OccursAt(EmptyPage, BodyClose, j) {
      OccursChar(EmptyPage, BodyClose, j, 1);
      if j + 1 < 12 {
        assert EmptyPage[j + 1] == PageHead[j + 1];
      } else {
        assert EmptyPage[12] == PageTail[0];
      }
    }
  }

  /** `<html><body><div id="citation-matrix">Citations: <span id="citation_count">42</span></div></body></html>`,
      written tag by tag. */
  const FilledPage: string :=
    PageHead + "<div id=\"citation-matrix\">Citations: " + "<span id=\"citation_count\">"
    + "42" + "</span>" + "</div>" + PageTail

  lemma FilledPageSplit()
    ensures EmptyPage[..12] + Region("42") + EmptyPage[12..] == FilledPage
  {
    assert EmptyPage[..12] == PageHead;
    assert EmptyPage[12..] == PageTail;
    RegionHeadSpelled();
  }

  /** The box's head, built from its tags, spelt out. */
  lemma RegionHeadSpelled()
    ensures RegionHead == "<div id=\"citation-matrix\">Citations: "
  {
    assert DivOpenTag == "<div id=\"citation-matrix\">";
  }

  /** An empty page gets a box with the count before `</body>`. */
  lemma EmptyPageExample()
    ensures Patch(EmptyPage, "42") == (FilledPage, true)
  {
    EmptyPagePlain();
    EmptyPageBody();
    PatchFreshAt(EmptyPage, "42", 12);
    FilledPageSplit();
  }

  /** The file holding the empty page is rewritten; a missing file is not
      touched. */
  lemma EmptyPageFileExample()
    ensures FixAndUpdate(true, EmptyPage, "42") == Outcome(true, Some(FilledPage))
    ensures FixAndUpdate(false, EmptyPage, "42") == Outcome(false, None)
  {
    EmptyPageExample();
  }

  lemma EmptyIsPlain()
    ensures Plain("")
  {
    LacksChar("", Marker(Container), 0);
    LacksChar("", Marker(CountSpan), 0);
  }

  /** A page whose box already shows the count is not rewritten. */
  lemma UpToDateExample()
    ensures Patch(Region("42"), "42") == (Region("42"), false)
    ensures FixAndUpdate(true, Region("42"), "42") == Outcome(false, None)
  {
    EmptyIsPlain();
    OneBoxStable("", "", "42");
    assert "" + (Region("42") + "") == Region("42");
  }

  /** Two boxes with nothing around them. */
  lemma AssembleTwo(x: string, y: string)
    ensures Assemble(["", "", ""], [x, y]) == Region(x) + Region(y)
  {
    assert ["", "", ""][1..] == ["", ""] && [x, y][1..] == [y];
    assert ["", ""][1..] == [""] && [y][1..] == [];
    assert Assemble([""], []) == "";
    assert Assemble(["", ""], [y]) == "" + (Region(y) + "") == Region(y);
    assert Assemble(["", "", ""], [x, y]) == "" + (Region(x) + Region(y));
  }

  /** Two copies of a count, spelt out for the two-box page. */
  lemma FillTwo(c: string)
    ensures Fill(c, 2) == [c, c]
  {
  }

  /** Two pairs differ exactly when one of their entries does: this turns the
      flag of PatchManaged into a statement about the two counts. */
  lemma PairDiffers(x: string, y: string, c: string)
    ensures [x, y] != [c, c] <==> x != c || y != c
  {
    if [x, y] == [c, c] {
      assert [x, y][0] == x && [x, y][1] == y;
    }
  }

  lemma TwoBoxesManaged(x: string, y: string)
    requires CountText(x) && CountText(y)
    ensures Managed(["", "", ""], [x, y])
  {
    EmptyIsPlain();
  }

  /** Two adjacent boxes both get the count: the normalisation does not merge
      them, and a change is reported when either showed another count. */
  lemma TwoBoxesPatched(x: string, y: string, c: string)
    requires CountText(x) && CountText(y) && CountText(c)
    ensures Patch(Region(x) + Region(y), c) == (Region(c) + Region(c), x != c || y != c)
  {
    TwoBoxesManaged(x, y);
    PatchManaged(["", "", ""], [x, y], c);
    FillTwo(c);
    PairDiffers(x, y, c);
    AssembleTwo(x, y);
    AssembleTwo(c, c);
  }

  /** Boxes showing 3 and 4 both come to show 5. */
  lemma TwoBoxesExample()
    ensures Patch(Region("3") + Region("4"), "5") == (Region("5") + Region("5"), true)
  {
    TwoBoxesPatched("3", "4", "5");
  }

  /** `<div  id="citation-matrix">old</div>`: a box with two spaces in its
      tag, stale text, and neither label nor span. */
  const StaleBox: string := DivTag + "  " + DivIdAttr + "old" + DivClose

  lemma StaleBoxIsBox()
    ensures Box(StaleBox)
  {
    var s := StaleBox;
    TagChars();
    assert |s| == 36;
    assert s[..4] == DivTag && s[4..6] == "  " && s[6..27] == DivIdAttr && s[30..] == DivClose;
    assert s[27..30] == "old";
    forall j | 27 <= j < 30 ensures !OccursAt(s, DivClose, j) {
      OccursChar(s, DivClose, j, 0);
      assert s[j] == s[27..30][j - 27];
    }
    ContainerMatchComplete(s, 6, 36);
  }

  lemma PageEndsPlain()
    ensures Plain(PageHead) && Plain(PageTail)
  {
    assert '-' !in PageHead && '_' !in PageHead;
    assert '-' !in PageTail && '_' !in PageTail;
    LacksChar(PageHead, Marker(Container), 8);
    LacksChar(PageHead, Marker(CountSpan), 8);
    LacksChar(PageTail, Marker(Container), 8);
    LacksChar(PageTail, Marker(CountSpan), 8);
  }

  lemma StalePageParts()
    ensures Interleave([PageHead, PageTail], [StaleBox]) == PageHead + (StaleBox + PageTail)
    ensures Assemble([PageHead, PageTail], Fill("42", 1)) == FilledPage
    ensures [StaleBox] != Fill(Region("42"), 1)
  {
    assert [PageHead, PageTail][1..] == [PageTail];
    assert Fill("42", 1) == ["42"];
    assert |StaleBox| != |Region("42")|;
    assert [StaleBox][0] != Fill(Region("42"), 1)[0];
  }

  /** The repair pass rewrites a malformed box to the canonical one, which
      then gets the count; a change is reported. */
  lemma StaleBoxExample()
    ensures Patch(PageHead + (StaleBox + PageTail), "42") == (FilledPage, true)
  {
    StaleBoxIsBox();
    PageEndsPlain();
    assert Boxed([PageHead, PageTail], [StaleBox]);
    PatchBoxes([PageHead, PageTail], [StaleBox], "42");
    StalePageParts();
  }

  /** `<div id="citation-matrix"><div>x</div>`: the lazy match of a box with
      a nested `<div>` ends at the inner `</div>`. */
  const NestedBox: string := DivOpenTag + "<div>x" + DivClose

  lemma NestedBoxIsBox()
    ensures Box(NestedBox)
  {
    var s := NestedBox;
    TagChars();
    assert |s| == 38;
    assert s[..4] == DivTag && s[4..5] == " " && s[5..26] == DivIdAttr && s[32..] == DivClose;
    assert s[26..32] == "<div>x";
    forall j | 26 <= j < 32 ensures !OccursAt(s, DivClose, j) {
      if j == 26 {
        OccursChar(s, DivClose, j, 1);
        assert s[27] == s[26..32][1];
      } else {
        OccursChar(s, DivClose, j, 0);
        assert s[j] == s[26..32][j - 26];
      }
    }
    ContainerMatchComplete(s, 5, 38);
  }

  lemma NestedPageParts()
    ensures Plain(DivClose + PageTail)
    ensures Interleave([PageHead, DivClose + PageTail], [NestedBox]) == PageHead + (NestedBox + (DivClose + PageTail))
    ensures Assemble([PageHead, DivClose + PageTail], Fill("42", 1)) == PageHead + (Region("42") + (DivClose + PageTail))
    ensures [NestedBox] != Fill(Region("42"), 1)
  {
    var t := DivClose + PageTail;
    assert '-' !in t && '_' !in t;
    LacksChar(t, Marker(Container), 8);
    LacksChar(t, Marker(CountSpan), 8);
    assert [PageHead, t][1..] == [t];
    assert Fill("42", 1) == ["42"];
    assert |NestedBox| != |Region("42")|;
    assert [NestedBox][0] != Fill(Region("42"), 1)[0];
  }

  /** A box with a nested `<div>` is repaired up to the inner `</div>`; the
      outer `</div>` stays in the page after the canonical box. */
  lemma NestedBoxExample()
    ensures Patch(PageHead + (NestedBox + (DivClose + PageTail)), "42")
            == (PageHead + (Region("42") + (DivClose + PageTail)), true)
  {
    NestedBoxIsBox();
    PageEndsPlain();
    NestedPageParts();
    assert Boxed([PageHead, DivClose + PageTail], [NestedBox]);
    PatchBoxes([PageHead, DivClose + PageTail], [NestedBox], "42");
  }

  // ===========================================================================
  // Where the regular expressions fall short
  // ===========================================================================

  /** The first `</span>` after a span opening followed by `x` ends it. */
  lemma OpeningThenClose()
    ensures FindInLine((SpanOpen + "x") + SpanClose, SpanClose) == Some(|SpanOpen| + 1)
  {
    var u := SpanOpen + "x";
    TagChars();
    assert u[1..] == SpanOpen[1..] + "x";
    assert '\n' !in SpanOpen;
    NoStartInTag(u, SpanClose, SpanClose, 1);
    FindInLineIs(SpanClose, SpanClose, 0);
    FindInLineAppend(u, SpanClose, SpanClose);
  }

  /** Two span openings before one `</span>` are one match. */
  lemma NestedSpansMatch()
    ensures MatchLen(CountSpan, SpanOpen + ((SpanOpen + "x") + SpanClose))
            == Some(|SpanOpen + ((SpanOpen + "x") + SpanClose)|)
  {
    var s := SpanOpen + ((SpanOpen + "x") + SpanClose);
    assert s[..|SpanOpen|] == SpanOpen;
    assert s[|SpanOpen|..] == (SpanOpen + "x") + SpanClose;
    OpeningThenClose();
  }

  /** Two span openings before one `</span>` are a single match of the span
      pattern, so the update leaves one span where there were two openings. */
  lemma NestedSpansMerge(c: string)
    ensures UpdateCount(SpanOpen + ((SpanOpen + "x") + SpanClose), c) == SpanOpen + c + SpanClose
  {
    var s := SpanOpen + ((SpanOpen + "x") + SpanClose);
    NestedSpansMatch();
    SubAtMatch(MatchOf(CountSpan), SpanOpen + c + SpanClose, s, |s|);
    assert s[|s|..] == [];
  }

  /** A box opening whose `</div>` is missing: `<div id="citation-matrix">x`. */
  const Unclosed: string := DivOpenTag + "x"

  /** The page that holds only that opening before `</body>`. */
  const UnclosedPage: string := Unclosed + BodyClose

  lemma UnclosedShape()
    ensures Unclosed == DivOpenTag + "x"
    ensures Unclosed[0] == '<' && Unclosed[1] == 'd' && '<' !in Unclosed[1..]
  {
    assert Unclosed[1..] == DivTag[1..] + " " + DivIdAttr + "x";
  }

  /** No box match starts at the unclosed opening: no `</div>` follows it. */
  lemma UnclosedNoMatch()
    ensures MatchLen(Container, UnclosedPage).None?
  {
    UnclosedShape();
    DivOpeningOf("x" + BodyClose);
    assert UnclosedPage == DivOpenTag + ("x" + BodyClose);
    var t := UnclosedPage[26..];
    assert t == "x</body>";
    forall j | 0 <= j <= |t| - |DivClose| ensures !OccursAt(t, DivClose, j) {
      OccursChar(t, DivClose, j, 0);
      OccursChar(t, DivClose, j, 2);
    }
    FindNone(t, DivClose);
  }

  /** A closing `</body>` is copied by either substitution. */
  lemma SubBodyClose(p: Pattern, r: string)
    ensures Sub(p, r, BodyClose) == BodyClose
  {
    assert BodyClose[1..] == "/body>";
    SubEndTag(p, r, BodyClose, []);
    assert BodyClose + [] == BodyClose;
  }

  /** The first run finds nothing to normalise. */
  lemma UnclosedNormalise()
    ensures Normalise(UnclosedPage) == UnclosedPage
  {
    UnclosedShape();
    UnclosedNoMatch();
    SubTagThenText(Container, Canonical, Unclosed, BodyClose);
    SubBodyClose(Container, Canonical);
  }

  /** Without a span, the canonical box goes in before `</body>`. */
  lemma UnclosedInsert()
    ensures EnsureSpan(UnclosedPage) == Unclosed + Canonical + BodyClose
  {
    assert '_' !in UnclosedPage;
    LacksChar(UnclosedPage, SpanOpen, 18);
    UnclosedBody();
  }

  lemma UnclosedBody()
    ensures FirstAt(UnclosedPage, BodyClose, |Unclosed|)
    ensures UnclosedPage[..|Unclosed|] == Unclosed && UnclosedPage[|Unclosed|..] == BodyClose
  {
    UnclosedShape();
    assert UnclosedPage[|Unclosed|..|Unclosed| + |BodyClose|] == BodyClose;
    forall j | 0 <= j < |Unclosed| ensures !OccursAt(UnclosedPage, BodyClose, j) {
      OccursChar(UnclosedPage, BodyClose, j, 0);
      OccursChar(UnclosedPage, BodyClose, j, 1);
      if j > 0 {
        assert Unclosed[1..][j - 1] == UnclosedPage[j];
      }
    }
  }

  /** The first run then writes the count into the inserted box. */
  lemma UnclosedUpdate()
    ensures UpdateCount(Unclosed + (Canonical + BodyClose), "1") == Unclosed + (Region("1") + BodyClose)
  {
    UnclosedNoSpanMatch(Canonical + BodyClose);
    SubTagThenText(CountSpan, SpanOpen + "1" + SpanClose, Unclosed, Canonical + BodyClose);
    ResetBoxUpdate();
  }

  /** No span match starts at the unclosed opening. */
  lemma UnclosedNoSpanMatch(rest: string)
    ensures MatchLen(CountSpan, Unclosed + rest).None?
  {
    UnclosedShape();
    SpanMatchOpens(Unclosed + rest);
    OccursChar(Unclosed + rest, SpanOpen, 0, 1);
  }

  /** The reset box before `</body>` gets the count. */
  lemma ResetBoxUpdate()
    ensures UpdateCount(Canonical + BodyClose, "1") == Region("1") + BodyClose
  {
    UpdateRegion("0", "1", BodyClose);
    SubBodyClose(CountSpan, SpanOpen + "1" + SpanClose);
  }

  /** What the first run makes of the unclosed page. */
  const FirstRun: string := Unclosed + (Region("1") + BodyClose)

  lemma UnclosedFirstRun()
    ensures Patch(UnclosedPage, "1") == (FirstRun, true)
  {
    UnclosedNormalise();
    UnclosedInsert();
    Regroup(Unclosed, Canonical, BodyClose);
    UnclosedUpdate();
    assert |FirstRun| > |UnclosedPage|;
  }

  /** On the second run the unclosed opening reaches the box's `</div>`: the
      two make one match of the box pattern. */
  lemma FirstRunMatch()
    ensures MatchLen(Container, FirstRun) == Some(|Unclosed| + |Region("1")|)
  {
    var rest := "x" + (Region("1") + BodyClose);
    FirstRunShape();
    DivOpeningOf(rest);
    FirstRunTail();
  }

  lemma FirstRunShape()
    ensures FirstRun == DivOpenTag + ("x" + (Region("1") + BodyClose))
    ensures FirstRun[26..] == "x" + (Region("1") + BodyClose)
    ensures FirstRun[|Unclosed| + |Region("1")|..] == BodyClose
  {
    var tail := Region("1") + BodyClose;
    assert |DivOpenTag| == 26;
    Regroup(DivOpenTag, "x", tail);
    assert FirstRun[26..] == "x" + tail;
    Regroup(Unclosed, Region("1"), BodyClose);
    assert FirstRun[|Unclosed| + |Region("1")|..] == BodyClose;
  }

  /** The first `</div>` after the unclosed opening is the inserted box's. */
  lemma FirstRunTail()
    ensures Find("x" + (Region("1") + BodyClose), DivClose) == Some(1 + |Region("1")| - |DivClose|)
  {
    DivCloseOfRegion("1", BodyClose);
    NoStartWithout("x", Region("1") + BodyClose, DivClose);
    FindAppend("x", Region("1") + BodyClose, DivClose);
  }

  /** The second run's normalisation swallows the unclosed opening. */
  lemma FirstRunNormalise()
    ensures Normalise(FirstRun) == Canonical + BodyClose
  {
    var n := |Unclosed| + |Region("1")|;
    FirstRunMatch();
    SubAtMatch(MatchOf(Container), Canonical, FirstRun, n);
    FirstRunShape();
    SubBodyClose(Container, Canonical);
  }

  /** The second run inserts nothing: the reset box has its span. */
  lemma FirstRunRest()
    ensures EnsureSpan(Canonical + BodyClose) == Canonical + BodyClose
  {
    RegionHasSpan([], "0", BodyClose);
    assert [] + (Region("0") + BodyClose) == Canonical + BodyClose;
  }

  /** The patch is not idempotent on every page: a box opening without its
      `</div>` before `</body>` gets a box inserted after it on the first run,
      and the second run, with the same count, merges the two into one box
      and reports a change again. */
  lemma NotIdempotentOnUnclosedBox()
    ensures Patch(UnclosedPage, "1") == (FirstRun, true)
    ensures Patch(FirstRun, "1") == (Region("1") + BodyClose, true)
  {
    UnclosedFirstRun();
    FirstRunNormalise();
    FirstRunRest();
    ResetBoxUpdate();
    assert |FirstRun| > |Region("1") + BodyClose|;
  }
}
