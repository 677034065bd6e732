/** The citation updater of update_citation_matrix.py: the decision that turns
    a Google Scholar response into a citation count, and the patch that writes
    that count into the page's citation box.

    The HTTP request, the HTML parser and the file system are not modelled:
    the response status, the element the parser found and the file's
    existence and contents are inputs. */
module CitationMatrix {
  import opened Text
  import opened Patterns

  // ===========================================================================
  // Fetching the count
  // ===========================================================================

  /** The sentinel written when no count could be obtained. */
  const ErrorCount: string := "Error"

  /** `fetch_citation_data_google` after the request: `status` is the HTTP
      status code, `element` the text of the first `td.gsc_rsb_std` the parser
      found, if any. The count is that text, stripped, when it is all digits. */
  function FetchCitationCount(status: int, element: Option<string>): (r: string)
    ensures status != 200 || element.None? ==> r == ErrorCount
    ensures r != ErrorCount <==> status == 200 && element.Some? && IsDigitString(Strip(element.value))
    ensures r != ErrorCount ==> r == Strip(element.value) && IsDigitString(r)
  {
    if status != 200 then ErrorCount
    else
      match element
      case None => ErrorCount
      case Some(text) =>
        var t := Strip(text);
        if IsDigitString(t) then t else ErrorCount
  }

  /** Worked cases: a failed request and a missing element give the sentinel. */
  lemma FetchUnavailableExamples()
    ensures FetchCitationCount(404, Some("1234")) == ErrorCount
    ensures FetchCitationCount(200, None) == ErrorCount
  {
  }

  /** An empty element and a number with a thousands separator give the sentinel. */
  lemma FetchMalformedExamples()
    ensures FetchCitationCount(200, Some("")) == ErrorCount
    ensures FetchCitationCount(200, Some("1,234")) == ErrorCount
  {
    StripAllSpace("");
    StripAround("", "1,234", "");
    assert "" + "1,234" + "" == "1,234";
    assert !IsDigit("1,234"[1]);
  }

  /** Digits padded with whitespace give the digits. */
  lemma FetchPaddedExample()
    ensures FetchCitationCount(200, Some(" 1234\n")) == "1234"
  {
    StripAround(" ", "1234", "\n");
    assert " " + "1234" + "\n" == " 1234\n";
  }

  /** Every count the fetch produces is short text without a tag or a line break. */
  lemma FetchedCountIsCountText(status: int, element: Option<string>)
    ensures CountText(FetchCitationCount(status, element))
  {
    var r := FetchCitationCount(status, element);
    if r != ErrorCount {
      assert forall i :: 0 <= i < |r| ==> IsDigit(r[i]);
    }
  }

  // ===========================================================================
  // Patching the page
  // ===========================================================================

  /** The label between the box's opening tag and its span. */
  const Label: string := "Citations: "
  const RegionHead: string := DivOpenTag + Label
  const BodyClose: string := "</body>"

  /** The citation box showing `count`. */
  function Region(count: string): string {
    RegionHead + SpanOpen + count + SpanClose + DivClose
  }

  /** The box the repair pass writes, showing 0. */
  const Canonical: string := Region("0")

  /** Text a count may be: the fetch only yields digits or "Error", so a
      count has no tag, no line break and no backslash for the replacement
      template to read as an escape. */
  predicate CountText(c: string) {
    '<' !in c && '\n' !in c && '\\' !in c
  }

  /** Step 1: every `<div\s+id="citation-matrix">…</div>` becomes the canonical box. */
  function Normalise(html: string): (r: string)
    ensures !Contains(html, Marker(Container)) ==> r == html
  {
    Sub(Container, Canonical, html)
  }

  /** Step 2: without a count span, the canonical box goes in before the first
      `</body>`; without a `</body>` nothing happens. */
  function EnsureSpan(html: string): (r: string)
    ensures Contains(html, SpanOpen) ==> r == html
    ensures !Contains(html, BodyClose) ==> r == html
    ensures forall i :: FirstAt(html, BodyClose, i) && !Contains(html, SpanOpen) ==>
              r == html[..i] + Canonical + html[i..]
    ensures Contains(r, SpanOpen) <==> Contains(html, SpanOpen) || Contains(html, BodyClose)
  {
    if Contains(html, SpanOpen) then html
    else
      ReplaceFirstMeaning(html, BodyClose, Canonical + BodyClose);
      InsertBeforeBody(html);
      ReplaceFirst(html, BodyClose, Canonical + BodyClose)
  }

  /** Step 3: the content of every single-line count span becomes `count`. */
  function UpdateCount(html: string, count: string): (r: string)
    ensures !Contains(html, SpanOpen) ==> r == html
  {
    SubWithoutOpening(SpanOpen + count + SpanClose, html);
    Sub(CountSpan, SpanOpen + count + SpanClose, html)
  }

  /** `fix_and_update_citation_matrix` without the file: the new page and
      whether it differs from the old one. */
  function Patch(html: string, count: string): (r: (string, bool))
    ensures r.1 <==> r.0 != html
  {
    var updated := UpdateCount(EnsureSpan(Normalise(html)), count);
    (updated, updated != html)
  }

  /** What a call does to the file: whether it reports a change and what, if
      anything, it writes. */
  datatype Outcome = Outcome(changed: bool, written: Option<string>)

  /** `fix_and_update_citation_matrix` with the file's existence and contents
      as inputs: a missing file is reported as unchanged and nothing is read or
      written; otherwise the page is written exactly when the patch changed it. */
  function FixAndUpdate(fileExists: bool, html: string, count: string): (o: Outcome)
    ensures !fileExists ==> o == Outcome(false, None)
    ensures o.changed <==> o.written.Some?
    ensures o.written.Some? ==> o.written.value != html && o.written == Some(Patch(html, count).0)
    ensures fileExists && o.written.None? ==> Patch(html, count).0 == html
  {
    if !fileExists then Outcome(false, None)
    else
      var (updated, changed) := Patch(html, count);
      if changed then Outcome(true, Some(updated)) else Outcome(false, None)
  }

  // ===========================================================================
  // The citation box under the two patterns
  // ===========================================================================

  /** Replacing the first `</body>` by the box and `</body>` puts the box in
      front of it. */
  lemma InsertBeforeBody(html: string)
    ensures forall i :: FirstAt(html, BodyClose, i) ==>
      html[..i] + (Canonical + BodyClose) + html[i + |BodyClose|..] == html[..i] + Canonical + html[i..]
      && Contains(html[..i] + Canonical + html[i..], SpanOpen)
  {
    forall i | FirstAt(html, BodyClose, i)
      ensures html[..i] + (Canonical + BodyClose) + html[i + |BodyClose|..] == html[..i] + Canonical + html[i..]
      ensures Contains(html[..i] + Canonical + html[i..], SpanOpen)
    {
      assert html[i..] == BodyClose + html[i + |BodyClose|..];
      RegionHasSpan(html[..i], "0", html[i..]);
      assert html[..i] + (Region("0") + html[i..]) == html[..i] + Canonical + html[i..];
    }
  }

  /** The box holds a count span. */
  lemma RegionHasSpan(a: string, x: string, b: string)
    ensures Contains(a + (Region(x) + b), SpanOpen)
  {
    var tail := x + SpanClose + DivClose + b;
    var s := a + (Region(x) + b);
    assert s == (a + RegionHead) + (SpanOpen + tail) by {
      assert Region(x) + b == RegionHead + (SpanOpen + tail);
    }
    ContainsInside(a + RegionHead, SpanOpen, tail);
  }
}
