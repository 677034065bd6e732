# Citation matrix updater, modelled in Dafny

`update_citation_matrix.py` keeps the citation count on a personal web page
current. It reads the count from a Google Scholar profile page. It then
patches the page's HTML in three steps:

1. every `<div id="citation-matrix">…</div>` box is rewritten to a canonical
   box showing `0`;
2. if no `<span id="citation_count">` is left, a canonical box is inserted
   before the first `</body>`;
3. the text of every `<span id="citation_count">…</span>` is replaced by the
   count.

The file is rewritten, and the call reports `True`, only when the result
differs from what was read.

This project models that core as pure functions over strings and proves what
the patch does to a page.

- `text.dfy` (module `Text`): the Python string operations the script uses.
  These are `in`, `strip`, `isdigit` and `replace(…, 1)`. `Find`, the index of
  the first occurrence, is the helper behind `in` and `replace(…, 1)`.
- `patterns.dfy` (module `Patterns`): the two regular expressions, written as
  the length of the match at the start of a string. `re.sub` is a scan from
  left to right that replaces non-overlapping matches. The module also proves
  that each scanner finds exactly the text its pattern describes. The lazy
  `.*?` stops at the first closing tag: DOTALL for the box, same line only
  for the span.
- `citation_matrix.dfy` (module `CitationMatrix`):
  - the count decision of `fetch_citation_data_google`;
  - the three patch steps;
  - `Patch`, which returns the new page and the changed flag;
  - `FixAndUpdate`, whose result says whether the file changed and what was
    written.
- `patch_properties.dfy` (module `PatchProperties`): theorems about the whole
  patch.
  - A *boxed* page is text without either id, interleaved with boxes in any
    shape, each one whole match of the box pattern. On such a page the patch
    repairs every box to the canonical one showing the count and keeps
    everything else. A second run changes nothing.
  - A *managed* page is the special case whose boxes are already canonical.
    There the changed flag says exactly whether some box showed another count.
  - On a page that names neither id and has a `</body>`, the patch inserts
    one box before the first `</body>`. Without a `</body>` the page is
    left unchanged and no change is reported.
  - On any page the span update keeps the presence of a span opening.
- `patch_examples.dfy` (module `PatchExamples`): concrete pages.
  - An empty page gets filled.
  - A page that is already up to date is left alone.
  - Two boxes are both updated.
  - Two pages show the limits of the regular expressions:
    - nested spans merge into one;
    - an unclosed box makes the patch non-idempotent.

## Model

| member | source | states |
|---|---|---|
| CitationMatrix.FetchCitationCount | update_citation_matrix.py:25-35 | A non-200 status or a missing element gives "Error". Otherwise the result is the stripped text when it is a non-empty run of digits, and "Error" exactly when it is not. |
| CitationMatrix.FetchUnavailableExamples | update_citation_matrix.py:25-35 | A 404 response and a 200 response without the element both give "Error". |
| CitationMatrix.FetchMalformedExamples | update_citation_matrix.py:32-34 | An empty element and "1,234" (a thousands separator) give "Error". |
| CitationMatrix.FetchPaddedExample | update_citation_matrix.py:33-34 | " 1234\n" is stripped to the count "1234". |
| CitationMatrix.FetchedCountIsCountText | update_citation_matrix.py:25-35 | Every count the fetch yields has no `<` and no line break, which is what the later proofs need. |
| Text.Strip | update_citation_matrix.py:33 | `strip()` returns the text after the leading whitespace run, followed only by whitespace, and it neither starts nor ends with whitespace. |
| Text.StripAround | update_citation_matrix.py:33 | Stripping text padded with whitespace on both sides gives the text back. |
| Text.Find | update_citation_matrix.py:57-58 | The result is the index of the first occurrence of the word, or None exactly when it occurs nowhere. `Contains`, Python's `in`, is `Find` succeeding. |
| Text.IsDigitStringExamples | update_citation_matrix.py:34 | `isdigit()` accepts "0" and "1234" and rejects "", "-1", "1,234", "12 3" and "12a". |
| Text.ReplaceFirstMeaning | update_citation_matrix.py:58-62 | `replace(t, r, 1)` leaves a text without `t` unchanged. Otherwise it replaces exactly the first occurrence. |
| Patterns.MatchLen | update_citation_matrix.py:50-66 | The scanners for the two patterns (`DivOpening` reads the box's opening tag): a match is never empty and never longer than the text. Its exact extent is stated by ContainerMatchMeaning and CountSpanMatchMeaning. |
| Patterns.Sub | update_citation_matrix.py:49-54 | `re.sub` with one of the two patterns returns a text that never names the pattern's id unchanged. What it does around matches is stated by SubSkip, SubFirstMatch and SubWithoutMatch. |
| Patterns.ContainerMatchMeaning | update_citation_matrix.py:49-54 | The box scanner matches `s[..n]` exactly when `s[..n]` is `<div`, whitespace, `id="citation-matrix">`, anything, and then the first `</div>` after the tag. |
| Patterns.CountSpanMatchMeaning | update_citation_matrix.py:65-69 | The span scanner matches `s[..n]` exactly when `s[..n]` is the span opening, then text without a newline, then the first `</span>` after the opening. |
| Patterns.SubSkip | update_citation_matrix.py:49-54 | `re.sub` copies the text before the first match unchanged. |
| Patterns.SubFirstMatch | update_citation_matrix.py:65-69 | `re.sub` replaces the leftmost match and resumes scanning right after it. |
| Patterns.SubWithoutMatch | update_citation_matrix.py:49-54 | A text in which no match starts is returned unchanged. |
| CitationMatrix.Normalise | update_citation_matrix.py:49-54 | A page that never names `citation-matrix` comes back unchanged. NormaliseBoxes states what happens to each box. |
| CitationMatrix.EnsureSpan | update_citation_matrix.py:56-62 | A page with a span opening, or one without `</body>`, is unchanged. Otherwise the canonical box goes right before the first `</body>`. Afterwards the page has a span opening exactly when it had one or had a `</body>`. |
| CitationMatrix.UpdateCount | update_citation_matrix.py:65-69 | A page without a span opening comes back unchanged. UpdateManaged and UpdateKeepsSpan state what happens to spans. |
| CitationMatrix.Patch | update_citation_matrix.py:49-71 | The changed flag is true exactly when the patched page differs from the page read. |
| CitationMatrix.FixAndUpdate | update_citation_matrix.py:41-79 | A missing file gives False and nothing is written. Otherwise the patched page is written exactly when it differs from the file, and the result says whether it was written. |
| PatchProperties.BoxMatchIn | update_citation_matrix.py:50 | A box ends at its own first `</div>`, whatever text follows it. |
| PatchProperties.NormaliseBoxes | update_citation_matrix.py:49-54 | On a boxed page the box rewrite replaces every box, whatever its whitespace, label or content, by the box showing 0 and keeps the text around the boxes. |
| PatchProperties.InterleaveInjective | update_citation_matrix.py:71 | Two boxed pages with the same surrounding text are equal only when their boxes are equal. |
| PatchProperties.PatchBoxes | update_citation_matrix.py:49-73 | On a boxed page with at least one box, the result is the same text with the canonical box showing the count in place of every box. A change is reported exactly when some box was not already that box. A second run with the same count changes nothing and reports no change. |
| PatchProperties.NormaliseManaged | update_citation_matrix.py:49-54 | On a managed page the box rewrite resets every box to 0 and keeps all the text around the boxes. |
| PatchProperties.UpdateManaged | update_citation_matrix.py:65-69 | On a managed page the span update writes the count into every box and keeps everything else. |
| PatchProperties.AssembleInjective | update_citation_matrix.py:71 | Two managed pages with the same surrounding text are equal only when their counts are equal, so the changed flag compares counts. |
| PatchProperties.PatchManaged | update_citation_matrix.py:49-73 | On a managed page with at least one box, the result is the same page with the count in every box. The flag is true exactly when some box showed another count. |
| PatchProperties.PatchIdempotent | update_citation_matrix.py:49-73 | A second run with the same count on a managed page's output changes nothing and reports no change. |
| PatchProperties.PatchFresh | update_citation_matrix.py:49-73 | On a page without either id: with no `</body>` nothing changes and no change is reported; otherwise one box showing the count goes right before the first `</body>` and a change is reported. |
| PatchProperties.PatchFreshAt | update_citation_matrix.py:56-73 | The same insertion, stated for the index of the first `</body>`. |
| PatchProperties.PatchFreshIdempotent | update_citation_matrix.py:49-73 | A second run with the same count on the page the insertion produced changes nothing and reports no change. |
| PatchProperties.OneBoxStable | update_citation_matrix.py:49-73 | A page with one box already showing the count is left alone and no change is reported. |
| PatchProperties.UpdateKeepsSpan | update_citation_matrix.py:65-69 | After the span update the page has a span opening exactly when it had one before. |
| PatchExamples.EmptyPageExample | update_citation_matrix.py:49-73 | `<html><body></body></html>` with count 42 becomes the page with the box `Citations: <span id="citation_count">42</span>` before `</body>`, and a change is reported. |
| PatchExamples.EmptyPageFileExample | update_citation_matrix.py:41-79 | That page's file is rewritten with that result. A missing file gives False and is not written. |
| PatchExamples.UpToDateExample | update_citation_matrix.py:71-73 | A box already showing the count is not rewritten and the result is False. |
| PatchExamples.StaleBoxExample | update_citation_matrix.py:48-73 | `<div  id="citation-matrix">old</div>`, with two spaces in its tag and neither label nor span, becomes the canonical box showing the count, and a change is reported. |
| PatchExamples.NestedBoxExample | update_citation_matrix.py:48-73 | In a box with a nested `<div>`, the match ends at the inner `</div>`. That part becomes the canonical box showing the count, and the outer `</div>` stays after it. |
| PatchExamples.TwoBoxesPatched | update_citation_matrix.py:49-73 | Both of two adjacent boxes get the count. A change is reported exactly when either showed another count. |
| PatchExamples.NestedSpansMerge | update_citation_matrix.py:65-69 | A span opening followed by a second one before the `</span>` is one match, so the update leaves a single span. |
| PatchExamples.NotIdempotentOnUnclosedBox | update_citation_matrix.py:49-73 | A box opening without `</div>` before `</body>` gets a box inserted after it. A second run with the same count merges the two and again reports a change. |

## Left out

- The HTTP request, the User-Agent header and the HTML parser are left out. The response status and the text of the first `td.gsc_rsb_std` element are inputs.
- File I/O is left out. The file's existence and contents are inputs, and the write is the `written` field of the outcome. The contents are the text as Python's text-mode `read()` returns it, with `\r\n` and `\r` already turned into `\n`. A changed page is written back in text mode, so each `\n` becomes `os.linesep` (`\n` on Linux, `\r\n` on Windows). The model takes the page to be that translated text and does not model the translation. Given raw text with a `\r` inside a span, the model's span pattern would match across it, while the program, which sees a `\n` there, would not.
- The messages printed to the console are left out.
- The `__main__` block is left out: the environment lookup, the choice between sources, and the `git` commands. `fetch_citation_data_semantic`, called there, is neither defined nor imported in the script.
- The dictionary `{"citation_count": …}` is modelled as the count string alone.
- `IsSpace` and `IsDigit` cover only ASCII whitespace (plus the separators `\x1c`-`\x1f`) and the ASCII digits. Python's `strip()`, `isdigit()` and the regex class `\s` of the box pattern also accept other Unicode whitespace and digits. A box whose tag is separated by, say, U+00A0 is matched by the program but not by the model.
- The replacement template `\g<1>count\g<3>` is modelled as the literal span with the count. The counts the fetch yields contain no backslash, so no escape is ever interpreted. `CountText`, which every theorem about `Patch` requires of the count, excludes `\`, so those theorems cover only counts for which the literal reading and the template agree. The lemmas about the span update alone (UpdateManaged, UpdateAtMatch, UpdateKeepsSpan, NestedSpansMerge) take any count and describe the literal reading.
- PatchProperties.PatchIdempotent: idempotence is proved only for managed pages, for the output of boxed pages (PatchBoxes) and for the page the insertion produces (PatchFreshIdempotent). It does not hold for every page: NotIdempotentOnUnclosedBox shows a page where a second run changes the output again.
- PatchProperties.UpdateKeepsSpan: only the presence of a span opening is preserved, not the number of openings. NestedSpansMerge shows two openings becoming one.
- Duplicate boxes are not merged: the global `re.sub` rewrites each box where it stands and keeps all of them (TwoBoxesPatched).
