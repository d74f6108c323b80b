# Answer-sheet evaluation: session bookkeeping in Dafny

This project models the in-memory bookkeeping of the answer-sheet evaluation screen.
A grader opens a scanned answer sheet and picks a question and a mark (0 to 10). Then
they click on a page of the PDF to place the mark. Pages can be flagged as blank before
grading. The full list of marks is submitted at the end.

The model has four parts. Each one follows one source file.

- `Evaluation` (`evaluation.dfy`, app/evaluate/page.jsx) covers the marks list. Each
  entry is a question number, marks, coordinates (x, y, page) and a timestamp. The
  `EvaluationSession` class holds the screen's state fields: the marks list, the
  selected question and mark, the blank pages, the number of questions, and whether the
  blank-page popup is showing.
  - A click is a guarded upsert keyed by question number. It drops the selected
    question's entry, appends the new one, and clears both selections.
  - The total is a left fold over the marks.
  - Submitting an empty list is refused.
  - The session invariant `Valid()` says: no two entries share a question number, and
    every entry and selection is within the question and mark ranges.
- `PageSelection` (`page_selection.dfy`, components/PageSelectionPopup.jsx) covers the
  blank-page popup. It works on a local copy of the session's blank pages. A tile click
  toggles one page: removal filters the page out, and addition appends it and sorts
  ascending. Save hands the copy to the session. Cancel and the close button discard it.
  Saving sets the session's blank pages and closes the popup; it removes no marks.
- `Viewer` (`pdf_viewer.dfy`, components/PDFViewer.jsx) covers the PDF viewer.
  - The previous and next handlers clamp the page, and their buttons are disabled at
    the ends.
  - A change of document resets the page to 1.
  - A page click is rejected on a blank page, or when no question or mark is selected.
    Otherwise it is forwarded to the session with the current page.
  - The overlay shows the marks of the current page, and the selected question's mark
    is highlighted.
- `QuestionPanel` (`question_panel.dfy`, components/QuestionPanel.jsx) is the pure,
  read-only side of the marks list. It builds buttons 1..totalQuestions, classifies each
  as selected, evaluated or plain, and shows an evaluated counter.

Two shared modules support them. `Sequences` (`sequences.dfy`) is JavaScript's `filter`
and a numeric ascending `sort` (an insertion sort), with their contracts. `Wrappers`
(`wrappers.dfy`) holds `Option` (for `null`) and `Result`.

How the model maps the source:

- React state setters become assignments to the class fields. Props passed from the
  evaluation screen become a reference to the session object.
- The two alerts of the page click (components/PDFViewer.jsx:76 and 82) become the
  outcome tags of `Viewer.ClickDecision`. The empty-submit alert (app/evaluate/page.jsx:143)
  becomes the `Failure(NoDataMessage)` of `Evaluation.PrepareSubmission`. The alerts of
  the loading and submit requests (app/evaluate/page.jsx:114, 171, 175 and 185) are left
  out with the network code.
- `selectedQuestion && …` is JavaScript truthiness. It is modelled as "not `null` and
  not 0" (`Evaluation.QuestionChosen`). A selected mark of 0 passes, because that test
  is `!== null`.
- The click coordinates are opaque `real` values. The timestamp is a string parameter.
  In the source it comes from the clock.
- The blank pages are kept as a list, not a set: the parent's list is copied as it is,
  removal keeps the order, and addition sorts the whole list.

## Model

| member | source | states |
|---|---|---|
| Evaluation.QuestionChosen | app/evaluate/page.jsx:122 | defined by its body: JavaScript truthiness of the selected question, neither `null` nor 0 |
| Evaluation.ClickApplies | app/evaluate/page.jsx:122 | defined by its body: the click guard (question chosen, mark not `null`, page not blank); `Viewer.ClickDecision` forwards exactly when it holds |
| Evaluation.RemoveQuestion | app/evaluate/page.jsx:131 | defined by its body as `Sequences.Filter` on other questions; characterised by `Evaluation.RemoveQuestionDistinct`, `Evaluation.RemoveQuestionLength` and `Evaluation.RemoveQuestionSum` |
| Evaluation.Upsert | app/evaluate/page.jsx:131-132 | defined by its body (filter, then append); characterised by `Evaluation.UpsertShape`, `Evaluation.UpsertMembers`, `Evaluation.UpsertKeepsOthers`, `Evaluation.UpsertLength` and `Evaluation.UpsertTotal` |
| Evaluation.UpsertShape | app/evaluate/page.jsx:129-132 | after an upsert the new entry is the last element and the only one for its question; the entries before it are a subsequence of the old list |
| Evaluation.UpsertMembers | app/evaluate/page.jsx:131-132 | an entry is in the new list iff it is the new entry or an old entry of another question |
| Evaluation.UpsertKeepsOthers | app/evaluate/page.jsx:131 | entries of other questions keep their multiplicity; the new entry occurs exactly once and no other entry of its question remains |
| Evaluation.RemoveQuestionDistinct | app/evaluate/page.jsx:131 | filtering out one question keeps a duplicate-free list duplicate-free |
| Evaluation.UpsertPreservesDistinct | app/evaluate/page.jsx:130-132 | if no question number occurred twice before the click, none does after it |
| Evaluation.RemoveQuestionLength | app/evaluate/page.jsx:131 | on a duplicate-free list the filter removes one entry if the question was marked, none otherwise |
| Evaluation.UpsertLength | app/evaluate/page.jsx:131-132 | the list grows by one when the question was not yet marked and keeps its length when it was |
| Evaluation.FoldMarks | app/evaluate/page.jsx:192 | defined by its body as the left fold of `reduce`; characterised by `Evaluation.FoldMarksIsSum` |
| Evaluation.TotalMarks | app/evaluate/page.jsx:191-193 | defined by its body as the fold from 0; characterised by `Evaluation.TotalMarksIsSum`, `Evaluation.UpsertTotal` and `Evaluation.TotalMarksBounds` |
| Evaluation.FoldMarksIsSum | app/evaluate/page.jsx:192 | the `reduce` fold from any starting value adds the sum of the entries' marks to that value |
| Evaluation.TotalMarksIsSum | app/evaluate/page.jsx:191-193 | the total is the sum of the entries' marks |
| Evaluation.RemoveQuestionSum | app/evaluate/page.jsx:131 | on a duplicate-free list, dropping a question lowers the sum by that question's previous mark (0 if unmarked) |
| Evaluation.UpsertTotal | app/evaluate/page.jsx:191-193 | an upsert changes the total by the new mark minus the question's previous mark (or 0) |
| Evaluation.TotalMarksBounds | components/MarksPanel.jsx:7 | with every mark in 0..10, the total lies between 0 and 10 times the number of entries |
| Evaluation.PrepareSubmission | app/evaluate/page.jsx:141-156 | submitting fails, with the alert text, exactly when the list is empty; otherwise the payload carries the subject, roll number, list, blank pages, question count and time unchanged |
| Evaluation.EvaluationSession.constructor | app/evaluate/page.jsx:20-29 | the fresh session has no selections, no marks and no blank pages, and shows the blank-page popup |
| Evaluation.EvaluationSession.SelectQuestion | app/evaluate/page.jsx:299 | selecting a question changes only `selectedQuestion` and keeps the invariant |
| Evaluation.EvaluationSession.SelectMark | app/evaluate/page.jsx:275 | selecting a mark changes only `selectedMark` and keeps the invariant |
| Evaluation.EvaluationSession.HandlePDFClick | app/evaluate/page.jsx:121-139 | if a question and a mark are selected and the page is not blank, the list becomes the upsert of the new entry and both selections become `null`; otherwise nothing changes; the invariant is kept |
| Evaluation.EvaluationSession.SetBlankPages | app/evaluate/page.jsx:311 | only the blank pages change; marks on newly blank pages are kept |
| Evaluation.EvaluationSession.ClosePageSelection | app/evaluate/page.jsx:312 | only the popup flag changes |
| PageSelection.RemovePage | components/PageSelectionPopup.jsx:52 | defined by its body as `Sequences.Filter`; characterised by `PageSelection.RemovePageShape` |
| PageSelection.AddPage | components/PageSelectionPopup.jsx:54 | defined by its body as `Sequences.Sort` of the appended list; characterised by `PageSelection.AddPageShape` |
| PageSelection.ToggleBlankPage | components/PageSelectionPopup.jsx:49-56 | defined by its body (remove if listed, add otherwise); characterised by `PageSelection.ToggleFlipsPage`, `PageSelection.ToggleKeepsOtherPages`, `PageSelection.TogglePreservesSortedDistinct`, `PageSelection.ToggleTwice` and `PageSelection.ToggleStaysInRange` |
| PageSelection.RemovePageShape | components/PageSelectionPopup.jsx:52 | removal drops every occurrence of the page and keeps the other pages, with their multiplicities, in order |
| PageSelection.AddPageShape | components/PageSelectionPopup.jsx:54 | addition yields an ascending list holding the old pages plus the new one |
| PageSelection.ToggleFlipsPage | components/PageSelectionPopup.jsx:49-56 | toggling p flips whether p is listed |
| PageSelection.ToggleKeepsOtherPages | components/PageSelectionPopup.jsx:49-56 | toggling p leaves the membership of every other page unchanged |
| PageSelection.TogglePreservesSortedDistinct | components/PageSelectionPopup.jsx:49-56 | on a sorted duplicate-free list, toggling keeps it sorted and duplicate-free |
| PageSelection.RemoveThenAdd | components/PageSelectionPopup.jsx:51-54 | for a listed page of a sorted duplicate-free list, removing then re-adding restores the list |
| PageSelection.AddThenRemove | components/PageSelectionPopup.jsx:51-54 | for an unlisted page of a sorted list, adding then removing restores the list |
| PageSelection.ToggleTwice | components/PageSelectionPopup.jsx:49-56 | on a sorted duplicate-free list, toggling the same page twice returns the original list |
| PageSelection.ToggleStaysInRange | components/PageSelectionPopup.jsx:127-137 | toggling a tile's page keeps a list of pages within 1..numPages inside that range |
| PageSelection.Tiles | components/PageSelectionPopup.jsx:127-129 | the tiles are pages 1..numPages in order, each blank exactly when its page is in the local list |
| PageSelection.PageSelectionPopup.constructor | components/PageSelectionPopup.jsx:10-32 | the local list starts as a copy of the session's blank pages, with no page count yet |
| PageSelection.PageSelectionPopup.PdfUrlChanged | components/PageSelectionPopup.jsx:17-32 | a document change resets the page count and keeps the local list |
| PageSelection.PageSelectionPopup.OnDocumentLoadSuccess | components/PageSelectionPopup.jsx:34-40 | the page count becomes the loaded one |
| PageSelection.PageSelectionPopup.TogglePage | components/PageSelectionPopup.jsx:137 | a tile click replaces the local list by its toggle and changes nothing else |
| PageSelection.PageSelectionPopup.VisibleTiles | components/PageSelectionPopup.jsx:114-129 | no tiles without a URL or before loading, otherwise tiles for pages 1..numPages |
| PageSelection.PageSelectionPopup.HandleSave | components/PageSelectionPopup.jsx:59-62 | save sets the session's blank pages to the local list and closes the popup; marks and selections are untouched |
| PageSelection.PageSelectionPopup.Cancel | components/PageSelectionPopup.jsx:166-167 | cancel or close hides the popup and leaves the session's blank pages unchanged |
| Viewer.PrevPage | components/PDFViewer.jsx:94 | the previous page is never below 1, and from p > 1 it is p - 1 |
| Viewer.NextPage | components/PDFViewer.jsx:95 | the next page never exceeds numPages; from p < numPages it is p + 1; otherwise it is numPages, which can be 0 |
| Viewer.PrevDisabled | components/PDFViewer.jsx:161 | defined by its body: the previous button is disabled at page 1 or below; used by `Viewer.PdfViewer.PressPrev` |
| Viewer.NextDisabled | components/PDFViewer.jsx:168 | defined by its body: the next button is disabled at numPages or beyond; used by `Viewer.PdfViewer.PressNext` |
| Viewer.EnabledButtonsStayInRange | components/PDFViewer.jsx:161-168 | from a page in 1..numPages an enabled button moves by exactly one page and stays in 1..numPages |
| Viewer.NextOnEmptyDocument | components/PDFViewer.jsx:168 | with no pages the next handler yields page 0, and the next button is disabled |
| Viewer.ClickDecision | components/PDFViewer.jsx:74-92 | a click on a blank page is rejected first; a click without a question or mark is rejected next; otherwise it is forwarded with the current page, exactly when the session's own guard holds |
| Viewer.Overlay | components/PDFViewer.jsx:223-224 | the overlay is the subsequence of entries whose page is the current page, with their multiplicities |
| Viewer.OverlayAppend | components/PDFViewer.jsx:223-224 | the overlay of a concatenation is the concatenation of the overlays, so list order is kept |
| Viewer.OverlayAfterUpsert | components/PDFViewer.jsx:223-224 | after a click the new mark appears last on its own page and on no other page |
| Viewer.IsHighlighted | components/PDFViewer.jsx:100 | defined by its body: a mark is highlighted when the selected question is not `null` and equals its question |
| Viewer.Highlighted | components/PDFViewer.jsx:100 | defined by its body as the entries passing `Viewer.IsHighlighted`, in list order; characterised by `Viewer.AtMostOneHighlighted` |
| Viewer.AtMostOneHighlighted | components/PDFViewer.jsx:100 | on a duplicate-free list at most one mark gets the highlight style |
| Viewer.PdfViewer.constructor | components/PDFViewer.jsx:36-37 | the viewer starts on page 1 with no pages known |
| Viewer.PdfViewer.PdfUrlChanged | components/PDFViewer.jsx:58-72 | whenever the document changes the page resets to 1; without a URL the count is reset and an error is shown |
| Viewer.PdfViewer.OnDocumentLoadSuccess | components/PDFViewer.jsx:42-50 | the page count becomes the loaded one and the error clears |
| Viewer.PdfViewer.OnDocumentLoadError | components/PDFViewer.jsx:52-56 | the error message is the prefix plus the error's message, or "unknown error" |
| Viewer.PdfViewer.GoToPrevPage | components/PDFViewer.jsx:94 | the page becomes the clamped previous page and stays at least 1 |
| Viewer.PdfViewer.GoToNextPage | components/PDFViewer.jsx:95 | the page becomes the clamped next page, with no lower bound |
| Viewer.PdfViewer.PressNext | components/PDFViewer.jsx:168 | the next button advances one page unless the page is at least numPages, when nothing happens |
| Viewer.PdfViewer.PressPrev | components/PDFViewer.jsx:161 | the previous button goes back one page unless the page is at most 1, when nothing happens |
| Viewer.PdfViewer.VisibleMarks | components/PDFViewer.jsx:138-224 | no marks are drawn while an error, loading or a missing URL is shown; otherwise the marks drawn are exactly those on the current page, in list order |
| Viewer.PdfViewer.HandlePageClick | components/PDFViewer.jsx:74-92 | a rejected click leaves the session's marks and selections unchanged; a forwarded click upserts the entry at the current page and clears both selections |
| QuestionPanel.IsQuestionEvaluated | components/QuestionPanel.jsx:10-12 | a question counts as evaluated iff some entry has its number |
| QuestionPanel.Classify | components/QuestionPanel.jsx:50-54 | selected overrides evaluated; evaluated styling applies only to unselected buttons |
| QuestionPanel.Button | components/QuestionPanel.jsx:33-64 | defined by its body: one button's variant, style and badge; characterised pointwise by `QuestionPanel.Buttons` |
| QuestionPanel.Buttons | components/QuestionPanel.jsx:31-66 | buttons are questions 1..totalQuestions in order; selected iff it is the selected question; evaluated iff not selected and marked; badge iff selected and not marked |
| QuestionPanel.ClickQuestion | components/QuestionPanel.jsx:56 | clicking button q selects question q, whose button then shows as selected; the marks, the mark selection, the blank pages, the question count and the popup flag stay as they were |
| QuestionPanel.QuestionSetSize | components/QuestionPanel.jsx:25 | a duplicate-free list holds as many distinct question numbers as entries |
| QuestionPanel.EvaluatedCounter | components/QuestionPanel.jsx:25 | defined by its body as the list length; characterised by `QuestionPanel.CounterMatchesEvaluatedQuestions` |
| QuestionPanel.CounterMatchesEvaluatedQuestions | components/QuestionPanel.jsx:25 | in a valid session the counter (list length) equals the number of evaluated questions and is at most totalQuestions |
| Sequences.Filter | app/evaluate/page.jsx:131 | `Array.prototype.filter`: the result is a subsequence of the input that holds every kept element exactly as often as the input does, no other element, and is no longer than the input |
| Sequences.Sort | components/PageSelectionPopup.jsx:54 | `sort((a, b) => a - b)`: the result is ascending and a permutation of the input |

## Left out

- Loading the answer sheet and any earlier evaluation (`loadEvaluationData`) is network
  I/O. The session constructor takes the number of questions and starts with no marks
  and no blank pages. Data loaded from the mock endpoints is not modelled, including
  the `|| 20` fallback.
- The submit request, its response handling, the `submitting` flag and the redirects
  are network and navigation. Only the empty-list guard and the payload are modelled.
- The disabled state of the submit button is presentation and is not modelled.
- The browser listeners are DOM event plumbing. These listeners block the context menu,
  the developer-tool shortcuts, text selection, and copy, cut, paste and drag.
- Zoom (`scale`, clamped to 0.5..2.0 in steps of 0.2) is floating point and is not part
  of the viewer model.
- The conversion of a click to percentages via `getBoundingClientRect` is floating
  point. The x and y values are opaque inputs.
- Alerts, loading spinners, the "ready to mark" and "select a question" banners, and the
  style objects of `getMarkStyles` are presentation. Only the highlight test of
  `getMarkStyles` is modelled.
- components/PdfRenderer.jsx is left out: its retry loop runs on `setTimeout` and
  remounts a foreign `Document` component.
- PageSelection.PageSelectionPopup: `pdfLoadError` is not modelled. The handlers only
  ever set it to `null`; `handlePdfLoadError`, the one place that would set a message,
  is commented out.
- Viewer.PdfViewer.Valid: the page stays at least 1 under the buttons, the load
  callbacks and document changes. It is not promised by `GoToNextPage` called directly,
  which can yield page 0 when no pages are loaded.
- Evaluation.TotalMarks: the total uses unbounded integers, while the source adds
  JavaScript numbers. The marks are small integers, so the sums are exact in both.
- The `console.log` and `console.error` calls in the evaluation screen, the viewer and
  the popup are debugging output and change no state, so they are left out.
- React renders state updates asynchronously and in batches. The model applies each
  handler's updates in sequence, reading the state as the handler saw it.
- app/page.jsx, app/home/page.jsx, app/layout.jsx, lib/pdf-worker-config.js and the
  routes under app/api/ are not part of this model. They are a hard-coded login,
  navigation, framework wiring and placeholder endpoints.
