/** The PDF viewer (components/PDFViewer.jsx): page navigation clamped by the previous and
    next buttons, a reset to page 1 whenever the document changes, the gate on clicks
    (no marking on a blank page or without a selected question and mark), the overlay
    of the marks on the current page, and the highlight of the selected question's mark. */
module Viewer {
  import opened Wrappers
  import opened Sequences
  import opened Evaluation

  const NoUrlError: string := "no PDF URL provided."
  const LoadErrorPrefix: string := "PDF fail in loading pdf: "
  const UnknownError: string := "unknown error"

  /** `Math.max(1, prev - 1)`. */
  function PrevPage(page: int): (r: int)
    ensures r >= 1
    ensures page > 1 ==> r == page - 1
    ensures page <= 1 ==> r == 1
  {
    if page - 1 > 1 then page - 1 else 1
  }

  /** `Math.min(numPages, prev + 1)`. With no pages loaded this yields 0, which only the
      disabled next button keeps from happening. */
  function NextPage(page: int, numPages: int): (r: int)
    ensures r <= numPages
    ensures page < numPages ==> r == page + 1
    ensures page >= numPages ==> r == numPages
  {
    if numPages < page + 1 then numPages else page + 1
  }

  /** `disabled={pageNumber <= 1}`. */
  predicate PrevDisabled(page: int) {
    page <= 1
  }

  /** `disabled={pageNumber >= numPages}`. */
  predicate NextDisabled(page: int, numPages: int) {
    page >= numPages
  }

  /** Pressing an enabled button from a page within 1..numPages stays within 1..numPages
      and moves by exactly one page. */
  lemma EnabledButtonsStayInRange(page: int, numPages: int)
    requires 1 <= page <= numPages
    ensures !PrevDisabled(page) ==> 1 <= PrevPage(page) == page - 1 <= numPages
    ensures !NextDisabled(page, numPages) ==> 1 <= NextPage(page, numPages) == page + 1 <= numPages
  {
  }

  /** The next handler on its own, with no pages loaded, leaves page 0: the button being
      disabled (1 >= 0) is what prevents it. */
  lemma NextOnEmptyDocument(page: int)
    requires page >= 0
    ensures NextPage(page, 0) == 0
    ensures NextDisabled(page, 0)
  {
  }

  /** What a click on the page does: refuse it with an alert, or forward the click. */
  datatype ClickOutcome =
    | RejectedBlankPage
    | RejectedNoSelection
    | Forwarded(x: real, y: real, pageNumber: int)

  /** `handlePageClick`: the blank-page check comes first, then the selection check; an
      accepted click is forwarded with the current page number. */
  function ClickDecision(pageNumber: int, blankPages: seq<int>, selectedQuestion: Option<int>,
                         selectedMark: Option<int>, x: real, y: real): (r: ClickOutcome)
    ensures pageNumber in blankPages ==> r == RejectedBlankPage
    ensures pageNumber !in blankPages && (!QuestionChosen(selectedQuestion) || selectedMark.None?) ==>
      r == RejectedNoSelection
    ensures r.Forwarded? <==> ClickApplies(selectedQuestion, selectedMark, blankPages, pageNumber)
    ensures r.Forwarded? ==> r == Forwarded(x, y, pageNumber)
  {
    if pageNumber in blankPages then RejectedBlankPage
    else if !QuestionChosen(selectedQuestion) || selectedMark == None then RejectedNoSelection
    else Forwarded(x, y, pageNumber)
  }

  /** `evaluationData.filter(item => item.coordinates?.pageNumber === pageNumber)`. */
  function Overlay(data: seq<Entry>, pageNumber: int): (r: seq<Entry>)
    ensures IsSubsequence(r, data)
    ensures forall e :: e in r <==> e in data && e.coordinates.pageNumber == pageNumber
    ensures forall e :: multiset(r)[e] == (if e.coordinates.pageNumber == pageNumber then multiset(data)[e] else 0)
  {
    Filter(data, (e: Entry) => e.coordinates.pageNumber == pageNumber)
  }

  /** The overlay of the concatenation of two lists is the concatenation of their
      overlays, so the overlay keeps list order. */
  lemma OverlayAppend(a: seq<Entry>, b: seq<Entry>, pageNumber: int)
    ensures Overlay(a + b, pageNumber) == Overlay(a, pageNumber) + Overlay(b, pageNumber)
  {
    FilterAppend(a, b, (e: Entry) => e.coordinates.pageNumber == pageNumber);
  }

  /** After an upsert, the new mark shows on its own page, last, and on no other page. */
  lemma OverlayAfterUpsert(data: seq<Entry>, e: Entry, pageNumber: int)
    ensures Overlay(Upsert(data, e), pageNumber) ==
      Overlay(RemoveQuestion(data, e.questionNumber), pageNumber) +
      (if e.coordinates.pageNumber == pageNumber then [e] else [])
  {
    OverlayAppend(RemoveQuestion(data, e.questionNumber), [e], pageNumber);
  }

  /** `isCurrentSelected` in `getMarkStyles`: the mark of the selected question. */
  predicate IsHighlighted(selectedQuestion: Option<int>, item: Entry) {
    selectedQuestion.Some? && selectedQuestion.value == item.questionNumber
  }

  /** The entries drawn with the highlight style, in list order. */
  function Highlighted(data: seq<Entry>, selectedQuestion: Option<int>): seq<Entry> {
    Filter(data, (e: Entry) => IsHighlighted(selectedQuestion, e))
  }

  /** In a duplicate-free list at most one mark is highlighted. */
  lemma {:induction false} AtMostOneHighlighted(data: seq<Entry>, selectedQuestion: Option<int>)
    requires DistinctQuestions(data)
    ensures |Highlighted(data, selectedQuestion)| <= 1
  {
    if data != [] {
      var tail := data[1..];
      DistinctTail(data);
      AtMostOneHighlighted(tail, selectedQuestion);
    }
  }

  /** The viewer's state fields (zoom is not part of this model). */
  class PdfViewer {
    var pdfUrl: string
    var numPages: int
    var pageNumber: int
    var loading: bool
    var error: Option<string>

    /** The page number never falls below 1 as long as only the buttons, the load
        callbacks and document changes act on the viewer. */
    ghost predicate Valid()
      reads this
    {
      pageNumber >= 1 && numPages >= 0
    }

    /** Mounting: no pages known, page 1, and the effect on `pdfUrl` runs once. */
    constructor (pdfUrl: string)
      ensures Valid()
      ensures this.pdfUrl == pdfUrl && numPages == 0 && pageNumber == 1
      ensures pdfUrl == "" ==> loading && error == Some(NoUrlError)
      ensures pdfUrl != "" ==> !loading && error == None
    {
      this.pdfUrl := pdfUrl;
      numPages := 0;
      pageNumber := 1;
      if pdfUrl == "" {
        loading := true;
        error := Some(NoUrlError);
      } else {
        loading := false;
        error := None;
      }
    }

    /** The effect on `pdfUrl`: whenever the document changes the viewer returns to page 1;
        without a URL it also forgets the page count and reports an error. */
    method PdfUrlChanged(url: string)
      requires Valid()
      modifies this
      ensures Valid()
      ensures pdfUrl == url && pageNumber == 1
      ensures url == "" ==> numPages == 0 && loading && error == Some(NoUrlError)
      ensures url != "" ==> numPages == old(numPages) && !loading && error == None
    {
      pdfUrl := url;
      if url == "" {
        loading := true;
        error := Some(NoUrlError);
        numPages := 0;
        pageNumber := 1;
      } else {
        loading := false;
        error := None;
        pageNumber := 1;
      }
    }

    /** `onDocumentLoadSuccess`: the page count becomes known. */
    method OnDocumentLoadSuccess(loadedNumPages: nat)
      requires Valid()
      modifies this
      ensures Valid()
      ensures numPages == loadedNumPages && !loading && error == None
      ensures pdfUrl == old(pdfUrl) && pageNumber == old(pageNumber)
    {
      numPages := loadedNumPages;
      loading := false;
      error := None;
    }

    /** `onDocumentLoadError`: the error message, with a fallback when the error has none. */
    method OnDocumentLoadError(message: string)
      requires Valid()
      modifies this
      ensures Valid()
      ensures error == Some(LoadErrorPrefix + (if message == "" then UnknownError else message))
      ensures !loading
      ensures pdfUrl == old(pdfUrl) && pageNumber == old(pageNumber) && numPages == old(numPages)
    {
      error := Some(LoadErrorPrefix + (if message == "" then UnknownError else message));
      loading := false;
    }

    /** `goToPrevPage`. */
    method GoToPrevPage()
      requires Valid()
      modifies this
      ensures Valid()
      ensures pageNumber == PrevPage(old(pageNumber))
      ensures numPages == old(numPages) && pdfUrl == old(pdfUrl)
      ensures loading == old(loading) && error == old(error)
    {
      pageNumber := PrevPage(pageNumber);
    }

    /** `goToNextPage`, called directly: it can leave page 0 when no pages are loaded,
        so it does not promise `Valid()`. */
    method GoToNextPage()
      modifies this
      ensures pageNumber == NextPage(old(pageNumber), old(numPages))
      ensures numPages == old(numPages) && pdfUrl == old(pdfUrl)
      ensures loading == old(loading) && error == old(error)
    {
      pageNumber := NextPage(pageNumber, numPages);
    }

    /** The next button: a disabled button does not call its handler. */
    method PressNext()
      requires Valid()
      modifies this
      ensures Valid()
      ensures pageNumber ==
        if NextDisabled(old(pageNumber), numPages) then old(pageNumber) else old(pageNumber) + 1
      ensures numPages == old(numPages) && pdfUrl == old(pdfUrl)
      ensures loading == old(loading) && error == old(error)
    {
      if !NextDisabled(pageNumber, numPages) {
        GoToNextPage();
      }
    }

    /** The previous button: a disabled button does not call its handler. */
    method PressPrev()
      requires Valid()
      modifies this
      ensures Valid()
      ensures pageNumber ==
        if PrevDisabled(old(pageNumber)) then old(pageNumber) else old(pageNumber) - 1
      ensures numPages == old(numPages) && pdfUrl == old(pdfUrl)
      ensures loading == old(loading) && error == old(error)
    {
      if !PrevDisabled(pageNumber) {
        GoToPrevPage();
      }
    }

    /** The marks drawn over the page: none while the error card or the loading screen is
        shown (an error, loading, or no URL), otherwise the marks on the current page. */
    function VisibleMarks(data: seq<Entry>): (r: seq<Entry>)
      reads this
      ensures error.Some? || loading || pdfUrl == "" ==> r == []
      ensures error.None? && !loading && pdfUrl != "" ==>
        (forall e :: e in r <==> e in data && e.coordinates.pageNumber == pageNumber) &&
        (forall e :: multiset(r)[e] ==
          if e.coordinates.pageNumber == pageNumber then multiset(data)[e] else 0) &&
        IsSubsequence(r, data)
    {
      if error.Some? || loading || pdfUrl == "" then [] else Overlay(data, pageNumber)
    }

    /** `handlePageClick` wired to the session, which passes its blank pages and
        selections as props and its `handlePDFClick` as `onPDFClick`. A rejected click
        leaves the session as it was; a forwarded click carries the current page, passes
        the session's own guard and upserts the entry. The viewer itself is unchanged. */
    method HandlePageClick(session: EvaluationSession, x: real, y: real, timestamp: string)
      returns (outcome: ClickOutcome)
      requires session.Valid()
      modifies session
      ensures session.Valid()
      ensures outcome == ClickDecision(pageNumber, old(session.blankPages),
                                       old(session.selectedQuestion), old(session.selectedMark), x, y)
      ensures !outcome.Forwarded? ==>
        session.evaluationData == old(session.evaluationData) &&
        session.selectedQuestion == old(session.selectedQuestion) &&
        session.selectedMark == old(session.selectedMark)
      ensures outcome.Forwarded? ==>
        session.evaluationData == Upsert(old(session.evaluationData),
          Entry(old(session.selectedQuestion).value, old(session.selectedMark).value,
                Coordinates(x, y, pageNumber), timestamp)) &&
        session.selectedQuestion == None && session.selectedMark == None
      ensures session.blankPages == old(session.blankPages)
      ensures session.totalQuestions == old(session.totalQuestions)
      ensures session.showPageSelection == old(session.showPageSelection)
    {
      outcome := ClickDecision(pageNumber, session.blankPages, session.selectedQuestion,
                               session.selectedMark, x, y);
      if outcome.Forwarded? {
        session.HandlePDFClick(outcome.x, outcome.y, outcome.pageNumber, timestamp);
      }
    }
  }
}
