/** The blank-page popup (components/PageSelectionPopup.jsx). It works on a local copy
    of the session's blank pages: clicking a page tile toggles that page (removal filters
    it out, addition appends it and sorts ascending); Save hands the copy back to the
    session, Cancel and the close button discard it. */
module PageSelection {
  import opened Sequences
  import opened Evaluation

  /** `prev.filter(p => p !== pageNumber)`. */
  function RemovePage(pages: seq<int>, p: int): seq<int> {
    Filter(pages, (x: int) => x != p)
  }

  /** `[...prev, pageNumber].sort((a, b) => a - b)`. */
  function AddPage(pages: seq<int>, p: int): seq<int> {
    Sort(pages + [p])
  }

  /** `toggleBlankPage`: remove the page if it is listed, add it otherwise. */
  function ToggleBlankPage(pages: seq<int>, p: int): seq<int> {
    if p in pages then RemovePage(pages, p) else AddPage(pages, p)
  }

  /** Removal drops every occurrence of the page and keeps the other pages, with their
      multiplicities, in their original order. */
  lemma RemovePageShape(pages: seq<int>, p: int)
    ensures p !in RemovePage(pages, p)
    ensures IsSubsequence(RemovePage(pages, p), pages)
    ensures multiset(RemovePage(pages, p)) == multiset(pages)[p := 0]
  {
    var r := RemovePage(pages, p);
    assert forall x :: multiset(r)[x] == multiset(pages)[p := 0][x];
  }

  /** Addition yields an ascending list holding the old pages and the new one. */
  lemma AddPageShape(pages: seq<int>, p: int)
    ensures SortedAscending(AddPage(pages, p))
    ensures multiset(AddPage(pages, p)) == multiset(pages) + multiset{p}
  {
    assert multiset(pages + [p]) == multiset(pages) + multiset{p};
  }

  /** Toggling a page flips whether it is listed. */
  lemma ToggleFlipsPage(pages: seq<int>, p: int)
    ensures p in ToggleBlankPage(pages, p) <==> p !in pages
  {
    if p !in pages {
      AddPageShape(pages, p);
      assert p in multiset(AddPage(pages, p));
    }
  }

  /** Toggling a page leaves the membership of every other page as it was. */
  lemma ToggleKeepsOtherPages(pages: seq<int>, p: int, q: int)
    requires q != p
    ensures q in ToggleBlankPage(pages, p) <==> q in pages
  {
    if p !in pages {
      AddPageShape(pages, p);
      assert q in AddPage(pages, p) <==> q in multiset(AddPage(pages, p));
      assert q in pages <==> q in multiset(pages);
    }
  }

  /** On a sorted, duplicate-free list, toggling keeps it sorted and duplicate-free. */
  lemma TogglePreservesSortedDistinct(pages: seq<int>, p: int)
    requires SortedAscending(pages) && NoDuplicates(pages)
    ensures SortedAscending(ToggleBlankPage(pages, p)) && NoDuplicates(ToggleBlankPage(pages, p))
  {
    var t := ToggleBlankPage(pages, p);
    if p in pages {
      RemovePageShape(pages, p);
      SubsequenceSorted(t, pages);
      forall x ensures multiset(t)[x] <= 1 {
        NoDuplicatesCount(pages, x);
      }
    } else {
      AddPageShape(pages, p);
      forall x ensures multiset(t)[x] <= 1 {
        NoDuplicatesCount(pages, x);
      }
    }
    CountNoDuplicates(t);
  }

  /** Re-adding a listed page after removing it restores a sorted, duplicate-free list. */
  lemma RemoveThenAdd(pages: seq<int>, p: int)
    requires SortedAscending(pages) && NoDuplicates(pages) && p in pages
    ensures AddPage(RemovePage(pages, p), p) == pages
  {
    var t := RemovePage(pages, p);
    NoDuplicatesCount(pages, p);
    RemovePageShape(pages, p);
    AddPageShape(t, p);
    assert multiset(t) + multiset{p} == multiset(pages);
    SortedUnique(AddPage(t, p), pages);
  }

  /** Removing a page just added to a sorted list without it restores the list. */
  lemma AddThenRemove(pages: seq<int>, p: int)
    requires SortedAscending(pages) && p !in pages
    ensures RemovePage(AddPage(pages, p), p) == pages
  {
    var t := AddPage(pages, p);
    AddPageShape(pages, p);
    var u := RemovePage(t, p);
    RemovePageShape(t, p);
    SubsequenceSorted(u, t);
    assert multiset(pages)[p] == 0;
    assert multiset(u) == multiset(pages);
    SortedUnique(u, pages);
  }

  /** On a sorted, duplicate-free list, toggling the same page twice gives back the
      original list. */
  lemma ToggleTwice(pages: seq<int>, p: int)
    requires SortedAscending(pages) && NoDuplicates(pages)
    ensures ToggleBlankPage(ToggleBlankPage(pages, p), p) == pages
  {
    ToggleFlipsPage(pages, p);
    if p in pages {
      RemoveThenAdd(pages, p);
    } else {
      AddThenRemove(pages, p);
    }
  }

  /** Tiles only offer pages 1..n, so toggling one of them keeps a list of pages within
      1..n within that range. */
  lemma ToggleStaysInRange(pages: seq<int>, p: int, n: int)
    requires forall x :: x in pages ==> 1 <= x <= n
    requires 1 <= p <= n
    ensures forall x :: x in ToggleBlankPage(pages, p) ==> 1 <= x <= n
  {
    forall x | x in ToggleBlankPage(pages, p) ensures 1 <= x <= n {
      if x != p {
        ToggleKeepsOtherPages(pages, p, x);
      }
    }
  }

  /** One page tile of the grid: its number and whether it shows as blank. */
  datatype Tile = Tile(pageNumber: int, isBlank: bool)

  /** `Array.from({ length: numPages }, (_, i) => i + 1)`, each tile marked blank when its
      page is in the local list. */
  function Tiles(numPages: nat, localBlankPages: seq<int>): (r: seq<Tile>)
    ensures |r| == numPages
    ensures forall i :: 0 <= i < |r| ==> r[i].pageNumber == i + 1
    ensures forall i :: 0 <= i < |r| ==> (r[i].isBlank <==> i + 1 in localBlankPages)
  {
    seq(numPages, i requires 0 <= i < numPages => Tile(i + 1, i + 1 in localBlankPages))
  }

  /** The popup's own state. */
  class PageSelectionPopup {
    var pdfUrl: string
    var numPages: nat
    var loading: bool
    var documentLoaded: bool
    var localBlankPages: seq<int>

    /** Mounting the popup: `useState([...blankPages])` copies the session's blank pages,
        and the effect on `pdfUrl` runs once. */
    constructor (pdfUrl: string, blankPages: seq<int>)
      ensures this.pdfUrl == pdfUrl && localBlankPages == blankPages
      ensures numPages == 0
      ensures documentLoaded == (pdfUrl != "") && loading == (pdfUrl == "")
    {
      this.pdfUrl := pdfUrl;
      localBlankPages := blankPages;
      numPages := 0;
      if pdfUrl != "" {
        loading := false;
        documentLoaded := true;
      } else {
        loading := true;
        documentLoaded := false;
      }
    }

    /** The effect on `pdfUrl`: the page count is reset, and the document counts as loaded
        exactly when there is a URL. The local blank pages are kept. */
    method PdfUrlChanged(url: string)
      modifies this
      ensures pdfUrl == url && numPages == 0
      ensures documentLoaded == (url != "") && loading == (url == "")
      ensures localBlankPages == old(localBlankPages)
    {
      pdfUrl := url;
      numPages := 0;
      if url != "" {
        loading := false;
        documentLoaded := true;
      } else {
        loading := true;
        documentLoaded := false;
      }
    }

    /** `onDocumentLoadSuccess`: the page count becomes known. */
    method OnDocumentLoadSuccess(loadedNumPages: nat)
      modifies this
      ensures numPages == loadedNumPages && !loading && documentLoaded
      ensures pdfUrl == old(pdfUrl) && localBlankPages == old(localBlankPages)
    {
      numPages := loadedNumPages;
      loading := false;
      documentLoaded := true;
    }

    /** A click on the tile of page `p`. */
    method TogglePage(p: int)
      modifies this
      ensures localBlankPages == ToggleBlankPage(old(localBlankPages), p)
      ensures pdfUrl == old(pdfUrl) && numPages == old(numPages)
      ensures loading == old(loading) && documentLoaded == old(documentLoaded)
    {
      localBlankPages := ToggleBlankPage(localBlankPages, p);
    }

    /** The tiles on screen: none without a URL (the "Missing PDF" card) or before the
        document is loaded, otherwise pages 1..numPages. */
    function VisibleTiles(): (r: seq<Tile>)
      reads this
      ensures pdfUrl == "" || !documentLoaded ==> r == []
      ensures pdfUrl != "" && documentLoaded ==>
        |r| == numPages && forall i :: 0 <= i < |r| ==> r[i] == Tile(i + 1, i + 1 in localBlankPages)
    {
      if pdfUrl == "" || !documentLoaded then [] else Tiles(numPages, localBlankPages)
    }

    /** `handleSave`: hand the local list to the session, then close the popup. The
        session's marks and selections are untouched. */
    method HandleSave(session: EvaluationSession)
      requires session.Valid()
      modifies session
      ensures session.Valid()
      ensures session.blankPages == localBlankPages && !session.showPageSelection
      ensures session.evaluationData == old(session.evaluationData)
      ensures session.selectedQuestion == old(session.selectedQuestion)
      ensures session.selectedMark == old(session.selectedMark)
      ensures session.totalQuestions == old(session.totalQuestions)
    {
      session.SetBlankPages(localBlankPages);
      session.ClosePageSelection();
    }

    /** Cancel, or the close button: close the popup and discard the local list. */
    method Cancel(session: EvaluationSession)
      requires session.Valid()
      modifies session
      ensures session.Valid()
      ensures !session.showPageSelection
      ensures session.blankPages == old(session.blankPages)
      ensures session.evaluationData == old(session.evaluationData)
      ensures session.selectedQuestion == old(session.selectedQuestion)
      ensures session.selectedMark == old(session.selectedMark)
      ensures session.totalQuestions == old(session.totalQuestions)
    {
      session.ClosePageSelection();
    }
  }
}
