/** The evaluation screen's session state (app/evaluate/page.jsx): the list of marks a
    grader has placed, the currently selected question and mark, the blank pages, and the
    operations that change them. The marks list is kept free of duplicate question
    numbers by a guarded upsert: a click drops the selected question's old entry and
    appends the new one. */
module Evaluation {
  import opened Wrappers
  import opened Sequences

  /** Mark options offered by the marks panel: 0 to 10. */
  const MinMark: int := 0
  const MaxMark: int := 10

  /** Alert text of a submit with nothing to submit. */
  const NoDataMessage: string := "No evaluation data to submit. Please mark at least one question."

  /** Where a mark was placed: x and y are percentages of the page's width and height,
      treated as opaque values. */
  datatype Coordinates = Coordinates(x: real, y: real, pageNumber: int)

  /** One placed mark. The timestamp is an opaque ISO string supplied by the caller. */
  datatype Entry = Entry(questionNumber: int, marks: int, coordinates: Coordinates, timestamp: string)

  /** The body sent to the submit endpoint. */
  datatype SubmitPayload = SubmitPayload(
    subject: string,
    rollNumber: string,
    evaluationData: seq<Entry>,
    blankPages: seq<int>,
    totalQuestions: int,
    submittedAt: string)

  /** Some entry of the list records question `q`. */
  predicate HasEntryFor(data: seq<Entry>, q: int) {
    exists i :: 0 <= i < |data| && data[i].questionNumber == q
  }

  /** No two entries record the same question. */
  predicate DistinctQuestions(data: seq<Entry>) {
    forall i, j :: 0 <= i < j < |data| ==> data[i].questionNumber != data[j].questionNumber
  }

  /** The question lies in 1..totalQuestions and the mark in MinMark..MaxMark. */
  predicate EntryInRange(e: Entry, totalQuestions: int) {
    1 <= e.questionNumber <= totalQuestions && MinMark <= e.marks <= MaxMark
  }

  /** JavaScript truthiness of `selectedQuestion`: neither `null` nor 0. */
  predicate QuestionChosen(selectedQuestion: Option<int>) {
    selectedQuestion.Some? && selectedQuestion.value != 0
  }

  /** The guard of the click handler: a question is chosen, a mark is chosen (0 counts,
      only `null` does not) and the clicked page is not blank. */
  predicate ClickApplies(selectedQuestion: Option<int>, selectedMark: Option<int>,
                         blankPages: seq<int>, pageNumber: int)
  {
    QuestionChosen(selectedQuestion) && selectedMark.Some? && pageNumber !in blankPages
  }

  /** `prev.filter(item => item.questionNumber !== q)`. */
  function RemoveQuestion(data: seq<Entry>, q: int): seq<Entry> {
    Filter(data, (e: Entry) => e.questionNumber != q)
  }

  /** `[...filtered, newEvaluation]`: the marks list after a click that applies. */
  function Upsert(data: seq<Entry>, e: Entry): seq<Entry> {
    RemoveQuestion(data, e.questionNumber) + [e]
  }

  /** The new entry is the last element and the only one for its question; everything
      before it is the old list with that question's entries dropped, in the old order. */
  lemma UpsertShape(data: seq<Entry>, e: Entry)
    ensures var r := Upsert(data, e);
      |r| > 0 && r[|r| - 1] == e &&
      (forall i :: 0 <= i < |r| && r[i].questionNumber == e.questionNumber ==> i == |r| - 1) &&
      IsSubsequence(r[..|r| - 1], data)
  {
    var r := Upsert(data, e);
    var rest := RemoveQuestion(data, e.questionNumber);
    assert r[..|r| - 1] == rest;
    forall i | 0 <= i < |r| - 1 ensures r[i].questionNumber != e.questionNumber {
      assert r[i] == rest[i] && rest[i] in rest;
    }
  }

  /** Membership after an upsert: the new entry, and the old entries of other questions. */
  lemma UpsertMembers(data: seq<Entry>, e: Entry)
    ensures forall x :: x in Upsert(data, e) <==>
      x == e || (x in data && x.questionNumber != e.questionNumber)
  {
  }

  /** Entries of other questions keep their multiplicity, and the selected question is
      left with exactly the new entry. */
  lemma UpsertKeepsOthers(data: seq<Entry>, e: Entry)
    ensures forall x: Entry :: x.questionNumber != e.questionNumber ==>
      multiset(Upsert(data, e))[x] == multiset(data)[x]
    ensures multiset(Upsert(data, e))[e] == 1
    ensures forall x: Entry :: x.questionNumber == e.questionNumber && x != e ==>
      multiset(Upsert(data, e))[x] == 0
  {
    var rest := RemoveQuestion(data, e.questionNumber);
    assert multiset(Upsert(data, e)) == multiset(rest) + multiset{e};
  }

  /** The tail of a duplicate-free list is duplicate-free and does not mention the head's
      question. */
  lemma DistinctTail(data: seq<Entry>)
    requires data != [] && DistinctQuestions(data)
    ensures DistinctQuestions(data[1..])
    ensures forall x :: x in data[1..] ==> x.questionNumber != data[0].questionNumber
  {
    var tail := data[1..];
    forall i, j | 0 <= i < j < |tail| ensures tail[i].questionNumber != tail[j].questionNumber {
      assert tail[i] == data[i + 1] && tail[j] == data[j + 1];
    }
    forall x | x in tail ensures x.questionNumber != data[0].questionNumber {
      var m :| 0 <= m < |tail| && tail[m] == x;
      assert tail[m] == data[m + 1];
    }
  }

  /** Prepending an entry whose question the list does not mention keeps it duplicate-free. */
  lemma DistinctCons(h: Entry, rest: seq<Entry>)
    requires DistinctQuestions(rest)
    requires forall x :: x in rest ==> x.questionNumber != h.questionNumber
    ensures DistinctQuestions([h] + rest)
  {
    var r := [h] + rest;
    forall i, j | 0 <= i < j < |r| ensures r[i].questionNumber != r[j].questionNumber {
      assert r[j] == rest[j - 1];
      if i > 0 {
        assert r[i] == rest[i - 1];
      } else {
        assert rest[j - 1] in rest;
      }
    }
  }

  /** Removing a question's entries from a duplicate-free list leaves it duplicate-free. */
  lemma {:induction false} RemoveQuestionDistinct(data: seq<Entry>, q: int)
    requires DistinctQuestions(data)
    ensures DistinctQuestions(RemoveQuestion(data, q))
  {
    if data != [] {
      var tail := data[1..];
      DistinctTail(data);
      RemoveQuestionDistinct(tail, q);
      var rest := RemoveQuestion(tail, q);
      if data[0].questionNumber != q {
        assert RemoveQuestion(data, q) == [data[0]] + rest;
        DistinctCons(data[0], rest);
      } else {
        assert RemoveQuestion(data, q) == rest;
      }
    }
  }

  /** An upsert keeps a duplicate-free list duplicate-free. */
  lemma UpsertPreservesDistinct(data: seq<Entry>, e: Entry)
    requires DistinctQuestions(data)
    ensures DistinctQuestions(Upsert(data, e))
  {
    RemoveQuestionDistinct(data, e.questionNumber);
    UpsertShape(data, e);
  }

  /** The entries of a duplicate-free list lose at most one entry for a question: one
      if the question was marked, none otherwise. */
  lemma {:induction false} RemoveQuestionLength(data: seq<Entry>, q: int)
    requires DistinctQuestions(data)
    ensures |RemoveQuestion(data, q)| == if HasEntryFor(data, q) then |data| - 1 else |data|
  {
    if data != [] {
      var tail := data[1..];
      DistinctTail(data);
      RemoveQuestionLength(tail, q);
      if data[0].questionNumber == q {
        assert !HasEntryFor(tail, q) by {
          forall i | 0 <= i < |tail| ensures tail[i].questionNumber != q {
            assert tail[i] == data[i + 1];
          }
        }
        assert HasEntryFor(data, q);
      } else {
        assert HasEntryFor(data, q) == HasEntryFor(tail, q) by {
          if HasEntryFor(data, q) {
            var i :| 0 <= i < |data| && data[i].questionNumber == q;
            assert tail[i - 1] == data[i];
          }
          if HasEntryFor(tail, q) {
            var i :| 0 <= i < |tail| && tail[i].questionNumber == q;
            assert data[i + 1] == tail[i];
          }
        }
      }
    }
  }

  /** The list grows by one entry when the question was not yet marked, and keeps its
      length when the click replaces the question's mark. */
  lemma UpsertLength(data: seq<Entry>, e: Entry)
    requires DistinctQuestions(data)
    ensures |Upsert(data, e)| == if HasEntryFor(data, e.questionNumber) then |data| else |data| + 1
  {
    RemoveQuestionLength(data, e.questionNumber);
  }

  /** `reduce((total, item) => total + item.marks, acc)`: a left fold over the list. */
  function FoldMarks(acc: int, data: seq<Entry>): int
    decreases |data|
  {
    if data == [] then acc else FoldMarks(acc + data[0].marks, data[1..])
  }

  /** `getTotalMarks`: the fold started at 0. */
  function TotalMarks(data: seq<Entry>): int {
    FoldMarks(0, data)
  }

  /** Reference definition of the total: the sum of the entries' marks. */
  function SumMarks(data: seq<Entry>): int {
    if data == [] then 0 else data[0].marks + SumMarks(data[1..])
  }

  /** The fold adds the list's marks to its starting value. */
  lemma {:induction false} FoldMarksIsSum(acc: int, data: seq<Entry>)
    ensures FoldMarks(acc, data) == acc + SumMarks(data)
    decreases |data|
  {
    if data != [] {
      FoldMarksIsSum(acc + data[0].marks, data[1..]);
    }
  }

  /** The total is the sum of the marks. */
  lemma TotalMarksIsSum(data: seq<Entry>)
    ensures TotalMarks(data) == SumMarks(data)
  {
    FoldMarksIsSum(0, data);
  }

  lemma {:induction false} SumMarksAppend(a: seq<Entry>, b: seq<Entry>)
    ensures SumMarks(a + b) == SumMarks(a) + SumMarks(b)
  {
    if a == [] {
      assert a + b == b;
    } else {
      assert (a + b)[1..] == a[1..] + b;
      SumMarksAppend(a[1..], b);
    }
  }

  /** Reference helper of the proofs about the total: the marks of the first entry for
      `q`, or 0 when the question is not marked. */
  function MarkOf(data: seq<Entry>, q: int): int {
    if data == [] then 0
    else if data[0].questionNumber == q then data[0].marks
    else MarkOf(data[1..], q)
  }

  /** Dropping a question's entries from a duplicate-free list lowers the sum by that
      question's previous mark. */
  lemma {:induction false} RemoveQuestionSum(data: seq<Entry>, q: int)
    requires DistinctQuestions(data)
    ensures SumMarks(RemoveQuestion(data, q)) == SumMarks(data) - MarkOf(data, q)
  {
    if data != [] {
      var tail := data[1..];
      DistinctTail(data);
      if data[0].questionNumber == q {
        assert forall i :: 0 <= i < |tail| ==> tail[i].questionNumber != q by {
          forall i | 0 <= i < |tail| ensures tail[i].questionNumber != q {
            assert tail[i] == data[i + 1];
          }
        }
        FilterKeepsAll(tail, (e: Entry) => e.questionNumber != q);
        assert RemoveQuestion(data, q) == tail;
      } else {
        RemoveQuestionSum(tail, q);
        assert RemoveQuestion(data, q) == [data[0]] + RemoveQuestion(tail, q);
        SumMarksAppend([data[0]], RemoveQuestion(tail, q));
      }
    }
  }

  /** An upsert changes the total by the new mark minus the question's previous mark
      (0 when it had none). */
  lemma UpsertTotal(data: seq<Entry>, e: Entry)
    requires DistinctQuestions(data)
    ensures TotalMarks(Upsert(data, e)) == TotalMarks(data) - MarkOf(data, e.questionNumber) + e.marks
  {
    var rest := RemoveQuestion(data, e.questionNumber);
    RemoveQuestionSum(data, e.questionNumber);
    SumMarksAppend(rest, [e]);
    TotalMarksIsSum(data);
    TotalMarksIsSum(Upsert(data, e));
  }

  /** With every mark in MinMark..MaxMark the total lies between 0 and MaxMark per entry. */
  lemma {:induction false} TotalMarksBounds(data: seq<Entry>)
    requires forall i :: 0 <= i < |data| ==> MinMark <= data[i].marks <= MaxMark
    ensures 0 <= TotalMarks(data) <= MaxMark * |data|
  {
    TotalMarksIsSum(data);
    SumMarksBounds(data);
  }

  lemma {:induction false} SumMarksBounds(data: seq<Entry>)
    requires forall i :: 0 <= i < |data| ==> MinMark <= data[i].marks <= MaxMark
    ensures 0 <= SumMarks(data) <= MaxMark * |data|
  {
    if data != [] {
      assert forall i :: 0 <= i < |data[1..]| ==> data[1..][i] == data[i + 1];
      SumMarksBounds(data[1..]);
    }
  }

  /** The empty-list guard of the submit handler: with no entries it refuses with the
      alert text; otherwise it produces the payload sent to the endpoint. */
  function PrepareSubmission(subject: string, rollNumber: string, data: seq<Entry>,
                             blankPages: seq<int>, totalQuestions: int,
                             submittedAt: string): (r: Result<SubmitPayload, string>)
    ensures r.Failure? <==> |data| == 0
    ensures r.Failure? ==> r.error == NoDataMessage
    ensures r.Success? ==>
      r.value.subject == subject && r.value.rollNumber == rollNumber &&
      r.value.evaluationData == data && r.value.blankPages == blankPages &&
      r.value.totalQuestions == totalQuestions && r.value.submittedAt == submittedAt
  {
    if |data| == 0 then Failure(NoDataMessage)
    else Success(SubmitPayload(subject, rollNumber, data, blankPages, totalQuestions, submittedAt))
  }

  /** The session's state fields, updated in place by the handlers. */
  class EvaluationSession {
    var totalQuestions: nat
    var selectedQuestion: Option<int>
    var selectedMark: Option<int>
    var evaluationData: seq<Entry>
    var blankPages: seq<int>
    var showPageSelection: bool

    /** The state the handlers keep: one entry per question, every entry and selection
        within the question and mark ranges. */
    ghost predicate Valid()
      reads this
    {
      DistinctQuestions(evaluationData) &&
      (forall e | e in evaluationData :: EntryInRange(e, totalQuestions)) &&
      (selectedQuestion.Some? ==> 1 <= selectedQuestion.value <= totalQuestions) &&
      (selectedMark.Some? ==> MinMark <= selectedMark.value <= MaxMark)
    }

    /** The session once the answer sheet has been opened: nothing selected, no marks,
        no blank pages, and the blank-page popup showing. */
    constructor (totalQuestions: nat)
      ensures Valid()
      ensures this.totalQuestions == totalQuestions
      ensures selectedQuestion == None && selectedMark == None
      ensures evaluationData == [] && blankPages == [] && showPageSelection
    {
      this.totalQuestions := totalQuestions;
      selectedQuestion := None;
      selectedMark := None;
      evaluationData := [];
      blankPages := [];
      showPageSelection := true;
    }

    /** `onQuestionSelect(q)` from a question button. */
    method SelectQuestion(q: int)
      requires Valid() && 1 <= q <= totalQuestions
      modifies this
      ensures Valid()
      ensures selectedQuestion == Some(q)
      ensures selectedMark == old(selectedMark) && evaluationData == old(evaluationData)
      ensures blankPages == old(blankPages) && totalQuestions == old(totalQuestions)
      ensures showPageSelection == old(showPageSelection)
    {
      selectedQuestion := Some(q);
    }

    /** `onMarkSelect(m)` from a mark button. */
    method SelectMark(m: int)
      requires Valid() && MinMark <= m <= MaxMark
      modifies this
      ensures Valid()
      ensures selectedMark == Some(m)
      ensures selectedQuestion == old(selectedQuestion) && evaluationData == old(evaluationData)
      ensures blankPages == old(blankPages) && totalQuestions == old(totalQuestions)
      ensures showPageSelection == old(showPageSelection)
    {
      selectedMark := Some(m);
    }

    /** `handlePDFClick(x, y, pageNumber)`: when the guard holds, upsert the entry for the
        selected question and clear both selections; otherwise change nothing. */
    method HandlePDFClick(x: real, y: real, pageNumber: int, timestamp: string)
      requires Valid()
      modifies this
      ensures Valid()
      ensures blankPages == old(blankPages) && totalQuestions == old(totalQuestions)
      ensures showPageSelection == old(showPageSelection)
      ensures if ClickApplies(old(selectedQuestion), old(selectedMark), old(blankPages), pageNumber)
        then
          evaluationData == Upsert(old(evaluationData),
            Entry(old(selectedQuestion).value, old(selectedMark).value,
                  Coordinates(x, y, pageNumber), timestamp)) &&
          selectedQuestion == None && selectedMark == None
        else
          evaluationData == old(evaluationData) &&
          selectedQuestion == old(selectedQuestion) && selectedMark == old(selectedMark)
    {
      if ClickApplies(selectedQuestion, selectedMark, blankPages, pageNumber) {
        var newEvaluation := Entry(selectedQuestion.value, selectedMark.value,
                                   Coordinates(x, y, pageNumber), timestamp);
        UpsertPreservesDistinct(evaluationData, newEvaluation);
        UpsertMembers(evaluationData, newEvaluation);
        evaluationData := Upsert(evaluationData, newEvaluation);
        selectedQuestion := None;
        selectedMark := None;
      }
    }

    /** `onBlankPagesChange(pages)`, i.e. `setBlankPages`: only the blank pages change;
        in particular no mark is removed from a page that has just become blank. */
    method SetBlankPages(pages: seq<int>)
      requires Valid()
      modifies this
      ensures Valid()
      ensures blankPages == pages
      ensures evaluationData == old(evaluationData)
      ensures selectedQuestion == old(selectedQuestion) && selectedMark == old(selectedMark)
      ensures totalQuestions == old(totalQuestions) && showPageSelection == old(showPageSelection)
    {
      blankPages := pages;
    }

    /** `onClose` of the blank-page popup: hide it and change nothing else. */
    method ClosePageSelection()
      requires Valid()
      modifies this
      ensures Valid()
      ensures !showPageSelection
      ensures blankPages == old(blankPages) && evaluationData == old(evaluationData)
      ensures selectedQuestion == old(selectedQuestion) && selectedMark == old(selectedMark)
      ensures totalQuestions == old(totalQuestions)
    {
      showPageSelection := false;
    }
  }
}
