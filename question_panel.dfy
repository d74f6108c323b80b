/** The question panel (components/QuestionPanel.jsx): the read side of the session, one
    button per question 1..totalQuestions, styled as selected, evaluated or plain, and a
    counter of evaluated questions, plus the click that selects a question. */
module QuestionPanel {
  import opened Wrappers
  import opened Evaluation

  /** `evaluationData.some(item => item.questionNumber === questionNumber)`, scanning the
      list from the front. */
  function IsQuestionEvaluated(data: seq<Entry>, q: int): (r: bool)
    ensures r <==> HasEntryFor(data, q)
  {
    if data == [] then false
    else if data[0].questionNumber == q then true
    else
      var r := IsQuestionEvaluated(data[1..], q);
      assert HasEntryFor(data[1..], q) ==> HasEntryFor(data, q) by {
        if HasEntryFor(data[1..], q) {
          var i :| 0 <= i < |data[1..]| && data[1..][i].questionNumber == q;
          assert data[i + 1] == data[1..][i];
        }
      }
      assert HasEntryFor(data, q) ==> HasEntryFor(data[1..], q) by {
        if HasEntryFor(data, q) {
          var i :| 0 <= i < |data| && data[i].questionNumber == q;
          assert i > 0 && data[1..][i - 1] == data[i];
        }
      }
      r
  }

  /** The button's `variant` prop. */
  datatype Variant = Default | Outline

  /** The three colour schemes of the button's class name. */
  datatype ButtonStyle = SelectedStyle | EvaluatedStyle | PlainStyle

  /** What one question button shows. */
  datatype QuestionButton = QuestionButton(
    questionNumber: int,
    variant: Variant,
    style: ButtonStyle,
    selBadge: bool)

  /** The nested conditional of the class name: selected wins over evaluated. */
  function Classify(isSelected: bool, isEvaluated: bool): (r: ButtonStyle)
    ensures r == SelectedStyle <==> isSelected
    ensures r == EvaluatedStyle <==> !isSelected && isEvaluated
    ensures r == PlainStyle <==> !isSelected && !isEvaluated
  {
    if isSelected then SelectedStyle
    else if isEvaluated then EvaluatedStyle
    else PlainStyle
  }

  /** The button of question `q`. */
  function Button(q: int, selectedQuestion: Option<int>, data: seq<Entry>): QuestionButton {
    var isSelected := selectedQuestion == Some(q);
    var isEvaluated := IsQuestionEvaluated(data, q);
    QuestionButton(q, if isSelected then Default else Outline,
                   Classify(isSelected, isEvaluated), !isEvaluated && isSelected)
  }

  /** `Array.from({ length: totalQuestions }, (_, i) => i + 1)` mapped to buttons: the
      questions 1..totalQuestions in order; a button is selected exactly when it is the
      selected question, evaluated exactly when it is not selected and some entry records
      it, and carries the "Sel." badge exactly when it is selected but not yet evaluated. */
  function Buttons(totalQuestions: nat, selectedQuestion: Option<int>, data: seq<Entry>):
    (r: seq<QuestionButton>)
    ensures |r| == totalQuestions
    ensures forall i :: 0 <= i < |r| ==> r[i].questionNumber == i + 1
    ensures forall i :: 0 <= i < |r| ==>
      (r[i].style == SelectedStyle <==> selectedQuestion == Some(i + 1))
    ensures forall i :: 0 <= i < |r| ==>
      (r[i].style == EvaluatedStyle <==> selectedQuestion != Some(i + 1) && HasEntryFor(data, i + 1))
    ensures forall i :: 0 <= i < |r| ==>
      (r[i].variant == Default <==> r[i].style == SelectedStyle)
    ensures forall i :: 0 <= i < |r| ==>
      (r[i].selBadge <==> selectedQuestion == Some(i + 1) && !HasEntryFor(data, i + 1))
  {
    seq(totalQuestions, i requires 0 <= i < totalQuestions => Button(i + 1, selectedQuestion, data))
  }

  /** Clicking the button of question `q` selects `q` in the session. */
  method ClickQuestion(session: EvaluationSession, q: int)
    requires session.Valid() && 1 <= q <= session.totalQuestions
    modifies session
    ensures session.Valid()
    ensures session.selectedQuestion == Some(q)
    ensures Buttons(session.totalQuestions, session.selectedQuestion, session.evaluationData)[q - 1].style
      == SelectedStyle
    ensures session.evaluationData == old(session.evaluationData)
    ensures session.selectedMark == old(session.selectedMark)
    ensures session.blankPages == old(session.blankPages)
    ensures session.totalQuestions == old(session.totalQuestions)
    ensures session.showPageSelection == old(session.showPageSelection)
  {
    session.SelectQuestion(q);
  }

  /** The question numbers that some entry records. */
  ghost function QuestionSet(data: seq<Entry>): set<int> {
    set e | e in data :: e.questionNumber
  }

  /** A duplicate-free list records as many distinct questions as it has entries. */
  lemma {:induction false} QuestionSetSize(data: seq<Entry>)
    requires DistinctQuestions(data)
    ensures |QuestionSet(data)| == |data|
  {
    if data != [] {
      var tail := data[1..];
      DistinctTail(data);
      QuestionSetSize(tail);
      assert data == [data[0]] + tail;
      assert QuestionSet(data) == {data[0].questionNumber} + QuestionSet(tail);
      assert data[0].questionNumber !in QuestionSet(tail);
    }
  }

  /** The integers 1..n. */
  ghost function OneTo(n: nat): (r: set<int>)
    ensures forall q :: q in r <==> 1 <= q <= n
    ensures |r| == n
  {
    if n == 0 then {} else OneTo(n - 1) + {n}
  }

  /** The questions whose buttons show as evaluated (ignoring the selection). */
  ghost function EvaluatedQuestions(data: seq<Entry>, totalQuestions: nat): set<int> {
    set q | 1 <= q <= totalQuestions && IsQuestionEvaluated(data, q)
  }

  /** The header's counter is `evaluationData.length`. */
  function EvaluatedCounter(data: seq<Entry>): nat {
    |data|
  }

  /** In a valid session the counter equals the number of questions shown as evaluated,
      and so never exceeds the number of questions. */
  lemma CounterMatchesEvaluatedQuestions(data: seq<Entry>, totalQuestions: nat)
    requires DistinctQuestions(data)
    requires forall e | e in data :: 1 <= e.questionNumber <= totalQuestions
    ensures EvaluatedCounter(data) == |EvaluatedQuestions(data, totalQuestions)|
    ensures EvaluatedCounter(data) <= totalQuestions
  {
    QuestionSetSize(data);
    assert EvaluatedQuestions(data, totalQuestions) == QuestionSet(data) by {
      forall q ensures q in EvaluatedQuestions(data, totalQuestions) <==> q in QuestionSet(data) {
        if q in QuestionSet(data) {
          var e :| e in data && e.questionNumber == q;
          var i :| 0 <= i < |data| && data[i] == e;
          assert HasEntryFor(data, q);
        }
        if q in EvaluatedQuestions(data, totalQuestions) {
          var i :| 0 <= i < |data| && data[i].questionNumber == q;
          assert data[i] in data;
        }
      }
    }
    var all := OneTo(totalQuestions);
    assert QuestionSet(data) <= all;
    assert all == QuestionSet(data) + (all - QuestionSet(data));
  }
}
