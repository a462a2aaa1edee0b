/**
 * Progress of one dimension of the questionnaire (`get_dimension_status`):
 * how many of the dimension's questions carry an applicable answer with the
 * value their type asks for.
 */
module DimensionStatus {
  import opened Schema

  datatype Status = NotStarted | Partial | Complete
  {
    function Name(): string {
      match this
      case NotStarted => "not_started"
      case Partial => "partial"
      case Complete => "complete"
    }
  }

  /** `Question.query.filter_by(dimension_id=..).all()`: every version's questions of the dimension, in table order. */
  function QuestionsOfDimension(qs: seq<Question>, dimensionId: int): (r: seq<Question>)
    ensures |r| <= |qs|
    ensures forall q :: q in r <==> q in qs && q.dimensionId == dimensionId
  {
    if |qs| == 0 then []
    else
      var q := qs[|qs| - 1];
      assert qs == qs[..|qs| - 1] + [q];
      QuestionsOfDimension(qs[..|qs| - 1], dimensionId) + (if q.dimensionId == dimensionId then [q] else [])
  }

  predicate IsApplicableRowOf(a: Answer, assessmentId: int, questionId: int) {
    IsRowOf(a, assessmentId, questionId) && a.isApplicable
  }

  /** `Answer.query.filter_by(assessment_id=.., question_id=.., is_applicable=True).first()`, as an index. */
  function FirstApplicableIndex(answers: seq<Answer>, assessmentId: int, questionId: int): (r: Option<nat>)
    ensures r.Some? ==> r.value < |answers| && IsApplicableRowOf(answers[r.value], assessmentId, questionId)
    ensures r.Some? ==> forall j :: 0 <= j < r.value ==> !IsApplicableRowOf(answers[j], assessmentId, questionId)
    ensures r.None? <==> forall j :: 0 <= j < |answers| ==> !IsApplicableRowOf(answers[j], assessmentId, questionId)
  {
    if |answers| == 0 then None
    else if IsApplicableRowOf(answers[0], assessmentId, questionId) then Some(0)
    else match FirstApplicableIndex(answers[1..], assessmentId, questionId)
      case None =>
        assert forall j :: 1 <= j < |answers| ==> answers[j] == answers[1..][j - 1];
        None
      case Some(k) =>
        assert forall j :: 1 <= j < k + 1 ==> answers[j] == answers[1..][j - 1];
        Some(k + 1)
  }

  /** An applicable row with no applicable row before it is the first applicable row. */
  lemma FirstApplicableAt(answers: seq<Answer>, assessmentId: int, questionId: int, j: nat)
    requires j < |answers| && IsApplicableRowOf(answers[j], assessmentId, questionId)
    requires forall k :: 0 <= k < j ==> !IsApplicableRowOf(answers[k], assessmentId, questionId)
    ensures FirstApplicableIndex(answers, assessmentId, questionId) == Some(j)
  {
  }

  /**
   * A question counts as answered when its first applicable row holds the
   * value of its type: the number for a number question, a selected option
   * (possibly 0) for every other type.
   */
  predicate IsAnswered(answers: seq<Answer>, assessmentId: int, q: Question) {
    match FirstApplicableIndex(answers, assessmentId, q.id)
    case None => false
    case Some(i) =>
      if q.questionType == Number then answers[i].numericValue.Some?
      else answers[i].scaleOptionId.Some?
  }

  function AnsweredCount(answers: seq<Answer>, assessmentId: int, qs: seq<Question>): nat {
    if |qs| == 0 then 0
    else
      AnsweredCount(answers, assessmentId, qs[..|qs| - 1])
        + (if IsAnswered(answers, assessmentId, qs[|qs| - 1]) then 1 else 0)
  }

  /** The status `get_dimension_status` returns; the assessment id is optional and only its truthiness matters. */
  function StatusOf(cat: Catalog, answers: seq<Answer>, dimensionId: int, assessmentId: Option<int>): Status {
    var qs := QuestionsOfDimension(cat.questions, dimensionId);
    if |qs| == 0 || !Truthy(assessmentId) then NotStarted
    else
      var answered := AnsweredCount(answers, assessmentId.value, qs);
      if answered == 0 then NotStarted
      else if answered == |qs| then Complete
      else Partial
  }

  method GetDimensionStatus(db: Database, cat: Catalog, dimensionId: int, assessmentId: Option<int>)
    returns (status: Status)
    ensures status == StatusOf(cat, db.answers, dimensionId, assessmentId)
  {
    var questions := QuestionsOfDimension(cat.questions, dimensionId);
    var total := |questions|;
    if total == 0 {
      return NotStarted;
    }
    if !Truthy(assessmentId) {
      return NotStarted;
    }
    var answeredCount := 0;
    for i := 0 to |questions|
      invariant answeredCount == AnsweredCount(db.answers, assessmentId.value, questions[..i])
    {
      assert questions[..i + 1][..i] == questions[..i];
      var question := questions[i];
      var answer := FirstApplicableIndex(db.answers, assessmentId.value, question.id);
      if answer.Some? {
        if question.questionType == Number {
          if db.answers[answer.value].numericValue.Some? {
            answeredCount := answeredCount + 1;
          }
        } else if db.answers[answer.value].scaleOptionId.Some? {
          answeredCount := answeredCount + 1;
        }
      }
    }
    assert questions[..|questions|] == questions;
    if answeredCount == 0 {
      status := NotStarted;
    } else if answeredCount == total {
      status := Complete;
    } else {
      status := Partial;
    }
  }

  // ---------------------------------------------------------------------
  // What the status means
  // ---------------------------------------------------------------------

  /** The count never exceeds the number of questions; it is full iff every question is answered and 0 iff none is. */
  lemma {:induction false} AnsweredCountBounds(answers: seq<Answer>, assessmentId: int, qs: seq<Question>)
    ensures AnsweredCount(answers, assessmentId, qs) <= |qs|
    ensures AnsweredCount(answers, assessmentId, qs) == |qs| <==>
      forall i :: 0 <= i < |qs| ==> IsAnswered(answers, assessmentId, qs[i])
    ensures AnsweredCount(answers, assessmentId, qs) == 0 <==>
      forall i :: 0 <= i < |qs| ==> !IsAnswered(answers, assessmentId, qs[i])
  {
    if |qs| > 0 {
      var init := qs[..|qs| - 1];
      AnsweredCountBounds(answers, assessmentId, init);
      assert forall i :: 0 <= i < |init| ==> init[i] == qs[i];
    }
  }

  /** Each status in terms of the dimension's questions. */
  lemma StatusMeaning(cat: Catalog, answers: seq<Answer>, dimensionId: int, assessmentId: Option<int>)
    ensures var qs := QuestionsOfDimension(cat.questions, dimensionId);
      && (StatusOf(cat, answers, dimensionId, assessmentId) == Complete <==>
            |qs| > 0 && Truthy(assessmentId)
            && forall i :: 0 <= i < |qs| ==> IsAnswered(answers, assessmentId.value, qs[i]))
      && (StatusOf(cat, answers, dimensionId, assessmentId) == NotStarted <==>
            |qs| == 0 || !Truthy(assessmentId)
            || forall i :: 0 <= i < |qs| ==> !IsAnswered(answers, assessmentId.value, qs[i]))
      && (StatusOf(cat, answers, dimensionId, assessmentId) == Partial <==>
            && Truthy(assessmentId)
            && (exists i :: 0 <= i < |qs| && IsAnswered(answers, assessmentId.value, qs[i]))
            && (exists i :: 0 <= i < |qs| && !IsAnswered(answers, assessmentId.value, qs[i])))
  {
    var qs := QuestionsOfDimension(cat.questions, dimensionId);
    if Truthy(assessmentId) {
      AnsweredCountBounds(answers, assessmentId.value, qs);
    }
  }

  /**
   * A question of the dimension none of whose rows is applicable (for instance
   * a dependent question after the filter answered NEIN) keeps the dimension
   * from ever being complete.
   */
  lemma InapplicableQuestionBlocksComplete(cat: Catalog, answers: seq<Answer>, dimensionId: int, assessmentId: int, q: Question)
    requires q in cat.questions && q.dimensionId == dimensionId
    requires forall j :: 0 <= j < |answers| && IsRowOf(answers[j], assessmentId, q.id) ==> !answers[j].isApplicable
    ensures StatusOf(cat, answers, dimensionId, Some(assessmentId)) != Complete
  {
    var qs := QuestionsOfDimension(cat.questions, dimensionId);
    var k :| 0 <= k < |qs| && qs[k] == q;
    assert !IsAnswered(answers, assessmentId, qs[k]);
    StatusMeaning(cat, answers, dimensionId, Some(assessmentId));
  }
}
