/**
 * Building the answer rows of a submitted questionnaire (the loop over the
 * version's questions in `evaluate` and `update_assessment`).  The form is
 * given as already-read field values, and `int()` / `float()` are abstract
 * parsers that either give a number or fail.
 */
module AnswerForm {
  import opened Schema

  /**
   * The submitted fields: `single[id]` is the value of field `q_<id>`,
   * `multi[id]` the list of values of field `q_<id>[]`.  A missing field
   * reads as the empty string or the empty list.
   */
  datatype Form = Form(single: map<int, string>, multi: map<int, seq<string>>)

  /** `int(text)` and `float(text)`; `None` stands for the `ValueError` they raise. */
  datatype Parsers = Parsers(toInt: string -> Option<int>, toFloat: string -> Option<real>)

  /** An option value that `int()` rejects; the route rolls back and answers with an error page. */
  datatype FormError = InvalidOption(questionId: int, text: string)

  function SingleValue(form: Form, questionId: int): string {
    if questionId in form.single then form.single[questionId] else ""
  }

  function MultiValues(form: Form, questionId: int): seq<string> {
    if questionId in form.multi then form.multi[questionId] else []
  }

  /** The characters Python's `str.strip()` removes. */
  predicate IsSpace(c: char) {
    var n := c as int;
    || 9 <= n <= 13 || 28 <= n <= 32 || n == 0x85 || n == 0xA0 || n == 0x1680
    || 0x2000 <= n <= 0x200A || n == 0x2028 || n == 0x2029 || n == 0x202F || n == 0x205F || n == 0x3000
  }

  /** `not (value and value.strip())`: empty or only white space. */
  predicate IsBlank(s: string) {
    forall i :: 0 <= i < |s| ==> IsSpace(s[i])
  }

  function EmptyRow(assessmentId: int, questionId: int): Answer {
    Answer(assessmentId, questionId, None, None, true)
  }

  function ChoiceRow(assessmentId: int, questionId: int, optionId: int): Answer {
    Answer(assessmentId, questionId, Some(optionId), None, true)
  }

  /** One row per selected value of a multiple-choice question; the first value `int()` rejects fails. */
  function ChoiceRows(parsers: Parsers, assessmentId: int, questionId: int, values: seq<string>): Result<seq<Answer>, FormError> {
    if |values| == 0 then Success([])
    else
      var v := values[|values| - 1];
      match ChoiceRows(parsers, assessmentId, questionId, values[..|values| - 1])
      case Failure(e) => Failure(e)
      case Success(rows) =>
        (match parsers.toInt(v)
         case None => Failure(InvalidOption(questionId, v))
         case Some(n) => Success(rows + [ChoiceRow(assessmentId, questionId, n)]))
  }

  /** The rows one question contributes. */
  function RowsFor(form: Form, parsers: Parsers, assessmentId: int, q: Question): Result<seq<Answer>, FormError> {
    match q.questionType
    case SingleChoice =>
      var value := SingleValue(form, q.id);
      if value == "" then Success([EmptyRow(assessmentId, q.id)])
      else
        (match parsers.toInt(value)
         case None => Failure(InvalidOption(q.id, value))
         case Some(n) => Success([ChoiceRow(assessmentId, q.id, n)]))
    case MultipleChoice =>
      var values := MultiValues(form, q.id);
      if |values| == 0 then Success([EmptyRow(assessmentId, q.id)])
      else ChoiceRows(parsers, assessmentId, q.id, values)
    case Number =>
      var value := SingleValue(form, q.id);
      if IsBlank(value) then Success([EmptyRow(assessmentId, q.id)])
      else Success([Answer(assessmentId, q.id, None, parsers.toFloat(value), true)])
    case OtherType(_) => Success([])
  }

  /** The rows of all questions, in question order; the first failing question decides the error. */
  function AnswerRows(form: Form, parsers: Parsers, assessmentId: int, qs: seq<Question>): Result<seq<Answer>, FormError> {
    if |qs| == 0 then Success([])
    else
      match AnswerRows(form, parsers, assessmentId, qs[..|qs| - 1])
      case Failure(e) => Failure(e)
      case Success(rows) =>
        (match RowsFor(form, parsers, assessmentId, qs[|qs| - 1])
         case Failure(e) => Failure(e)
         case Success(more) => Success(rows + more))
  }

  /** `Question.query.filter_by(questionnaire_version_id=..).all()`. */
  function QuestionsOfVersion(qs: seq<Question>, versionId: int): (r: seq<Question>)
    ensures forall q :: q in r <==> q in qs && q.versionId == versionId
  {
    if |qs| == 0 then []
    else
      var q := qs[|qs| - 1];
      assert qs == qs[..|qs| - 1] + [q];
      QuestionsOfVersion(qs[..|qs| - 1], versionId) + (if q.versionId == versionId then [q] else [])
  }

  /** The answer rows of other assessments, in order (what `Answer.query.filter_by(assessment_id=..).delete()` keeps). */
  function OtherAnswers(answers: seq<Answer>, assessmentId: int): seq<Answer> {
    if |answers| == 0 then []
    else
      var a := answers[|answers| - 1];
      OtherAnswers(answers[..|answers| - 1], assessmentId) + (if a.assessmentId == assessmentId then [] else [a])
  }

  /** The loop that adds one or more answers per question. */
  method BuildAnswers(form: Form, parsers: Parsers, assessmentId: int, questions: seq<Question>)
    returns (r: Result<seq<Answer>, FormError>)
    ensures r == AnswerRows(form, parsers, assessmentId, questions)
  {
    var rows: seq<Answer> := [];
    for i := 0 to |questions|
      invariant AnswerRows(form, parsers, assessmentId, questions[..i]) == Success(rows)
    {
      assert questions[..i + 1][..i] == questions[..i];
      var question := questions[i];
      ghost var before := rows;
      match question.questionType {
        case SingleChoice =>
          var value := SingleValue(form, question.id);
          if value == "" {
            rows := rows + [EmptyRow(assessmentId, question.id)];
          } else {
            var n := parsers.toInt(value);
            if n.None? {
              AnswerRowsFailFrom(form, parsers, assessmentId, questions, i);
              return Failure(InvalidOption(question.id, value));
            }
            rows := rows + [ChoiceRow(assessmentId, question.id, n.value)];
          }
        case MultipleChoice =>
          var values := MultiValues(form, question.id);
          if |values| == 0 {
            rows := rows + [EmptyRow(assessmentId, question.id)];
          } else {
            ghost var start := rows;
            for k := 0 to |values|
              invariant ChoiceRows(parsers, assessmentId, question.id, values[..k]).Success?
              invariant rows == start + ChoiceRows(parsers, assessmentId, question.id, values[..k]).value
            {
              assert values[..k + 1][..k] == values[..k];
              var n := parsers.toInt(values[k]);
              if n.None? {
                ChoiceRowsFailFrom(parsers, assessmentId, question.id, values, k + 1);
                AnswerRowsFailFrom(form, parsers, assessmentId, questions, i);
                return Failure(InvalidOption(question.id, values[k]));
              }
              rows := rows + [ChoiceRow(assessmentId, question.id, n.value)];
            }
            assert values[..|values|] == values;
          }
        case Number =>
          var value := SingleValue(form, question.id);
          if IsBlank(value) {
            rows := rows + [EmptyRow(assessmentId, question.id)];
          } else {
            rows := rows + [Answer(assessmentId, question.id, None, parsers.toFloat(value), true)];
          }
        case OtherType(_) =>
          assert rows == before + [];
      }
      assert rows == before + RowsFor(form, parsers, assessmentId, question).value;
    }
    assert questions[..|questions|] == questions;
    return Success(rows);
  }

  /**
   * Stores the rows of a submitted form for an assessment: its old answers
   * are deleted first (in `evaluate` the assessment is new and has none); if
   * a value is rejected the transaction is rolled back and nothing changes.
   */
  method SaveAnswers(db: Database, form: Form, parsers: Parsers, assessmentId: int, questions: seq<Question>)
    returns (r: Outcome<FormError>)
    modifies db
    ensures AnswerRows(form, parsers, assessmentId, questions).Failure? ==>
      r == Fail(AnswerRows(form, parsers, assessmentId, questions).error) && db.answers == old(db.answers)
    ensures AnswerRows(form, parsers, assessmentId, questions).Success? ==>
      r == Pass && db.answers == OtherAnswers(old(db.answers), assessmentId) + AnswerRows(form, parsers, assessmentId, questions).value
    ensures db.dimensionResults == old(db.dimensionResults) && db.totalResults == old(db.totalResults)
    ensures db.assessments == old(db.assessments) && db.processes == old(db.processes)
  {
    var built := BuildAnswers(form, parsers, assessmentId, questions);
    if built.Failure? {
      return Fail(built.error);
    }
    db.answers := OtherAnswers(db.answers, assessmentId) + built.value;
    return Pass;
  }

  // ---------------------------------------------------------------------
  // What the rows are
  // ---------------------------------------------------------------------

  lemma {:induction false} ChoiceRowsFailFrom(parsers: Parsers, assessmentId: int, questionId: int, values: seq<string>, k: nat)
    requires 0 < k <= |values|
    requires ChoiceRows(parsers, assessmentId, questionId, values[..k - 1]).Success?
    requires parsers.toInt(values[k - 1]).None?
    ensures ChoiceRows(parsers, assessmentId, questionId, values) == Failure(InvalidOption(questionId, values[k - 1]))
  {
    if k < |values| {
      var init := values[..|values| - 1];
      assert init[..k] == values[..k] && init[..k - 1] == values[..k - 1] && init[k - 1] == values[k - 1];
      ChoiceRowsFailFrom(parsers, assessmentId, questionId, init, k);
    } else {
      assert values[..|values| - 1] == values[..k - 1];
    }
  }

  lemma {:induction false} AnswerRowsFailFrom(form: Form, parsers: Parsers, assessmentId: int, qs: seq<Question>, i: nat)
    requires i < |qs|
    requires AnswerRows(form, parsers, assessmentId, qs[..i]).Success?
    requires RowsFor(form, parsers, assessmentId, qs[i]).Failure?
    ensures AnswerRows(form, parsers, assessmentId, qs) == RowsFor(form, parsers, assessmentId, qs[i])
  {
    if i + 1 < |qs| {
      var init := qs[..|qs| - 1];
      assert init[..i] == qs[..i] && init[i] == qs[i];
      AnswerRowsFailFrom(form, parsers, assessmentId, init, i);
    } else {
      assert qs[..|qs| - 1] == qs[..i];
    }
  }

  /** The rows of a multiple-choice question: one per value, in order, with the parsed option; failure iff a value is rejected. */
  lemma {:induction false} ChoiceRowsMeaning(parsers: Parsers, assessmentId: int, questionId: int, values: seq<string>)
    ensures var r := ChoiceRows(parsers, assessmentId, questionId, values);
      && (r.Failure? <==> exists k :: 0 <= k < |values| && parsers.toInt(values[k]).None?)
      && (r.Success? ==>
            && |r.value| == |values|
            && forall k :: 0 <= k < |values| ==> r.value[k] == ChoiceRow(assessmentId, questionId, parsers.toInt(values[k]).value))
  {
    if |values| > 0 {
      var init := values[..|values| - 1];
      ChoiceRowsMeaning(parsers, assessmentId, questionId, init);
      assert forall k :: 0 <= k < |init| ==> init[k] == values[k];
      if ChoiceRows(parsers, assessmentId, questionId, init).Failure? {
        var k :| 0 <= k < |init| && parsers.toInt(init[k]).None?;
        assert parsers.toInt(values[k]).None?;
      }
    }
  }

  /**
   * Per question type: a single-choice or number question gets exactly one
   * row, a multiple-choice question one row per value or a single empty row,
   * any other type none; every row belongs to the assessment and the
   * question and is applicable.  Only an option value `int()` rejects fails.
   */
  lemma RowsForMeaning(form: Form, parsers: Parsers, assessmentId: int, q: Question)
    ensures var r := RowsFor(form, parsers, assessmentId, q);
      && (r.Failure? <==>
            || (q.questionType == SingleChoice && SingleValue(form, q.id) != "" && parsers.toInt(SingleValue(form, q.id)).None?)
            || (q.questionType == MultipleChoice
                && exists k :: 0 <= k < |MultiValues(form, q.id)| && parsers.toInt(MultiValues(form, q.id)[k]).None?))
      && (r.Success? ==>
            && (forall k :: 0 <= k < |r.value| ==>
                  r.value[k].assessmentId == assessmentId && r.value[k].questionId == q.id && r.value[k].isApplicable)
            && (q.questionType == SingleChoice ==>
                  && |r.value| == 1 && r.value[0].numericValue.None?
                  && (r.value[0].scaleOptionId.None? <==> SingleValue(form, q.id) == "")
                  && r.value[0].scaleOptionId ==
                       (if SingleValue(form, q.id) == "" then None else parsers.toInt(SingleValue(form, q.id))))
            && (q.questionType == MultipleChoice ==>
                  if |MultiValues(form, q.id)| == 0 then r.value == [EmptyRow(assessmentId, q.id)]
                  else
                    && |r.value| == |MultiValues(form, q.id)|
                    && forall k :: 0 <= k < |r.value| ==>
                         r.value[k].scaleOptionId == parsers.toInt(MultiValues(form, q.id)[k]))
            && (q.questionType == Number ==>
                  && |r.value| == 1 && r.value[0].scaleOptionId.None?
                  && r.value[0].numericValue ==
                       (if IsBlank(SingleValue(form, q.id)) then None else parsers.toFloat(SingleValue(form, q.id))))
            && (q.questionType.OtherType? ==> r.value == []))
  {
    if q.questionType == MultipleChoice {
      ChoiceRowsMeaning(parsers, assessmentId, q.id, MultiValues(form, q.id));
    }
  }

  /** The whole form fails iff some question fails, and then with the error of the first failing question. */
  lemma {:induction false} AnswerRowsFailure(form: Form, parsers: Parsers, assessmentId: int, qs: seq<Question>)
    ensures AnswerRows(form, parsers, assessmentId, qs).Success? <==>
      forall i :: 0 <= i < |qs| ==> RowsFor(form, parsers, assessmentId, qs[i]).Success?
    ensures AnswerRows(form, parsers, assessmentId, qs).Failure? ==>
      exists i :: 0 <= i < |qs|
        && RowsFor(form, parsers, assessmentId, qs[i]) == Failure(AnswerRows(form, parsers, assessmentId, qs).error)
        && forall j :: 0 <= j < i ==> RowsFor(form, parsers, assessmentId, qs[j]).Success?
  {
    if |qs| > 0 {
      var init := qs[..|qs| - 1];
      AnswerRowsFailure(form, parsers, assessmentId, init);
      assert forall i :: 0 <= i < |init| ==> init[i] == qs[i];
      if AnswerRows(form, parsers, assessmentId, init).Success? && RowsFor(form, parsers, assessmentId, qs[|qs| - 1]).Failure? {
        assert forall j :: 0 <= j < |qs| - 1 ==> RowsFor(form, parsers, assessmentId, qs[j]).Success? by {
          forall j | 0 <= j < |qs| - 1 ensures RowsFor(form, parsers, assessmentId, qs[j]).Success? {
            assert qs[j] == init[j];
          }
        }
      }
    }
  }

  /** The rows of question `questionId`, in order. */
  function RowsWithQuestion(rows: seq<Answer>, questionId: int): seq<Answer> {
    if |rows| == 0 then []
    else
      RowsWithQuestion(rows[..|rows| - 1], questionId)
        + (if rows[|rows| - 1].questionId == questionId then [rows[|rows| - 1]] else [])
  }

  lemma {:induction false} RowsWithQuestionAppend(xs: seq<Answer>, ys: seq<Answer>, questionId: int)
    ensures RowsWithQuestion(xs + ys, questionId) == RowsWithQuestion(xs, questionId) + RowsWithQuestion(ys, questionId)
  {
    if |ys| > 0 {
      assert (xs + ys)[..|xs + ys| - 1] == xs + ys[..|ys| - 1];
      RowsWithQuestionAppend(xs, ys[..|ys| - 1], questionId);
    } else {
      assert xs + ys == xs;
    }
  }

  lemma {:induction false} RowsWithOtherQuestion(rows: seq<Answer>, questionId: int)
    requires forall k :: 0 <= k < |rows| ==> rows[k].questionId != questionId
    ensures RowsWithQuestion(rows, questionId) == []
  {
    if |rows| > 0 {
      RowsWithOtherQuestion(rows[..|rows| - 1], questionId);
    }
  }

  lemma {:induction false} RowsWithOwnQuestion(rows: seq<Answer>, questionId: int)
    requires forall k :: 0 <= k < |rows| ==> rows[k].questionId == questionId
    ensures RowsWithQuestion(rows, questionId) == rows
  {
    if |rows| > 0 {
      RowsWithOwnQuestion(rows[..|rows| - 1], questionId);
    }
  }

  /** Every stored row belongs to the assessment, is applicable, and has one of the questions. */
  lemma {:induction false} AnswerRowsOwners(form: Form, parsers: Parsers, assessmentId: int, qs: seq<Question>)
    requires AnswerRows(form, parsers, assessmentId, qs).Success?
    ensures var rows := AnswerRows(form, parsers, assessmentId, qs).value;
      forall k :: 0 <= k < |rows| ==>
        rows[k].assessmentId == assessmentId && rows[k].isApplicable
        && exists q :: q in qs && q.id == rows[k].questionId
  {
    if |qs| > 0 {
      var init := qs[..|qs| - 1];
      AnswerRowsOwners(form, parsers, assessmentId, init);
      RowsForMeaning(form, parsers, assessmentId, qs[|qs| - 1]);
      assert forall q :: q in init ==> q in qs;
    }
  }

  /** With distinct question ids, the stored rows of each question are exactly the rows built for it. */
  lemma {:induction false} AnswerRowsPerQuestion(form: Form, parsers: Parsers, assessmentId: int, qs: seq<Question>)
    requires UniqueQuestionIds(qs)
    requires AnswerRows(form, parsers, assessmentId, qs).Success?
    ensures forall i :: 0 <= i < |qs| ==>
      && RowsFor(form, parsers, assessmentId, qs[i]).Success?
      && RowsWithQuestion(AnswerRows(form, parsers, assessmentId, qs).value, qs[i].id)
           == RowsFor(form, parsers, assessmentId, qs[i]).value
  {
    AnswerRowsFailure(form, parsers, assessmentId, qs);
    if |qs| > 0 {
      var init := qs[..|qs| - 1];
      var last := qs[|qs| - 1];
      assert UniqueQuestionIds(init);
      AnswerRowsPerQuestion(form, parsers, assessmentId, init);
      var before := AnswerRows(form, parsers, assessmentId, init).value;
      var more := RowsFor(form, parsers, assessmentId, last).value;
      assert AnswerRows(form, parsers, assessmentId, qs).value == before + more;
      forall i | 0 <= i < |qs|
        ensures RowsWithQuestion(before + more, qs[i].id) == RowsFor(form, parsers, assessmentId, qs[i]).value
      {
        if i < |qs| - 1 {
          assert qs[i] == init[i];
          LaterQuestionHasNoRows(form, parsers, assessmentId, qs, i);
          RowsWithQuestionAppend(before, more, qs[i].id);
        } else {
          EarlierQuestionsHaveOtherIds(form, parsers, assessmentId, qs);
        }
      }
    }
  }

  lemma LaterQuestionHasNoRows(form: Form, parsers: Parsers, assessmentId: int, qs: seq<Question>, i: nat)
    requires UniqueQuestionIds(qs) && i < |qs| - 1
    requires RowsFor(form, parsers, assessmentId, qs[|qs| - 1]).Success?
    ensures RowsWithQuestion(RowsFor(form, parsers, assessmentId, qs[|qs| - 1]).value, qs[i].id) == []
  {
    RowsForMeaning(form, parsers, assessmentId, qs[|qs| - 1]);
    RowsWithOtherQuestion(RowsFor(form, parsers, assessmentId, qs[|qs| - 1]).value, qs[i].id);
  }

  lemma EarlierQuestionsHaveOtherIds(form: Form, parsers: Parsers, assessmentId: int, qs: seq<Question>)
    requires UniqueQuestionIds(qs) && |qs| > 0
    requires AnswerRows(form, parsers, assessmentId, qs[..|qs| - 1]).Success?
    requires RowsFor(form, parsers, assessmentId, qs[|qs| - 1]).Success?
    ensures var last := qs[|qs| - 1];
      RowsWithQuestion(AnswerRows(form, parsers, assessmentId, qs[..|qs| - 1]).value + RowsFor(form, parsers, assessmentId, last).value, last.id)
        == RowsFor(form, parsers, assessmentId, last).value
  {
    var init := qs[..|qs| - 1];
    var last := qs[|qs| - 1];
    var before := AnswerRows(form, parsers, assessmentId, init).value;
    var more := RowsFor(form, parsers, assessmentId, last).value;
    AnswerRowsOwners(form, parsers, assessmentId, init);
    forall k | 0 <= k < |before| ensures before[k].questionId != last.id {
      var q :| q in init && q.id == before[k].questionId;
      var m :| 0 <= m < |init| && init[m] == q;
      assert qs[m] == q;
    }
    RowsWithQuestionAppend(before, more, last.id);
    RowsWithOtherQuestion(before, last.id);
    RowsForMeaning(form, parsers, assessmentId, last);
    RowsWithOwnQuestion(more, last.id);
  }

  /** Deleting an assessment's answers keeps every other row and removes every row of the assessment. */
  lemma {:induction false} OtherAnswersMeaning(answers: seq<Answer>, assessmentId: int)
    ensures forall a :: a in OtherAnswers(answers, assessmentId) <==> a in answers && a.assessmentId != assessmentId
    ensures (forall k :: 0 <= k < |answers| ==> answers[k].assessmentId != assessmentId) ==>
      OtherAnswers(answers, assessmentId) == answers
  {
    if |answers| > 0 {
      var init := answers[..|answers| - 1];
      OtherAnswersMeaning(init, assessmentId);
      assert answers == init + [answers[|answers| - 1]];
    }
  }
}
