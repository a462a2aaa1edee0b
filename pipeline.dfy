/**
 * What the steps of a submission do together: the answer rows are built
 * from the form, the filter of question "1.5" is applied, and the scorer
 * runs over the filtered table.  The lemmas here state what NEIN on the
 * gate means for the scores and the status of a dimension.
 */
module Pipeline {
  import opened Schema
  import opened ScoringService
  import opened FilterLogic
  import opened AnswerForm
  import opened DimensionStatus

  predicate IsMultipleChoice(cat: Catalog, questionId: int) {
    var q := QuestionById(cat.questions, questionId);
    q.Some? && q.value.questionType == MultipleChoice
  }

  /** Only a multiple-choice question may own more than one row of the assessment. */
  predicate OnlyMultipleChoiceRepeats(cat: Catalog, answers: seq<Answer>, assessmentId: int) {
    forall i, j :: 0 <= i < j < |answers| && answers[i].assessmentId == assessmentId
      && IsRowOf(answers[j], assessmentId, answers[i].questionId)
      ==> IsMultipleChoice(cat, answers[i].questionId)
  }

  // ---------------------------------------------------------------------
  // Facts about the scorer's folds
  // ---------------------------------------------------------------------

  lemma CollectedSnoc(cat: Catalog, xs: seq<Answer>, a: Answer, s: Strategy)
    ensures Collected(cat, xs + [a], s)
      == Collected(cat, xs, s) + (match ContributionOf(cat, a, s) case Add(x) => [x] case _ => [])
    ensures ExcludedBy(cat, xs + [a], s)
      == if ExcludedBy(cat, xs, s).Some? then ExcludedBy(cat, xs, s)
         else if ContributionOf(cat, a, s).Exclude? then Some(a.questionId) else None
  {
    assert (xs + [a])[..|xs + [a]| - 1] == xs;
  }

  /**
   * Rows of the questions in `dropped` that contribute nothing can be left
   * out of a dimension without changing its result.
   */
  lemma {:induction false} SkippedQuestionsDoNotCount(cat: Catalog, rows: seq<Answer>, assessmentId: int, qids: set<int>, dropped: set<int>, s: Strategy)
    requires forall i :: 0 <= i < |rows| && rows[i].assessmentId == assessmentId && rows[i].questionId in dropped ==>
      ContributionOf(cat, rows[i], s).Skip?
    ensures Collected(cat, DimRows(rows, assessmentId, qids), s) == Collected(cat, DimRows(rows, assessmentId, qids - dropped), s)
    ensures ExcludedBy(cat, DimRows(rows, assessmentId, qids), s) == ExcludedBy(cat, DimRows(rows, assessmentId, qids - dropped), s)
  {
    if |rows| > 0 {
      var init := rows[..|rows| - 1];
      var a := rows[|rows| - 1];
      SkippedQuestionsDoNotCount(cat, init, assessmentId, qids, dropped, s);
      var all := DimRows(init, assessmentId, qids);
      var kept := DimRows(init, assessmentId, qids - dropped);
      var selected := a.assessmentId == assessmentId && a.questionId in qids;
      var kept' := a.assessmentId == assessmentId && a.questionId in qids - dropped;
      assert DimRows(rows, assessmentId, qids) == all + (if selected then [a] else []);
      assert DimRows(rows, assessmentId, qids - dropped) == kept + (if kept' then [a] else []);
      if selected {
        CollectedSnoc(cat, all, a, s);
        if kept' {
          CollectedSnoc(cat, kept, a, s);
        } else {
          assert ContributionOf(cat, a, s).Skip?;
          assert Collected(cat, all, s) + [] == Collected(cat, all, s);
          assert kept + [] == kept;
        }
      } else {
        assert all + [] == all && kept + [] == kept;
      }
    }
  }

  /** Two row tables whose rows agree on everything but `is_applicable` give every dimension the same result. */
  lemma {:induction false} ScorerIgnoresApplicability(cat: Catalog, xs: seq<Answer>, ys: seq<Answer>, assessmentId: int, qids: set<int>, s: Strategy)
    requires |xs| == |ys|
    requires forall i :: 0 <= i < |xs| ==> ys[i] == xs[i].(isApplicable := ys[i].isApplicable)
    ensures Collected(cat, DimRows(xs, assessmentId, qids), s) == Collected(cat, DimRows(ys, assessmentId, qids), s)
    ensures ExcludedBy(cat, DimRows(xs, assessmentId, qids), s) == ExcludedBy(cat, DimRows(ys, assessmentId, qids), s)
  {
    if |xs| > 0 {
      var n := |xs| - 1;
      ScorerIgnoresApplicability(cat, xs[..n], ys[..n], assessmentId, qids, s);
      var dx, dy := DimRows(xs[..n], assessmentId, qids), DimRows(ys[..n], assessmentId, qids);
      assert ys[n].assessmentId == xs[n].assessmentId && ys[n].questionId == xs[n].questionId;
      if xs[n].assessmentId == assessmentId && xs[n].questionId in qids {
        assert DimRows(xs, assessmentId, qids) == dx + [xs[n]];
        assert DimRows(ys, assessmentId, qids) == dy + [ys[n]];
        assert ContributionOf(cat, ys[n], s) == ContributionOf(cat, xs[n], s);
        CollectedSnoc(cat, dx, xs[n], s);
        CollectedSnoc(cat, dy, ys[n], s);
      } else {
        assert DimRows(xs, assessmentId, qids) == dx + [] == dx;
        assert DimRows(ys, assessmentId, qids) == dy + [] == dy;
      }
    }
  }

  lemma {:induction false} DimRowsAppend(xs: seq<Answer>, ys: seq<Answer>, assessmentId: int, qids: set<int>)
    ensures DimRows(xs + ys, assessmentId, qids) == DimRows(xs, assessmentId, qids) + DimRows(ys, assessmentId, qids)
  {
    if |ys| > 0 {
      assert (xs + ys)[..|xs + ys| - 1] == xs + ys[..|ys| - 1];
      DimRowsAppend(xs, ys[..|ys| - 1], assessmentId, qids);
    } else {
      assert xs + ys == xs;
    }
  }

  lemma {:induction false} DimRowsNone(rows: seq<Answer>, assessmentId: int, qids: set<int>)
    requires forall i :: 0 <= i < |rows| ==> rows[i].questionId !in qids
    ensures DimRows(rows, assessmentId, qids) == []
  {
    if |rows| > 0 {
      DimRowsNone(rows[..|rows| - 1], assessmentId, qids);
    }
  }

  /** Two tables that agree on every row the query selects, and select the same rows, give the same selection. */
  lemma {:induction false} DimRowsPointwise(xs: seq<Answer>, ys: seq<Answer>, assessmentId: int, qids: set<int>)
    requires |xs| == |ys|
    requires forall i :: 0 <= i < |xs| ==> xs[i].assessmentId == ys[i].assessmentId && xs[i].questionId == ys[i].questionId
    requires forall i :: 0 <= i < |xs| && xs[i].assessmentId == assessmentId && xs[i].questionId in qids ==> xs[i] == ys[i]
    ensures DimRows(xs, assessmentId, qids) == DimRows(ys, assessmentId, qids)
  {
    if |xs| > 0 {
      DimRowsPointwise(xs[..|xs| - 1], ys[..|ys| - 1], assessmentId, qids);
    }
  }

  // ---------------------------------------------------------------------
  // The filter and the scorer
  // ---------------------------------------------------------------------

  /**
   * After NEIN, no row of a dependent question contributes to any score: the
   * first row has lost its option, a created row has none, and a further row
   * can only belong to a multiple-choice question, which the scorer ignores.
   */
  lemma NeinRowsOfDependentsSkip(cat: Catalog, answers: seq<Answer>, assessmentId: int, deps: seq<int>, s: Strategy)
    requires OnlyMultipleChoiceRepeats(cat, answers, assessmentId)
    ensures var after := Filtered(answers, assessmentId, deps, true);
      forall i :: 0 <= i < |after| && after[i].assessmentId == assessmentId && after[i].questionId in deps ==>
        ContributionOf(cat, after[i], s).Skip?
  {
    var after := Filtered(answers, assessmentId, deps, true);
    var ids := set x | x in deps;
    FilterKeepsOtherRows(answers, assessmentId, deps, true);
    forall i | 0 <= i < |after| && after[i].assessmentId == assessmentId && after[i].questionId in deps
      ensures ContributionOf(cat, after[i], s).Skip?
    {
      if i < |answers| && !IsFirstRowOf(answers, i, assessmentId, ids) {
        var q := answers[i].questionId;
        assert IsRowOf(answers[i], assessmentId, q);
        var k := FirstAnswerIndex(answers, assessmentId, q).value;
        assert k < i;
        assert IsMultipleChoice(cat, q);
      }
    }
  }

  /**
   * NEIN on the gate scores every dimension as if the dependent questions had
   * never been answered: the result over the filtered table equals the result
   * over the original table without the dependents' rows.
   */
  lemma NeinScoresWithoutDependents(cat: Catalog, answers: seq<Answer>, assessmentId: int, dim: Dimension, s: Strategy)
    requires GateOf(cat, answers, assessmentId).Gated? && GateOf(cat, answers, assessmentId).nein
    requires OnlyMultipleChoiceRepeats(cat, answers, assessmentId)
    ensures var deps := DependentIds(cat.questions, GateOf(cat, answers, assessmentId).gateId);
      var qids := QuestionIdsOf(cat.questions, dim.id);
      DimensionOutcome(cat, DimRows(AfterFilter(cat, answers, assessmentId), assessmentId, qids), s)
        == DimensionOutcome(cat, DimRows(answers, assessmentId, qids - (set x | x in deps)), s)
  {
    var deps := DependentIds(cat.questions, GateOf(cat, answers, assessmentId).gateId);
    var ids := set x | x in deps;
    var qids := QuestionIdsOf(cat.questions, dim.id);
    var after := Filtered(answers, assessmentId, deps, true);
    assert AfterFilter(cat, answers, assessmentId) == after;
    NeinRowsOfDependentsSkip(cat, answers, assessmentId, deps, s);
    SkippedQuestionsDoNotCount(cat, after, assessmentId, qids, ids, s);
    FilterKeepsRowsOutside(answers, assessmentId, deps, true, qids - ids);
    var filtered := DimRows(after, assessmentId, qids);
    var original := DimRows(answers, assessmentId, qids - ids);
    assert Collected(cat, filtered, s) == Collected(cat, original, s);
    assert ExcludedBy(cat, filtered, s) == ExcludedBy(cat, original, s);
  }

  /** The filter leaves the selection of every question set that avoids the dependents as it was. */
  lemma FilterKeepsRowsOutside(answers: seq<Answer>, assessmentId: int, deps: seq<int>, nein: bool, qids: set<int>)
    requires forall x :: x in deps ==> x !in qids
    ensures DimRows(Filtered(answers, assessmentId, deps, nein), assessmentId, qids) == DimRows(answers, assessmentId, qids)
  {
    var ids := set x | x in deps;
    var updated := Updated(answers, assessmentId, ids, nein);
    var created := if nein then Created(answers, assessmentId, deps) else [];
    assert Filtered(answers, assessmentId, deps, nein) == updated + created;
    DimRowsAppend(updated, created, assessmentId, qids);
    CreatedRows(answers, assessmentId, deps);
    DimRowsNone(created, assessmentId, qids);
    assert updated + [] == updated;
    FilterKeepsOtherRows(answers, assessmentId, deps, nein);
    DimRowsPointwise(answers, updated, assessmentId, qids);
  }

  /** Any option other than NEIN leaves every dimension result as it was: the scorer never reads `is_applicable`. */
  lemma OtherOptionKeepsScores(cat: Catalog, answers: seq<Answer>, assessmentId: int, dim: Dimension, s: Strategy)
    requires GateOf(cat, answers, assessmentId).Gated? && !GateOf(cat, answers, assessmentId).nein
    ensures var qids := QuestionIdsOf(cat.questions, dim.id);
      DimensionOutcome(cat, DimRows(AfterFilter(cat, answers, assessmentId), assessmentId, qids), s)
        == DimensionOutcome(cat, DimRows(answers, assessmentId, qids), s)
  {
    var deps := DependentIds(cat.questions, GateOf(cat, answers, assessmentId).gateId);
    var after := Filtered(answers, assessmentId, deps, false);
    FilterKeepsOtherRows(answers, assessmentId, deps, false);
    assert |after| == |answers|;
    ScorerIgnoresApplicability(cat, answers, after, assessmentId, QuestionIdsOf(cat.questions, dim.id), s);
  }

  // ---------------------------------------------------------------------
  // The filter and the dimension status
  // ---------------------------------------------------------------------

  /**
   * After NEIN, a dependent question that is not multiple-choice has no
   * applicable row left, so no dimension that contains it is complete.
   */
  lemma NeinKeepsDimensionIncomplete(cat: Catalog, answers: seq<Answer>, assessmentId: int, q: Question)
    requires UniqueQuestionIds(cat.questions) && q in cat.questions
    requires GateOf(cat, answers, assessmentId).Gated? && GateOf(cat, answers, assessmentId).nein
    requires q.id in DependentIds(cat.questions, GateOf(cat, answers, assessmentId).gateId)
    requires q.questionType != MultipleChoice
    requires OnlyMultipleChoiceRepeats(cat, answers, assessmentId)
    ensures StatusOf(cat, AfterFilter(cat, answers, assessmentId), q.dimensionId, Some(assessmentId)) != Complete
  {
    var deps := DependentIds(cat.questions, GateOf(cat, answers, assessmentId).gateId);
    var ids := set x | x in deps;
    var after := Filtered(answers, assessmentId, deps, true);
    var k :| 0 <= k < |cat.questions| && cat.questions[k] == q;
    QuestionByIdUnique(cat.questions, k);
    FilterKeepsOtherRows(answers, assessmentId, deps, true);
    forall j | 0 <= j < |after| && IsRowOf(after[j], assessmentId, q.id)
      ensures !after[j].isApplicable
    {
      if j < |answers| && !IsFirstRowOf(answers, j, assessmentId, ids) {
        assert false;
      }
    }
    InapplicableQuestionBlocksComplete(cat, after, q.dimensionId, assessmentId, q);
  }

  // ---------------------------------------------------------------------
  // Built rows meet the premise
  // ---------------------------------------------------------------------

  lemma {:induction false} TwoRowsWithQuestion(rows: seq<Answer>, questionId: int, i: nat, j: nat)
    requires i < j < |rows| && rows[i].questionId == questionId && rows[j].questionId == questionId
    ensures |RowsWithQuestion(rows, questionId)| >= 2
  {
    var n := |rows| - 1;
    if j < n {
      TwoRowsWithQuestion(rows[..n], questionId, i, j);
    } else {
      OneRowWithQuestion(rows[..n], questionId, i);
    }
  }

  lemma {:induction false} OneRowWithQuestion(rows: seq<Answer>, questionId: int, i: nat)
    requires i < |rows| && rows[i].questionId == questionId
    ensures |RowsWithQuestion(rows, questionId)| >= 1
  {
    var n := |rows| - 1;
    if i < n {
      OneRowWithQuestion(rows[..n], questionId, i);
    }
  }

  lemma {:induction false} UniqueIdsOfVersion(qs: seq<Question>, versionId: int)
    requires UniqueQuestionIds(qs)
    ensures UniqueQuestionIds(QuestionsOfVersion(qs, versionId))
  {
    if |qs| > 0 {
      var init := qs[..|qs| - 1];
      var last := qs[|qs| - 1];
      assert UniqueQuestionIds(init);
      UniqueIdsOfVersion(init, versionId);
      var r := QuestionsOfVersion(init, versionId);
      forall q | q in r ensures q.id != last.id {
        var m :| 0 <= m < |init| && init[m] == q;
        assert qs[m] == q;
      }
    }
  }

  /** Two built rows of the same question can only come from a multiple-choice question. */
  lemma RepeatedRowsAreMultipleChoice(form: Form, parsers: Parsers, assessmentId: int, qs: seq<Question>, i: nat, j: nat)
    requires UniqueQuestionIds(qs)
    requires AnswerRows(form, parsers, assessmentId, qs).Success?
    requires var rows := AnswerRows(form, parsers, assessmentId, qs).value;
      i < j < |rows| && rows[i].questionId == rows[j].questionId
    ensures exists q :: q in qs && q.questionType == MultipleChoice
                     && q.id == AnswerRows(form, parsers, assessmentId, qs).value[i].questionId
  {
    var rows := AnswerRows(form, parsers, assessmentId, qs).value;
    AnswerRowsOwners(form, parsers, assessmentId, qs);
    AnswerRowsPerQuestion(form, parsers, assessmentId, qs);
    var q :| q in qs && q.id == rows[i].questionId;
    var m :| 0 <= m < |qs| && qs[m] == q;
    TwoRowsWithQuestion(rows, q.id, i, j);
    RowsForMeaning(form, parsers, assessmentId, q);
  }

  /** Rows of other assessments in front of a table that repeats only multiple-choice questions add no repetition. */
  lemma AppendedRowsRepeatOnlyMultipleChoice(cat: Catalog, others: seq<Answer>, rows: seq<Answer>, assessmentId: int)
    requires forall k :: 0 <= k < |others| ==> others[k].assessmentId != assessmentId
    requires forall i, j :: 0 <= i < j < |rows| && rows[i].questionId == rows[j].questionId ==>
      IsMultipleChoice(cat, rows[i].questionId)
    ensures OnlyMultipleChoiceRepeats(cat, others + rows, assessmentId)
  {
    var table := others + rows;
    forall i, j | 0 <= i < j < |table| && table[i].assessmentId == assessmentId && IsRowOf(table[j], assessmentId, table[i].questionId)
      ensures IsMultipleChoice(cat, table[i].questionId)
    {
      assert i >= |others|;
      assert rows[i - |others|] == table[i] && rows[j - |others|] == table[j];
    }
  }

  /**
   * The table `evaluate` and `update_assessment` store meets the premise of
   * the lemmas above: only multiple-choice questions of the assessment's
   * version own more than one row.
   */
  lemma BuiltAnswersRepeatOnlyMultipleChoice(cat: Catalog, old_answers: seq<Answer>, form: Form, parsers: Parsers, assessmentId: int, versionId: int)
    requires UniqueQuestionIds(cat.questions)
    requires AnswerRows(form, parsers, assessmentId, QuestionsOfVersion(cat.questions, versionId)).Success?
    ensures OnlyMultipleChoiceRepeats(cat,
      OtherAnswers(old_answers, assessmentId) + AnswerRows(form, parsers, assessmentId, QuestionsOfVersion(cat.questions, versionId)).value,
      assessmentId)
  {
    var qs := QuestionsOfVersion(cat.questions, versionId);
    var rows := AnswerRows(form, parsers, assessmentId, qs).value;
    var others := OtherAnswers(old_answers, assessmentId);
    UniqueIdsOfVersion(cat.questions, versionId);
    OtherAnswersMeaning(old_answers, assessmentId);
    assert forall k :: 0 <= k < |others| ==> others[k] in others;
    forall i, j | 0 <= i < j < |rows| && rows[i].questionId == rows[j].questionId
      ensures IsMultipleChoice(cat, rows[i].questionId)
    {
      RepeatedRowsAreMultipleChoice(form, parsers, assessmentId, qs, i, j);
      var q :| q in qs && q.questionType == MultipleChoice && q.id == rows[i].questionId;
      var c :| 0 <= c < |cat.questions| && cat.questions[c] == q;
      QuestionByIdUnique(cat.questions, c);
    }
    AppendedRowsRepeatOnlyMultipleChoice(cat, others, rows, assessmentId);
  }

  /**
   * A submission whose gate answer is NEIN: after the rows are stored and
   * the filter has run, every dimension is scored as if the dependent
   * questions had not been answered at all.
   */
  lemma SubmissionWithNein(cat: Catalog, old_answers: seq<Answer>, form: Form, parsers: Parsers, assessmentId: int, versionId: int, dim: Dimension, s: Strategy)
    requires UniqueQuestionIds(cat.questions)
    requires AnswerRows(form, parsers, assessmentId, QuestionsOfVersion(cat.questions, versionId)).Success?
    requires var stored := OtherAnswers(old_answers, assessmentId)
        + AnswerRows(form, parsers, assessmentId, QuestionsOfVersion(cat.questions, versionId)).value;
      GateOf(cat, stored, assessmentId).Gated? && GateOf(cat, stored, assessmentId).nein
    ensures var stored := OtherAnswers(old_answers, assessmentId)
        + AnswerRows(form, parsers, assessmentId, QuestionsOfVersion(cat.questions, versionId)).value;
      var deps := DependentIds(cat.questions, GateOf(cat, stored, assessmentId).gateId);
      var qids := QuestionIdsOf(cat.questions, dim.id);
      DimensionOutcome(cat, DimRows(AfterFilter(cat, stored, assessmentId), assessmentId, qids), s)
        == DimensionOutcome(cat, DimRows(stored, assessmentId, qids - (set x | x in deps)), s)
  {
    BuiltAnswersRepeatOnlyMultipleChoice(cat, old_answers, form, parsers, assessmentId, versionId);
    var stored := OtherAnswers(old_answers, assessmentId)
      + AnswerRows(form, parsers, assessmentId, QuestionsOfVersion(cat.questions, versionId)).value;
    NeinScoresWithoutDependents(cat, stored, assessmentId, dim, s);
  }

  // ---------------------------------------------------------------------
  // NEIN and a multiple-choice dependent
  // ---------------------------------------------------------------------

  /**
   * As written, NEIN clears only the first row of a dependent. When a
   * multiple-choice dependent has a later applicable row with a selected
   * option (the form stores one row per selected option), that row survives
   * the filter and the question still counts as answered; a dimension made
   * of such questions is reported complete although none of them applies.
   */
  lemma NeinLeavesLaterChoicesApplicable(cat: Catalog, answers: seq<Answer>, assessmentId: int, q: Question, i: nat, j: nat)
    requires q in cat.questions && q.questionType == MultipleChoice
    requires GateOf(cat, answers, assessmentId).Gated? && GateOf(cat, answers, assessmentId).nein
    requires q.id in DependentIds(cat.questions, GateOf(cat, answers, assessmentId).gateId)
    requires FirstAnswerIndex(answers, assessmentId, q.id) == Some(i) && i < j < |answers|
    requires IsApplicableRowOf(answers[j], assessmentId, q.id) && answers[j].scaleOptionId.Some?
    requires forall k :: i < k < j ==> !IsApplicableRowOf(answers[k], assessmentId, q.id)
    ensures IsAnswered(AfterFilter(cat, answers, assessmentId), assessmentId, q)
    ensures assessmentId != 0 && (forall p :: p in QuestionsOfDimension(cat.questions, q.dimensionId) ==> p == q) ==>
      StatusOf(cat, AfterFilter(cat, answers, assessmentId), q.dimensionId, Some(assessmentId)) == Complete
  {
    var deps := DependentIds(cat.questions, GateOf(cat, answers, assessmentId).gateId);
    var after := Filtered(answers, assessmentId, deps, true);
    assert AfterFilter(cat, answers, assessmentId) == after;
    LaterRowFirstApplicable(answers, assessmentId, deps, q.id, i, j);
    assert IsAnswered(after, assessmentId, q);
    var qs := QuestionsOfDimension(cat.questions, q.dimensionId);
    if assessmentId != 0 && forall p :: p in qs ==> p == q {
      StatusMeaning(cat, after, q.dimensionId, Some(assessmentId));
      assert q in qs;
      assert forall m :: 0 <= m < |qs| ==> IsAnswered(after, assessmentId, qs[m]);
    }
  }

  /** After NEIN, the first applicable row of a dependent is its next applicable row after the first one, unchanged. */
  lemma LaterRowFirstApplicable(answers: seq<Answer>, assessmentId: int, deps: seq<int>, questionId: int, i: nat, j: nat)
    requires questionId in deps
    requires FirstAnswerIndex(answers, assessmentId, questionId) == Some(i) && i < j < |answers|
    requires IsApplicableRowOf(answers[j], assessmentId, questionId)
    requires forall k :: i < k < j ==> !IsApplicableRowOf(answers[k], assessmentId, questionId)
    ensures var after := Filtered(answers, assessmentId, deps, true);
      j < |after| && after[j] == answers[j] && FirstApplicableIndex(after, assessmentId, questionId) == Some(j)
  {
    var after := Filtered(answers, assessmentId, deps, true);
    FilteredRow(answers, assessmentId, deps, true, i);
    FilteredRow(answers, assessmentId, deps, true, j);
    assert after[j] == answers[j];
    forall k | 0 <= k < j ensures !IsApplicableRowOf(after[k], assessmentId, questionId) {
      FilteredRow(answers, assessmentId, deps, true, k);
      if k < i {
        assert !IsRowOf(answers[k], assessmentId, questionId);
      } else if k == i {
        assert !after[k].isApplicable;
      } else {
        assert !IsApplicableRowOf(answers[k], assessmentId, questionId);
      }
    }
    FirstApplicableAt(after, assessmentId, questionId, j);
  }


  /**
   * With the intended filter, NEIN keeps every dimension that contains a
   * dependent question from being complete, whatever the dependent's type
   * and however many rows it had.
   */
  lemma CorrectedNeinKeepsDimensionIncomplete(cat: Catalog, answers: seq<Answer>, assessmentId: int, q: Question)
    requires UniqueQuestionIds(cat.questions) && q in cat.questions
    requires GateOf(cat, answers, assessmentId).Gated? && GateOf(cat, answers, assessmentId).nein
    requires q.id in DependentIds(cat.questions, GateOf(cat, answers, assessmentId).gateId)
    ensures StatusOf(cat, AfterFilterAllRows(cat, answers, assessmentId), q.dimensionId, Some(assessmentId)) != Complete
  {
    var deps := DependentIds(cat.questions, GateOf(cat, answers, assessmentId).gateId);
    DependentIdsDistinct(cat.questions, GateOf(cat, answers, assessmentId).gateId);
    NeinClearsAllRowsOfDependents(answers, assessmentId, deps);
    InapplicableQuestionBlocksComplete(cat, FilteredAllRows(answers, assessmentId, deps, true), q.dimensionId, assessmentId, q);
  }
}
