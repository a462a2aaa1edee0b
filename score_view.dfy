/**
 * The score cells of the assessment view (`fmt` and `best_of` in
 * `view_assessment`): what is shown next to a single-choice answer and next
 * to the selections of a multiple-choice answer, per strategy.
 */
module ScoreView {
  import opened Schema
  import ScoringService

  /** A cell: empty (`None`), "AUSSCHLUSS", "N/A", or a score. */
  datatype ScoreCell = NoCell | Exclusion | NotApplicable | Score(value: real)

  /** `fmt`: the cell of the one option-score row of a single-choice answer, if there is one. */
  function Fmt(os: Option<OptionScore>): ScoreCell {
    match os
    case None => NoCell
    case Some(o) =>
      if o.isExclusion then Exclusion
      else if !o.isApplicable then NotApplicable
      else if o.score.None? then NoCell
      else Score(o.score.value)
  }

  /** The applicable, non-null scores of `xs`, in order. */
  function ApplicableScores(xs: seq<OptionScore>): (r: seq<real>)
    ensures forall x :: x in r <==> exists o :: o in xs && o.isApplicable && o.score == Some(x)
  {
    if |xs| == 0 then []
    else
      var o := xs[|xs| - 1];
      assert xs == xs[..|xs| - 1] + [o];
      ApplicableScores(xs[..|xs| - 1]) + (if o.isApplicable && o.score.Some? then [o.score.value] else [])
  }

  predicate AnyExclusion(xs: seq<OptionScore>) {
    exists i :: 0 <= i < |xs| && xs[i].isExclusion
  }

  /** `best_of`: the cell for the option-score rows of all selected options. */
  function BestOf(xs: seq<OptionScore>): ScoreCell {
    if |xs| == 0 then NoCell
    else if AnyExclusion(xs) then Exclusion
    else
      var applicable := ApplicableScores(xs);
      if |applicable| == 0 then NotApplicable
      else Score(ScoringService.Max(applicable))
  }

  /**
   * The option ids selected in the rows of a multiple-choice question: the
   * truthy `scale_option_id` of every row of the question, in row order.
   */
  function SelectedOptionIds(answers: seq<Answer>, assessmentId: int, questionId: int): (r: seq<int>)
    ensures forall x :: x in r <==>
      exists a :: a in answers && IsRowOf(a, assessmentId, questionId) && a.scaleOptionId == Some(x) && x != 0
  {
    if |answers| == 0 then []
    else
      var a := answers[|answers| - 1];
      assert answers == answers[..|answers| - 1] + [a];
      SelectedOptionIds(answers[..|answers| - 1], assessmentId, questionId)
        + (if IsRowOf(a, assessmentId, questionId) && Truthy(a.scaleOptionId) then [a.scaleOptionId.value] else [])
  }

  /**
   * The option-score rows of question `questionId` and strategy `s` whose
   * option is one of `ids`: one row per distinct id that has a row (the
   * `IN (...)` query returns each table row once).
   */
  function SelectedScores(cat: Catalog, questionId: int, ids: seq<int>, s: Strategy): (r: seq<OptionScore>)
    ensures forall o :: o in r <==>
      exists x :: x in ids && ScoreKey(questionId, x, s) in cat.optionScores
        && cat.optionScores[ScoreKey(questionId, x, s)] == o
  {
    if |ids| == 0 then []
    else
      var x := ids[|ids| - 1];
      var init := ids[..|ids| - 1];
      assert ids == init + [x];
      var key := ScoreKey(questionId, x, s);
      SelectedScores(cat, questionId, init, s)
        + (if x in init || key !in cat.optionScores then [] else [cat.optionScores[key]])
  }

  /** The cell of a single-choice answer with a selected option. */
  function SingleChoiceCell(cat: Catalog, questionId: int, optionId: int, s: Strategy): ScoreCell {
    var key := ScoreKey(questionId, optionId, s);
    Fmt(if key in cat.optionScores then Some(cat.optionScores[key]) else None)
  }

  /** The cell of a multiple-choice answer, over all rows of the question. */
  function MultipleChoiceCell(cat: Catalog, answers: seq<Answer>, assessmentId: int, questionId: int, s: Strategy): ScoreCell {
    BestOf(SelectedScores(cat, questionId, SelectedOptionIds(answers, assessmentId, questionId), s))
  }

  // ---------------------------------------------------------------------
  // What the cells mean
  // ---------------------------------------------------------------------

  /** Every case of `best_of`, both ways: empty, exclusion first, then N/A, else the maximum applicable score. */
  lemma BestOfCases(xs: seq<OptionScore>)
    ensures BestOf(xs) == NoCell <==> |xs| == 0
    ensures BestOf(xs) == Exclusion <==> exists i :: 0 <= i < |xs| && xs[i].isExclusion
    ensures BestOf(xs) == NotApplicable <==>
      && |xs| > 0
      && (forall i :: 0 <= i < |xs| ==> !xs[i].isExclusion)
      && (forall i :: 0 <= i < |xs| ==> !xs[i].isApplicable || xs[i].score.None?)
    ensures BestOf(xs).Score? ==>
      && (forall i :: 0 <= i < |xs| ==> !xs[i].isExclusion)
      && (exists i :: 0 <= i < |xs| && xs[i].isApplicable && xs[i].score == Some(BestOf(xs).value))
      && (forall i :: 0 <= i < |xs| && xs[i].isApplicable && xs[i].score.Some? ==> xs[i].score.value <= BestOf(xs).value)
  {
    var applicable := ApplicableScores(xs);
    if BestOf(xs).Score? {
      var m := BestOf(xs).value;
      ScoringService.MinMaxBound(applicable);
      MaxIsElement(applicable);
      assert m in applicable;
      var o :| o in xs && o.isApplicable && o.score == Some(m);
      var k :| 0 <= k < |xs| && xs[k] == o;
      forall i | 0 <= i < |xs| && xs[i].isApplicable && xs[i].score.Some?
        ensures xs[i].score.value <= m
      {
        assert xs[i].score.value in applicable;
      }
    }
    if |xs| > 0 && !AnyExclusion(xs) && |applicable| > 0 {
      var x := applicable[0];
      assert x in applicable;
    }
  }

  lemma {:induction false} MaxIsElement(xs: seq<real>)
    requires |xs| > 0
    ensures ScoringService.Max(xs) in xs
  {
    if |xs| > 1 {
      MaxIsElement(xs[..|xs| - 1]);
      assert xs[..|xs| - 1] <= xs;
    }
  }

  /** `best_of` depends only on which option-score rows are present: neither their order nor repetitions matter. */
  lemma BestOfIgnoresOrder(xs: seq<OptionScore>, ys: seq<OptionScore>)
    requires forall o :: o in xs <==> o in ys
    ensures BestOf(xs) == BestOf(ys)
  {
    BestOfCases(xs);
    BestOfCases(ys);
    if AnyExclusion(xs) {
      var i :| 0 <= i < |xs| && xs[i].isExclusion;
      assert xs[i] in ys;
    }
    if AnyExclusion(ys) {
      var i :| 0 <= i < |ys| && ys[i].isExclusion;
      assert ys[i] in xs;
    }
    if BestOf(xs).Score? {
      var i :| 0 <= i < |xs| && xs[i].isApplicable && xs[i].score == Some(BestOf(xs).value);
      assert xs[i] in ys;
      var k :| 0 <= k < |ys| && ys[k] == xs[i];
    }
    if BestOf(ys).Score? {
      var j :| 0 <= j < |ys| && ys[j].isApplicable && ys[j].score == Some(BestOf(ys).value);
      assert ys[j] in xs;
      var k :| 0 <= k < |xs| && xs[k] == ys[j];
    }
    assert |xs| == 0 <==> |ys| == 0 by {
      if |xs| > 0 {
        assert xs[0] in ys;
      }
      if |ys| > 0 {
        assert ys[0] in xs;
      }
    }
  }

  /**
   * `fmt` is `best_of` of the one row except on an applicable row with a null
   * score, which `fmt` shows as an empty cell and `best_of` as "N/A".
   */
  lemma FmtAgainstBestOf(os: Option<OptionScore>)
    ensures os.None? ==> Fmt(os) == BestOf([])
    ensures os.Some? ==>
      (Fmt(os) != BestOf([os.value]) <==> !os.value.isExclusion && os.value.isApplicable && os.value.score.None?)
    ensures os.Some? && Fmt(os) != BestOf([os.value]) ==> Fmt(os) == NoCell && BestOf([os.value]) == NotApplicable
  {
    if os.Some? {
      var o := os.value;
      assert [o][..0] == [];
      assert AnyExclusion([o]) <==> o.isExclusion by {
        if o.isExclusion {
          assert [o][0].isExclusion;
        }
      }
      assert ApplicableScores([o]) == (if o.isApplicable && o.score.Some? then [o.score.value] else []);
    }
  }

  /**
   * What a single-choice answer shows is what the scorer does with it:
   * "AUSSCHLUSS" exactly when the row excludes the dimension, a score exactly
   * when the row adds that score, and an empty or "N/A" cell when it adds
   * nothing.
   */
  lemma SingleChoiceCellAgreesWithScoring(cat: Catalog, a: Answer, q: Question, s: Strategy)
    requires UniqueQuestionIds(cat.questions) && q in cat.questions
    requires a.questionId == q.id && q.questionType == SingleChoice && Truthy(a.scaleOptionId)
    ensures SingleChoiceCell(cat, q.id, a.scaleOptionId.value, s) == Exclusion <==>
      ScoringService.ContributionOf(cat, a, s) == ScoringService.Exclude
    ensures forall x :: SingleChoiceCell(cat, q.id, a.scaleOptionId.value, s) == Score(x) <==>
      ScoringService.ContributionOf(cat, a, s) == ScoringService.Add(x)
    ensures SingleChoiceCell(cat, q.id, a.scaleOptionId.value, s) in {NoCell, NotApplicable} <==>
      ScoringService.ContributionOf(cat, a, s) == ScoringService.Skip
  {
    var k :| 0 <= k < |cat.questions| && cat.questions[k] == q;
    QuestionByIdUnique(cat.questions, k);
  }

  /** The cell of a multiple-choice answer is the same whatever order the selections were made in. */
  lemma MultipleChoiceCellIgnoresRowOrder(cat: Catalog, answers: seq<Answer>, others: seq<Answer>, assessmentId: int, questionId: int, s: Strategy)
    requires multiset(answers) == multiset(others)
    ensures MultipleChoiceCell(cat, answers, assessmentId, questionId, s) == MultipleChoiceCell(cat, others, assessmentId, questionId, s)
  {
    var ids := SelectedOptionIds(answers, assessmentId, questionId);
    var ids' := SelectedOptionIds(others, assessmentId, questionId);
    forall a ensures a in answers <==> a in others {
      assert a in answers <==> a in multiset(answers);
      assert a in others <==> a in multiset(others);
    }
    assert forall x :: x in ids <==> x in ids';
    BestOfIgnoresOrder(SelectedScores(cat, questionId, ids, s), SelectedScores(cat, questionId, ids', s));
  }
}
