/**
 * The scoring service: one mean score (or an exclusion) per dimension and
 * strategy, two strategy totals and the recommendation drawn from them.
 */
module ScoringService {
  import opened Schema

  /** The decisive score difference between the two strategies. */
  const Threshold: real := 0.25

  // ---------------------------------------------------------------------
  // Dimension results
  // ---------------------------------------------------------------------

  /** What a single answer row does to a dimension for one strategy. */
  datatype Contribution = Skip | Exclude | Add(score: real)

  /**
   * The contribution of one answer row: only a single-choice answer with a
   * (truthy) selected option that has an option-score row counts; that row
   * either excludes, or adds its score when it is applicable and not null.
   */
  function ContributionOf(cat: Catalog, a: Answer, s: Strategy): Contribution {
    match QuestionById(cat.questions, a.questionId)
    case None => Skip  // rows are selected by the ids of existing questions
    case Some(q) =>
      if q.questionType.SingleChoice? && Truthy(a.scaleOptionId) then
        var key := ScoreKey(q.id, a.scaleOptionId.value, s);
        if key !in cat.optionScores then Skip
        else
          var os := cat.optionScores[key];
          if os.isExclusion then Exclude
          else if os.isApplicable && os.score.Some? then Add(os.score.value)
          else Skip
      else Skip
  }

  /** The scores collected from `rows`, in row order. */
  function Collected(cat: Catalog, rows: seq<Answer>, s: Strategy): seq<real> {
    if |rows| == 0 then []
    else
      var init := Collected(cat, rows[..|rows| - 1], s);
      match ContributionOf(cat, rows[|rows| - 1], s)
      case Add(x) => init + [x]
      case _ => init
  }

  /** The question of the first excluding row, if any. */
  function ExcludedBy(cat: Catalog, rows: seq<Answer>, s: Strategy): Option<int> {
    if |rows| == 0 then None
    else
      var init := ExcludedBy(cat, rows[..|rows| - 1], s);
      if init.Some? then init
      else if ContributionOf(cat, rows[|rows| - 1], s).Exclude? then Some(rows[|rows| - 1].questionId)
      else None
  }

  function Sum(xs: seq<real>): real {
    if |xs| == 0 then 0.0 else Sum(xs[..|xs| - 1]) + xs[|xs| - 1]
  }

  /** Arithmetic mean; null (not zero) for an empty list. */
  function Mean(xs: seq<real>): Option<real> {
    if |xs| == 0 then None else Some(Sum(xs) / |xs| as real)
  }

  function Min(xs: seq<real>): real
    requires |xs| > 0
  {
    if |xs| == 1 then xs[0]
    else var m := Min(xs[..|xs| - 1]); if xs[|xs| - 1] < m then xs[|xs| - 1] else m
  }

  function Max(xs: seq<real>): real
    requires |xs| > 0
  {
    if |xs| == 1 then xs[0]
    else var m := Max(xs[..|xs| - 1]); if xs[|xs| - 1] > m then xs[|xs| - 1] else m
  }

  datatype DimOutcome = DimOutcome(meanScore: Option<real>, isExcluded: bool, excludedBy: Option<int>)

  /** The specification of one dimension result over the dimension's answer rows. */
  function DimensionOutcome(cat: Catalog, rows: seq<Answer>, s: Strategy): DimOutcome {
    match ExcludedBy(cat, rows, s)
    case Some(q) => DimOutcome(None, true, Some(q))
    case None => DimOutcome(Mean(Collected(cat, rows, s)), false, None)
  }

  /** Ids of the questions of a dimension. */
  function QuestionIdsOf(qs: seq<Question>, dimensionId: int): set<int> {
    set q | q in qs && q.dimensionId == dimensionId :: q.id
  }

  /** The answer rows of one assessment whose question is in `questionIds`, in table order. */
  function DimRows(answers: seq<Answer>, assessmentId: int, questionIds: set<int>): seq<Answer> {
    if |answers| == 0 then []
    else
      var a := answers[|answers| - 1];
      DimRows(answers[..|answers| - 1], assessmentId, questionIds)
        + (if a.assessmentId == assessmentId && a.questionId in questionIds then [a] else [])
  }

  /** The row `_calculate_dimension_result` adds for (dimension, strategy). */
  function ResultRow(cat: Catalog, answers: seq<Answer>, assessmentId: int, dim: Dimension, s: Strategy): DimensionResult {
    var o := DimensionOutcome(cat, DimRows(answers, assessmentId, QuestionIdsOf(cat.questions, dim.id)), s);
    DimensionResult(assessmentId, dim.id, s, o.meanScore, o.isExcluded, o.excludedBy)
  }

  method CalculateDimensionResult(db: Database, cat: Catalog, assessmentId: int, dim: Dimension, s: Strategy)
    modifies db
    ensures db.dimensionResults == old(db.dimensionResults) + [ResultRow(cat, db.answers, assessmentId, dim, s)]
    ensures db.answers == old(db.answers) && db.totalResults == old(db.totalResults)
    ensures db.assessments == old(db.assessments) && db.processes == old(db.processes)
  {
    var questionIds := QuestionIdsOf(cat.questions, dim.id);
    var rows := DimRows(db.answers, assessmentId, questionIds);
    var meanScore, isExcluded, excludedBy := ScoreRows(cat, rows, s);
    db.dimensionResults := db.dimensionResults
      + [DimensionResult(assessmentId, dim.id, s, meanScore, isExcluded, excludedBy)];
  }

  /**
   * The loop of `_calculate_dimension_result` over the dimension's answer
   * rows: it stops at the first excluding row, otherwise averages the
   * collected scores.
   */
  method ScoreRows(cat: Catalog, rows: seq<Answer>, s: Strategy)
    returns (meanScore: Option<real>, isExcluded: bool, excludedBy: Option<int>)
    ensures DimOutcome(meanScore, isExcluded, excludedBy) == DimensionOutcome(cat, rows, s)
  {
    var scores: seq<real> := [];
    isExcluded := false;
    excludedBy := None;
    var i := 0;
    while i < |rows|
      invariant 0 <= i <= |rows|
      invariant scores == Collected(cat, rows[..i], s)
      invariant ExcludedBy(cat, rows[..i], s).None?
    {
      var answer := rows[i];
      PrefixStep(cat, rows, s, i);
      var question := QuestionById(cat.questions, answer.questionId);
      if question.Some? && question.value.questionType.SingleChoice? && Truthy(answer.scaleOptionId) {
        var key := ScoreKey(question.value.id, answer.scaleOptionId.value, s);
        if key in cat.optionScores {
          var optionScore := cat.optionScores[key];
          if optionScore.isExclusion {
            isExcluded := true;
            excludedBy := Some(question.value.id);
            ExcludedByPrefix(cat, rows, s, i + 1);
            return None, isExcluded, excludedBy;
          }
          if optionScore.isApplicable && optionScore.score.Some? {
            scores := scores + [optionScore.score.value];
          }
        }
      }
      i := i + 1;
    }
    assert rows[..i] == rows;
    meanScore := None;
    if |scores| > 0 {
      meanScore := Some(Sum(scores) / |scores| as real);
    }
  }

  /** Extending a prefix by one row adds that row's contribution. */
  lemma PrefixStep(cat: Catalog, rows: seq<Answer>, s: Strategy, i: nat)
    requires i < |rows|
    ensures Collected(cat, rows[..i + 1], s) ==
      Collected(cat, rows[..i], s)
        + (if ContributionOf(cat, rows[i], s).Add? then [ContributionOf(cat, rows[i], s).score] else [])
    ensures ExcludedBy(cat, rows[..i + 1], s) ==
      if ExcludedBy(cat, rows[..i], s).Some? then ExcludedBy(cat, rows[..i], s)
      else if ContributionOf(cat, rows[i], s).Exclude? then Some(rows[i].questionId)
      else None
  {
    assert rows[..i + 1][..i] == rows[..i];
  }

  /** Once a prefix has excluded, the whole sequence excludes by the same question. */
  lemma {:induction false} ExcludedByPrefix(cat: Catalog, rows: seq<Answer>, s: Strategy, k: nat)
    requires k <= |rows| && ExcludedBy(cat, rows[..k], s).Some?
    ensures ExcludedBy(cat, rows, s) == ExcludedBy(cat, rows[..k], s)
  {
    if k < |rows| {
      assert rows[..|rows| - 1][..k] == rows[..k];
      ExcludedByPrefix(cat, rows[..|rows| - 1], s, k);
    } else {
      assert rows[..k] == rows;
    }
  }

  lemma {:induction false} NoExclusionNoExcluder(cat: Catalog, rows: seq<Answer>, s: Strategy)
    requires forall j :: 0 <= j < |rows| ==> !ContributionOf(cat, rows[j], s).Exclude?
    ensures ExcludedBy(cat, rows, s) == None
  {
    if |rows| > 0 {
      NoExclusionNoExcluder(cat, rows[..|rows| - 1], s);
    }
  }

  /**
   * The first excluding row decides the dimension: it is excluded by that
   * row's question and has no mean, whatever scores other rows carry.
   */
  lemma {:induction false} ExclusionShortCircuits(cat: Catalog, rows: seq<Answer>, s: Strategy, k: nat)
    requires k < |rows| && ContributionOf(cat, rows[k], s).Exclude?
    requires forall j :: 0 <= j < k ==> !ContributionOf(cat, rows[j], s).Exclude?
    ensures DimensionOutcome(cat, rows, s) == DimOutcome(None, true, Some(rows[k].questionId))
  {
    NoExclusionNoExcluder(cat, rows[..k], s);
    assert rows[..k + 1][..k] == rows[..k];
    ExcludedByPrefix(cat, rows, s, k + 1);
  }

  /** Without an excluding row the dimension is not excluded and its mean is that of the collected scores. */
  lemma NoExclusionGivesMean(cat: Catalog, rows: seq<Answer>, s: Strategy)
    requires forall j :: 0 <= j < |rows| ==> !ContributionOf(cat, rows[j], s).Exclude?
    ensures DimensionOutcome(cat, rows, s) == DimOutcome(Mean(Collected(cat, rows, s)), false, None)
  {
    NoExclusionNoExcluder(cat, rows, s);
  }

  /**
   * The collected scores are exactly the `Add` contributions of the rows:
   * every collected score comes from some row, and every row that adds a
   * score has it collected.
   */
  lemma {:induction false} CollectedComeFromScoredRows(cat: Catalog, rows: seq<Answer>, s: Strategy)
    ensures forall x :: x in Collected(cat, rows, s) ==>
      exists j :: 0 <= j < |rows| && ContributionOf(cat, rows[j], s) == Add(x)
    ensures forall j :: 0 <= j < |rows| && ContributionOf(cat, rows[j], s).Add? ==>
      ContributionOf(cat, rows[j], s).score in Collected(cat, rows, s)
  {
    if |rows| > 0 {
      var init := rows[..|rows| - 1];
      CollectedComeFromScoredRows(cat, init, s);
      forall x | x in Collected(cat, rows, s)
        ensures exists j :: 0 <= j < |rows| && ContributionOf(cat, rows[j], s) == Add(x)
      {
        if x in Collected(cat, init, s) {
          var j :| 0 <= j < |init| && ContributionOf(cat, init[j], s) == Add(x);
          assert rows[j] == init[j];
        } else {
          assert ContributionOf(cat, rows[|rows| - 1], s) == Add(x);
        }
      }
      forall j | 0 <= j < |rows| && ContributionOf(cat, rows[j], s).Add?
        ensures ContributionOf(cat, rows[j], s).score in Collected(cat, rows, s)
      {
        if j < |init| {
          assert rows[j] == init[j];
        }
      }
    }
  }

  /** A row adds or excludes only if it is a single-choice answer with a selected option that has an option-score row. */
  lemma ContributionNeedsScoredOption(cat: Catalog, a: Answer, s: Strategy)
    ensures !ContributionOf(cat, a, s).Skip? ==>
      exists q :: QuestionById(cat.questions, a.questionId) == Some(q)
        && q.questionType.SingleChoice? && Truthy(a.scaleOptionId)
        && ScoreKey(q.id, a.scaleOptionId.value, s) in cat.optionScores
    ensures ContributionOf(cat, a, s).Exclude? ==>
      cat.optionScores[ScoreKey(a.questionId, a.scaleOptionId.value, s)].isExclusion
    ensures ContributionOf(cat, a, s).Add? ==>
      var os := cat.optionScores[ScoreKey(a.questionId, a.scaleOptionId.value, s)];
      !os.isExclusion && os.isApplicable && os.score == Some(ContributionOf(cat, a, s).score)
  {
  }

  /** Rows that contribute nothing leave the dimension without mean and without exclusion. */
  lemma {:induction false} SkippedRowsScoreNothing(cat: Catalog, rows: seq<Answer>, s: Strategy)
    requires forall j :: 0 <= j < |rows| ==> ContributionOf(cat, rows[j], s).Skip?
    ensures DimensionOutcome(cat, rows, s) == DimOutcome(None, false, None)
  {
    NoExclusionNoExcluder(cat, rows, s);
    NoneCollected(cat, rows, s);
  }

  lemma {:induction false} NoneCollected(cat: Catalog, rows: seq<Answer>, s: Strategy)
    requires forall j :: 0 <= j < |rows| ==> ContributionOf(cat, rows[j], s).Skip?
    ensures Collected(cat, rows, s) == []
  {
    if |rows| > 0 {
      NoneCollected(cat, rows[..|rows| - 1], s);
    }
  }

  lemma {:induction false} SumBounds(xs: seq<real>, lo: real, hi: real)
    requires forall i :: 0 <= i < |xs| ==> lo <= xs[i] <= hi
    ensures |xs| as real * lo <= Sum(xs) <= |xs| as real * hi
  {
    if |xs| > 0 {
      SumBounds(xs[..|xs| - 1], lo, hi);
    }
  }

  lemma {:induction false} MinMaxBound(xs: seq<real>)
    requires |xs| > 0
    ensures forall i :: 0 <= i < |xs| ==> Min(xs) <= xs[i] <= Max(xs)
  {
    if |xs| > 1 {
      MinMaxBound(xs[..|xs| - 1]);
      assert forall i :: 0 <= i < |xs| - 1 ==> xs[i] == xs[..|xs| - 1][i];
    }
  }

  /** A mean is null exactly for an empty list and otherwise lies between its minimum and maximum. */
  lemma MeanBetweenMinAndMax(xs: seq<real>)
    ensures Mean(xs).None? <==> |xs| == 0
    ensures |xs| > 0 ==> Min(xs) <= Mean(xs).value <= Max(xs)
  {
    if |xs| > 0 {
      MinMaxBound(xs);
      SumBounds(xs, Min(xs), Max(xs));
      QuotientBounds(Sum(xs), |xs| as real, Min(xs), Max(xs));
    }
  }

  lemma QuotientBounds(total: real, n: real, lo: real, hi: real)
    requires n > 0.0 && n * lo <= total <= n * hi
    ensures lo <= total / n <= hi
  {
    assert total / n - lo == (total - n * lo) / n;
    assert hi - total / n == (n * hi - total) / n;
  }

  /**
   * A dimension's rows are exactly the answers of the assessment whose
   * question belongs to the dimension: no other answer reaches its loop, and
   * every such answer does.
   */
  lemma {:induction false} DimRowsSelect(answers: seq<Answer>, assessmentId: int, questionIds: set<int>)
    ensures forall a :: a in DimRows(answers, assessmentId, questionIds) <==>
      a in answers && a.assessmentId == assessmentId && a.questionId in questionIds
  {
    if |answers| > 0 {
      DimRowsSelect(answers[..|answers| - 1], assessmentId, questionIds);
      assert answers == answers[..|answers| - 1] + [answers[|answers| - 1]];
    }
  }

  // ---------------------------------------------------------------------
  // Totals and recommendation
  // ---------------------------------------------------------------------

  /** `DimensionResult.query.filter_by(assessment_id=.., automation_type=..).all()`. */
  function StrategyRows(results: seq<DimensionResult>, assessmentId: int, s: Strategy): seq<DimensionResult> {
    if |results| == 0 then []
    else
      var r := results[|results| - 1];
      StrategyRows(results[..|results| - 1], assessmentId, s)
        + (if r.assessmentId == assessmentId && r.strategy == s then [r] else [])
  }

  predicate AnyExcluded(results: seq<DimensionResult>) {
    exists i :: 0 <= i < |results| && results[i].isExcluded
  }

  /** The means of the dimensions that are neither excluded nor null. */
  function UsableMeans(results: seq<DimensionResult>): seq<real> {
    if |results| == 0 then []
    else
      var r := results[|results| - 1];
      UsableMeans(results[..|results| - 1])
        + (if !r.isExcluded && r.meanScore.Some? then [r.meanScore.value] else [])
  }

  /** The decision table of `_determine_recommendation`. */
  function DetermineRecommendation(totalRpa: Option<real>, totalIpa: Option<real>, rpaExcluded: bool, ipaExcluded: bool): Recommendation {
    if rpaExcluded && ipaExcluded then NoAutomation
    else if rpaExcluded && !ipaExcluded then RecommendIPA
    else if ipaExcluded && !rpaExcluded then RecommendRPA
    else if totalRpa.Some? && totalIpa.Some? then
      var diff := totalIpa.value - totalRpa.value;
      if diff > Threshold then RecommendIPA
      else if diff < -Threshold then RecommendRPA
      else Neutral
    else Incomplete
  }

  /** The total result `_calculate_total_result` derives from the stored dimension results. */
  function TotalOf(assessmentId: int, results: seq<DimensionResult>): TotalResult {
    var rpa := StrategyRows(results, assessmentId, RPA);
    var ipa := StrategyRows(results, assessmentId, IPA);
    var totalRpa := Mean(UsableMeans(rpa));
    var totalIpa := Mean(UsableMeans(ipa));
    TotalResult(assessmentId, totalRpa, totalIpa, AnyExcluded(rpa), AnyExcluded(ipa),
                DetermineRecommendation(totalRpa, totalIpa, AnyExcluded(rpa), AnyExcluded(ipa)))
  }

  method CalculateTotalResult(db: Database, assessmentId: int) returns (total: TotalResult)
    modifies db
    ensures total == TotalOf(assessmentId, db.dimensionResults)
    ensures db.totalResults == old(db.totalResults) + [total]
    ensures db.answers == old(db.answers) && db.dimensionResults == old(db.dimensionResults)
    ensures db.assessments == old(db.assessments) && db.processes == old(db.processes)
  {
    var rpaRows := StrategyRows(db.dimensionResults, assessmentId, RPA);
    var ipaRows := StrategyRows(db.dimensionResults, assessmentId, IPA);
    var rpaExcluded := AnyExcluded(rpaRows);
    var totalRpa := Mean(UsableMeans(rpaRows));
    var ipaExcluded := AnyExcluded(ipaRows);
    var totalIpa := Mean(UsableMeans(ipaRows));
    var recommendation := DetermineRecommendation(totalRpa, totalIpa, rpaExcluded, ipaExcluded);
    total := TotalResult(assessmentId, totalRpa, totalIpa, rpaExcluded, ipaExcluded, recommendation);
    db.totalResults := db.totalResults + [total];
  }

  /** A strategy total is null exactly when no dimension is both non-excluded and non-null. */
  lemma {:induction false} TotalNullIffNothingUsable(results: seq<DimensionResult>)
    ensures Mean(UsableMeans(results)).None? <==>
      forall i :: 0 <= i < |results| ==> results[i].isExcluded || results[i].meanScore.None?
  {
    if |results| > 0 {
      var init := results[..|results| - 1];
      TotalNullIffNothingUsable(init);
      assert forall i :: 0 <= i < |init| ==> init[i] == results[i];
    }
  }

  /**
   * The means averaged into a total are exactly those of the dimension
   * results that are neither excluded nor null.
   */
  lemma {:induction false} UsableMeansFromIncludedDimensions(results: seq<DimensionResult>)
    ensures forall x :: x in UsableMeans(results) ==>
      exists i :: 0 <= i < |results| && !results[i].isExcluded && results[i].meanScore == Some(x)
    ensures forall i :: 0 <= i < |results| && !results[i].isExcluded && results[i].meanScore.Some? ==>
      results[i].meanScore.value in UsableMeans(results)
  {
    if |results| > 0 {
      var init := results[..|results| - 1];
      UsableMeansFromIncludedDimensions(init);
      forall x | x in UsableMeans(results)
        ensures exists i :: 0 <= i < |results| && !results[i].isExcluded && results[i].meanScore == Some(x)
      {
        if x in UsableMeans(init) {
          var i :| 0 <= i < |init| && !init[i].isExcluded && init[i].meanScore == Some(x);
          assert results[i] == init[i];
        }
      }
      forall i | 0 <= i < |results| && !results[i].isExcluded && results[i].meanScore.Some?
        ensures results[i].meanScore.value in UsableMeans(results)
      {
        if i < |init| {
          assert results[i] == init[i];
        }
      }
    }
  }

  /**
   * The seeded catalog as far as question 2.1 answered "Nein" needs it:
   * dimension 2 with its questions 2.1 (id 4, yes/no) to 2.3, the yes/no
   * options JA (6), NEIN (7) and KA (8), and the two option scores of NEIN.
   */
  function SeedCatalog(): Catalog {
    Catalog(
      [Dimension(1, 1, "1", 1, "economic"), Dimension(2, 1, "2", 2, "mean")],
      [Question(4, 1, 2, "2.1", SingleChoice, None), Question(5, 1, 2, "2.2", SingleChoice, None),
       Question(6, 1, 2, "2.3", SingleChoice, None)],
      map[6 := ScaleOption(6, "JA", "Ja", false), 7 := ScaleOption(7, "NEIN", "Nein", false),
          8 := ScaleOption(8, "KA", "Keine Angabe", true)],
      map[ScoreKey(4, 7, RPA) := OptionScore(None, true, true),
          ScoreKey(4, 7, IPA) := OptionScore(Some(4.0), false, true)])
  }

  /** The seeded answer "Nein" to question 2.1 is the one row of dimension 2. */
  lemma SeedDimensionRows(cat: Catalog, answers: seq<Answer>)
    requires cat == SeedCatalog() && answers == [Answer(1, 4, Some(7), None, true)]
    ensures DimRows(answers, 1, QuestionIdsOf(cat.questions, 2)) == answers
  {
    var q := cat.questions[0];
    var ids := QuestionIdsOf(cat.questions, 2);
    assert q in cat.questions && q.dimensionId == 2;
    assert 4 in ids;
    assert answers[..|answers| - 1] == [];
    assert DimRows(answers, 1, ids) == DimRows([], 1, ids) + [answers[0]];
  }

  /** "Nein" on question 2.1 excludes RPA and scores 4.0 for IPA. */
  lemma SeedContributions(cat: Catalog, a: Answer)
    requires cat == SeedCatalog() && a == Answer(1, 4, Some(7), None, true)
    ensures ContributionOf(cat, a, RPA) == Exclude
    ensures ContributionOf(cat, a, IPA) == Add(4.0)
  {
    assert QuestionById(cat.questions, 4) == Some(cat.questions[0]);
    assert ScoreKey(4, 7, RPA) in cat.optionScores && cat.optionScores[ScoreKey(4, 7, RPA)].isExclusion;
    assert ScoreKey(4, 7, IPA) in cat.optionScores && cat.optionScores[ScoreKey(4, 7, IPA)] == OptionScore(Some(4.0), false, true);
  }

  /** The seeded dimension results: RPA excluded by question 2.1 (id 4), IPA with mean 4.0. */
  lemma SeedResultRows(cat: Catalog, answers: seq<Answer>)
    requires cat == SeedCatalog() && answers == [Answer(1, 4, Some(7), None, true)]
    ensures ResultRow(cat, answers, 1, cat.dimensions[1], RPA) == DimensionResult(1, 2, RPA, None, true, Some(4))
    ensures ResultRow(cat, answers, 1, cat.dimensions[1], IPA) == DimensionResult(1, 2, IPA, Some(4.0), false, None)
  {
    SeedDimensionRows(cat, answers);
    SeedContributions(cat, answers[0]);
    assert answers[..0] == [];
    assert ExcludedBy(cat, answers, RPA) == Some(4);
    assert ExcludedBy(cat, answers, IPA) == None;
    assert Collected(cat, answers, IPA) == [4.0];
    assert [4.0][..0] == [];
  }

  /** An excluded RPA result next to an IPA mean of 4.0 totals to IPA 4.0, RPA null, and recommends IPA. */
  lemma SeedTotal(rpa: DimensionResult, ipa: DimensionResult)
    requires rpa == DimensionResult(1, 2, RPA, None, true, Some(4))
    requires ipa == DimensionResult(1, 2, IPA, Some(4.0), false, None)
    ensures TotalOf(1, [rpa, ipa]) == TotalResult(1, None, Some(4.0), true, false, RecommendIPA)
  {
    var results := [rpa, ipa];
    assert results[..1] == [rpa];
    assert [rpa][..0] == [];
    assert StrategyRows([rpa], 1, RPA) == [rpa];
    assert StrategyRows([rpa], 1, IPA) == [];
    assert StrategyRows(results, 1, RPA) == [rpa];
    assert StrategyRows(results, 1, IPA) == [ipa];
    assert UsableMeans([rpa]) == [];
    assert UsableMeans([ipa]) == [4.0];
    assert [4.0][..0] == [];
    assert AnyExcluded([rpa]);
    assert !AnyExcluded([ipa]);
  }

  /**
   * The seeded question 2.1 answered "Nein": RPA is excluded by question 2.1,
   * IPA scores 4.0, and the recommendation is IPA.
   */
  lemma SeededNeinOnQuestion21(cat: Catalog, answers: seq<Answer>)
    requires cat == SeedCatalog() && answers == [Answer(1, 4, Some(7), None, true)]
    ensures var rpa := ResultRow(cat, answers, 1, cat.dimensions[1], RPA);
      var ipa := ResultRow(cat, answers, 1, cat.dimensions[1], IPA);
      && rpa.isExcluded && rpa.excludedByQuestionId == Some(4) && rpa.meanScore.None?
      && !ipa.isExcluded && ipa.meanScore == Some(4.0)
      && TotalOf(1, [rpa, ipa]).recommendation == RecommendIPA
  {
    SeedResultRows(cat, answers);
    SeedTotal(ResultRow(cat, answers, 1, cat.dimensions[1], RPA), ResultRow(cat, answers, 1, cat.dimensions[1], IPA));
  }

  /** Exclusion is contagious, yet the total of an excluded strategy may still be a number. */
  lemma ExcludedStrategyKeepsTotal()
    ensures var rows := [DimensionResult(1, 1, RPA, None, true, Some(21)),
                         DimensionResult(1, 2, RPA, Some(4.0), false, None)];
      AnyExcluded(rows) && Mean(UsableMeans(rows)) == Some(4.0)
  {
    var rows := [DimensionResult(1, 1, RPA, None, true, Some(21)),
                 DimensionResult(1, 2, RPA, Some(4.0), false, None)];
    assert rows[..1] == [rows[0]];
    assert rows[..1][..0] == [];
    assert UsableMeans(rows[..1]) == [];
    assert UsableMeans(rows) == [4.0];
    assert [4.0][..0] == [];
    assert AnyExcluded(rows) by { assert rows[0].isExcluded; }
  }

  /** Each of the five labels, characterised by the inputs that produce it. */
  lemma RecommendationTable(totalRpa: Option<real>, totalIpa: Option<real>, rpaExcluded: bool, ipaExcluded: bool)
    ensures var r := DetermineRecommendation(totalRpa, totalIpa, rpaExcluded, ipaExcluded);
      var compared := !rpaExcluded && !ipaExcluded && totalRpa.Some? && totalIpa.Some?;
      var diff := if compared then totalIpa.value - totalRpa.value else 0.0;
      && (r == NoAutomation <==> rpaExcluded && ipaExcluded)
      && (r == RecommendIPA <==> (rpaExcluded && !ipaExcluded) || (compared && diff > 0.25))
      && (r == RecommendRPA <==> (ipaExcluded && !rpaExcluded) || (compared && diff < -0.25))
      && (r == Neutral <==> compared && -0.25 <= diff <= 0.25)
      && (r == Incomplete <==> !rpaExcluded && !ipaExcluded && (totalRpa.None? || totalIpa.None?))
  {
  }

  function SwapStrategies(r: Recommendation): Recommendation {
    match r
    case RecommendIPA => RecommendRPA
    case RecommendRPA => RecommendIPA
    case other => other
  }

  /** Exchanging the RPA and IPA inputs exchanges the labels "RPA" and "IPA" and keeps the others. */
  lemma RecommendationSymmetric(totalRpa: Option<real>, totalIpa: Option<real>, rpaExcluded: bool, ipaExcluded: bool)
    ensures DetermineRecommendation(totalIpa, totalRpa, ipaExcluded, rpaExcluded)
      == SwapStrategies(DetermineRecommendation(totalRpa, totalIpa, rpaExcluded, ipaExcluded))
  {
  }

  /** The threshold is strict: a difference of exactly 0.25 either way is neutral. */
  lemma RecommendationBoundaries()
    ensures DetermineRecommendation(Some(3.0), Some(3.25), false, false) == Neutral
    ensures DetermineRecommendation(Some(3.25), Some(3.0), false, false) == Neutral
    ensures DetermineRecommendation(Some(3.0), Some(3.5), false, false) == RecommendIPA
    ensures DetermineRecommendation(Some(3.5), Some(3.0), false, false) == RecommendRPA
    ensures DetermineRecommendation(Some(3.0), Some(3.1), false, false) == Neutral
    ensures DetermineRecommendation(None, Some(4.0), true, false) == RecommendIPA
    ensures DetermineRecommendation(Some(1.0), Some(4.0), true, true) == NoAutomation
    ensures DetermineRecommendation(None, Some(4.0), false, false) == Incomplete
  {
  }

  // ---------------------------------------------------------------------
  // The whole assessment
  // ---------------------------------------------------------------------

  datatype ScoringError = AssessmentNotFound(assessmentId: int)

  /** The dimensions of a questionnaire version, in catalog (sort_order) order. */
  function DimensionsOfVersion(dims: seq<Dimension>, versionId: int): seq<Dimension> {
    if |dims| == 0 then []
    else
      DimensionsOfVersion(dims[..|dims| - 1], versionId)
        + (if dims[|dims| - 1].versionId == versionId then [dims[|dims| - 1]] else [])
  }

  /** The dimension results written for `dims`: one RPA row, then one IPA row, per dimension. */
  function ExpectedResults(cat: Catalog, answers: seq<Answer>, assessmentId: int, dims: seq<Dimension>): seq<DimensionResult> {
    if |dims| == 0 then []
    else
      var d := dims[|dims| - 1];
      ExpectedResults(cat, answers, assessmentId, dims[..|dims| - 1])
        + [ResultRow(cat, answers, assessmentId, d, RPA), ResultRow(cat, answers, assessmentId, d, IPA)]
  }

  /** The dimension results of other assessments, which a recomputation keeps. */
  function OtherResults(results: seq<DimensionResult>, assessmentId: int): seq<DimensionResult> {
    if |results| == 0 then []
    else
      var r := results[|results| - 1];
      OtherResults(results[..|results| - 1], assessmentId) + (if r.assessmentId != assessmentId then [r] else [])
  }

  function OtherTotals(totals: seq<TotalResult>, assessmentId: int): seq<TotalResult> {
    if |totals| == 0 then []
    else
      var t := totals[|totals| - 1];
      OtherTotals(totals[..|totals| - 1], assessmentId) + (if t.assessmentId != assessmentId then [t] else [])
  }

  method CalculateAssessmentResults(db: Database, cat: Catalog, assessmentId: int)
    returns (r: Result<TotalResult, ScoringError>)
    modifies db
    ensures assessmentId !in old(db.assessments) ==>
      r == Failure(AssessmentNotFound(assessmentId)) && unchanged(db)
    ensures assessmentId in old(db.assessments) ==>
      var dims := DimensionsOfVersion(cat.dimensions, old(db.assessments)[assessmentId].versionId);
      var results := ExpectedResults(cat, old(db.answers), assessmentId, dims);
      && db.dimensionResults == OtherResults(old(db.dimensionResults), assessmentId) + results
      && r == Success(TotalOf(assessmentId, results))
      && db.totalResults == OtherTotals(old(db.totalResults), assessmentId) + [r.value]
    ensures db.answers == old(db.answers)
    ensures db.assessments == old(db.assessments) && db.processes == old(db.processes)
  {
    if assessmentId !in db.assessments {
      return Failure(AssessmentNotFound(assessmentId));
    }
    var assessment := db.assessments[assessmentId];
    db.dimensionResults := OtherResults(db.dimensionResults, assessmentId);
    db.totalResults := OtherTotals(db.totalResults, assessmentId);
    ghost var kept := db.dimensionResults;
    var dimensions := DimensionsOfVersion(cat.dimensions, assessment.versionId);
    CalculateDimensionResults(db, cat, assessmentId, dimensions);
    ghost var results := ExpectedResults(cat, db.answers, assessmentId, dimensions);
    assert db.dimensionResults == kept + results;
    OtherResultsHaveOtherOwner(old(db.dimensionResults), assessmentId);
    TotalIgnoresOtherAssessments(kept, results, assessmentId);
    var total := CalculateTotalResult(db, assessmentId);
    r := Success(total);
  }

  /** Step 2 of the computation: for each dimension, the RPA result and then the IPA result. */
  method CalculateDimensionResults(db: Database, cat: Catalog, assessmentId: int, dimensions: seq<Dimension>)
    modifies db
    ensures db.dimensionResults == old(db.dimensionResults) + ExpectedResults(cat, db.answers, assessmentId, dimensions)
    ensures db.answers == old(db.answers) && db.totalResults == old(db.totalResults)
    ensures db.assessments == old(db.assessments) && db.processes == old(db.processes)
  {
    var strategies := [RPA, IPA];
    var answers := db.answers;
    for k := 0 to |dimensions|
      invariant db.dimensionResults == old(db.dimensionResults) + ExpectedResults(cat, answers, assessmentId, dimensions[..k])
      invariant db.answers == answers && db.totalResults == old(db.totalResults)
      invariant db.assessments == old(db.assessments) && db.processes == old(db.processes)
    {
      ghost var before := db.dimensionResults;
      for j := 0 to |strategies|
        invariant db.dimensionResults == before
          + seq(j, n requires 0 <= n < j => ResultRow(cat, answers, assessmentId, dimensions[k], strategies[n]))
        invariant db.answers == answers && db.totalResults == old(db.totalResults)
        invariant db.assessments == old(db.assessments) && db.processes == old(db.processes)
      {
        CalculateDimensionResult(db, cat, assessmentId, dimensions[k], strategies[j]);
      }
      assert dimensions[..k + 1][..k] == dimensions[..k];
    }
    assert dimensions[..|dimensions|] == dimensions;
  }

  lemma {:induction false} OtherResultsHaveOtherOwner(results: seq<DimensionResult>, assessmentId: int)
    ensures forall s :: StrategyRows(OtherResults(results, assessmentId), assessmentId, s) == []
  {
    if |results| > 0 {
      var init := results[..|results| - 1];
      OtherResultsHaveOtherOwner(init, assessmentId);
      var r := results[|results| - 1];
      forall s ensures StrategyRows(OtherResults(results, assessmentId), assessmentId, s) == [] {
        var others := OtherResults(init, assessmentId);
        if r.assessmentId != assessmentId {
          assert OtherResults(results, assessmentId) == others + [r];
          assert (others + [r])[..|others + [r]| - 1] == others;
        } else {
          assert OtherResults(results, assessmentId) == others + [];
          assert others + [] == others;
        }
      }
    }
  }

  lemma TotalIgnoresOtherAssessments(kept: seq<DimensionResult>, results: seq<DimensionResult>, assessmentId: int)
    requires forall s :: StrategyRows(kept, assessmentId, s) == []
    ensures TotalOf(assessmentId, kept + results) == TotalOf(assessmentId, results)
  {
    StrategyRowsAppend(kept, results, assessmentId, RPA);
    StrategyRowsAppend(kept, results, assessmentId, IPA);
    assert StrategyRows(kept, assessmentId, RPA) == [] && StrategyRows(kept, assessmentId, IPA) == [];
    assert StrategyRows(kept + results, assessmentId, RPA) == StrategyRows(results, assessmentId, RPA);
    assert StrategyRows(kept + results, assessmentId, IPA) == StrategyRows(results, assessmentId, IPA);
  }

  lemma {:induction false} StrategyRowsAppend(xs: seq<DimensionResult>, ys: seq<DimensionResult>, assessmentId: int, s: Strategy)
    ensures StrategyRows(xs + ys, assessmentId, s) == StrategyRows(xs, assessmentId, s) + StrategyRows(ys, assessmentId, s)
  {
    if |ys| == 0 {
      assert xs + ys == xs;
    } else {
      assert (xs + ys)[..|xs + ys| - 1] == xs + ys[..|ys| - 1];
      StrategyRowsAppend(xs, ys[..|ys| - 1], assessmentId, s);
    }
  }

  /**
   * One result per (dimension, strategy): row 2k is dimension k for RPA and
   * row 2k+1 the same dimension for IPA.
   */
  lemma {:induction false} ExpectedResultsShape(cat: Catalog, answers: seq<Answer>, assessmentId: int, dims: seq<Dimension>)
    ensures var rs := ExpectedResults(cat, answers, assessmentId, dims);
      && |rs| == 2 * |dims|
      && forall k :: 0 <= k < |dims| ==>
        && rs[2 * k] == ResultRow(cat, answers, assessmentId, dims[k], RPA)
        && rs[2 * k + 1] == ResultRow(cat, answers, assessmentId, dims[k], IPA)
  {
    if |dims| > 0 {
      var init := dims[..|dims| - 1];
      ExpectedResultsShape(cat, answers, assessmentId, init);
      assert forall k :: 0 <= k < |init| ==> init[k] == dims[k];
    }
  }

  /** Only the ids of the dimensions matter: `calc_method`, code and sort order are never consulted. */
  lemma {:induction false} ExpectedResultsIgnoreCalcMethod(cat: Catalog, answers: seq<Answer>, assessmentId: int, dims: seq<Dimension>, others: seq<Dimension>)
    requires |dims| == |others|
    requires forall k :: 0 <= k < |dims| ==> dims[k].id == others[k].id
    ensures ExpectedResults(cat, answers, assessmentId, dims) == ExpectedResults(cat, answers, assessmentId, others)
  {
    if |dims| > 0 {
      ExpectedResultsIgnoreCalcMethod(cat, answers, assessmentId, dims[..|dims| - 1], others[..|others| - 1]);
    }
  }
}
