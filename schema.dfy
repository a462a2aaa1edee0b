/**
 * Tables of the AutomationFit questionnaire database.
 *
 * Master data (dimensions, questions, scale options, option scores) is read
 * only while an assessment is evaluated and is modelled as one immutable
 * `Catalog` value.  The tables that the evaluation writes (answers,
 * dimension results, total results) are fields of the class `Database`.
 * A table is a sequence in the order of its primary key, so "the first row"
 * of a query is the matching row with the lowest index.
 */
module Schema {

  datatype Option<+T> = None | Some(value: T)

  datatype Result<+T, +E> = Success(value: T) | Failure(error: E)

  datatype Outcome<+E> = Pass | Fail(error: E)

  /** The two automation strategies scored side by side. */
  datatype Strategy = RPA | IPA

  /** The value of the `question_type` column; any other string is kept as `OtherType`. */
  datatype QuestionType = SingleChoice | MultipleChoice | Number | OtherType(name: string)

  datatype Dimension = Dimension(id: int, versionId: int, code: string, sortOrder: int, calcMethod: string)

  /** A question; `dependsOn` is the nullable `depends_on_question_id`. */
  datatype Question = Question(
    id: int, versionId: int, dimensionId: int, code: string,
    questionType: QuestionType, dependsOn: Option<int>)

  datatype ScaleOption = ScaleOption(id: int, code: string, caption: string, isNa: bool)

  /** Key of the `option_score` table, unique per (question, option, strategy). */
  datatype ScoreKey = ScoreKey(questionId: int, scaleOptionId: int, strategy: Strategy)

  datatype OptionScore = OptionScore(score: Option<real>, isExclusion: bool, isApplicable: bool)

  datatype Catalog = Catalog(
    dimensions: seq<Dimension>,
    questions: seq<Question>,
    options: map<int, ScaleOption>,
    optionScores: map<ScoreKey, OptionScore>)

  datatype Process = Process(name: string, industry: string)

  datatype Assessment = Assessment(processId: int, versionId: int)

  /** One answer row; a multiple-choice question may own several rows per assessment. */
  datatype Answer = Answer(
    assessmentId: int, questionId: int,
    scaleOptionId: Option<int>, numericValue: Option<real>, isApplicable: bool)

  datatype DimensionResult = DimensionResult(
    assessmentId: int, dimensionId: int, strategy: Strategy,
    meanScore: Option<real>, isExcluded: bool, excludedByQuestionId: Option<int>)

  /** The five recommendation labels. */
  datatype Recommendation = NoAutomation | RecommendIPA | RecommendRPA | Neutral | Incomplete
  {
    function Label(): string {
      match this
      case NoAutomation => "Keine Automatisierung"
      case RecommendIPA => "IPA"
      case RecommendRPA => "RPA"
      case Neutral => "Neutral"
      case Incomplete => "Unvollständig"
    }
  }

  datatype TotalResult = TotalResult(
    assessmentId: int, totalRpa: Option<real>, totalIpa: Option<real>,
    rpaExcluded: bool, ipaExcluded: bool, recommendation: Recommendation)

  /** The tables an evaluation reads and writes. */
  class Database {
    var processes: map<int, Process>
    var assessments: map<int, Assessment>
    var answers: seq<Answer>
    var dimensionResults: seq<DimensionResult>
    var totalResults: seq<TotalResult>

    constructor ()
      ensures processes == map[] && assessments == map[]
      ensures answers == [] && dimensionResults == [] && totalResults == []
    {
      processes, assessments := map[], map[];
      answers, dimensionResults, totalResults := [], [], [];
    }
  }

  /** Python truthiness of a nullable integer column: present and not 0. */
  predicate Truthy(x: Option<int>) {
    x.Some? && x.value != 0
  }

  /** The primary key of `question`: no two rows share an id. */
  predicate UniqueQuestionIds(qs: seq<Question>) {
    forall i, j :: 0 <= i < j < |qs| ==> qs[i].id != qs[j].id
  }

  predicate IsRowOf(a: Answer, assessmentId: int, questionId: int) {
    a.assessmentId == assessmentId && a.questionId == questionId
  }

  predicate HasRow(answers: seq<Answer>, assessmentId: int, questionId: int) {
    exists i :: 0 <= i < |answers| && IsRowOf(answers[i], assessmentId, questionId)
  }

  /** `Answer.query.filter_by(assessment_id=.., question_id=..).first()`, as an index. */
  function FirstAnswerIndex(answers: seq<Answer>, assessmentId: int, questionId: int): (r: Option<nat>)
    ensures r.Some? ==> r.value < |answers| && IsRowOf(answers[r.value], assessmentId, questionId)
    ensures r.Some? ==> forall j :: 0 <= j < r.value ==> !IsRowOf(answers[j], assessmentId, questionId)
    ensures r.None? <==> !HasRow(answers, assessmentId, questionId)
  {
    if |answers| == 0 then None
    else if IsRowOf(answers[0], assessmentId, questionId) then Some(0)
    else match FirstAnswerIndex(answers[1..], assessmentId, questionId)
      case None =>
        assert forall i :: 1 <= i < |answers| ==> answers[i] == answers[1..][i - 1];
        None
      case Some(k) =>
        assert forall j :: 1 <= j < k + 1 ==> answers[j] == answers[1..][j - 1];
        Some(k + 1)
  }

  /** `Question.query.get(id)`. */
  function QuestionById(qs: seq<Question>, id: int): (r: Option<Question>)
    ensures r.Some? ==> r.value in qs && r.value.id == id
    ensures r.None? <==> forall q :: q in qs ==> q.id != id
  {
    if |qs| == 0 then None
    else if qs[0].id == id then Some(qs[0])
    else QuestionById(qs[1..], id)
  }

  /** Index of the first question with the code: no earlier question has it, and none is found iff no question has it. */
  function FirstCodeIndex(qs: seq<Question>, code: string): (r: Option<nat>)
    ensures r.Some? ==> r.value < |qs| && qs[r.value].code == code
    ensures r.Some? ==> forall j :: 0 <= j < r.value ==> qs[j].code != code
    ensures r.None? <==> forall j :: 0 <= j < |qs| ==> qs[j].code != code
  {
    if |qs| == 0 then None
    else if qs[0].code == code then Some(0)
    else match FirstCodeIndex(qs[1..], code)
      case None =>
        assert forall j :: 1 <= j < |qs| ==> qs[j] == qs[1..][j - 1];
        None
      case Some(k) =>
        assert forall j :: 1 <= j < k + 1 ==> qs[j] == qs[1..][j - 1];
        Some(k + 1)
  }

  /**
   * `Question.query.filter_by(code=..).first()`. Codes repeat across catalog
   * versions, so the lowest-index question with the code is the one found.
   */
  function FirstQuestionWithCode(qs: seq<Question>, code: string): (r: Option<Question>)
    ensures r.Some? ==> r.value in qs && r.value.code == code
    ensures r.None? <==> forall q :: q in qs ==> q.code != code
  {
    match FirstCodeIndex(qs, code)
    case None => None
    case Some(i) => Some(qs[i])
  }

  /** The question found is the first one with the code: every question before it has another code. */
  lemma FirstQuestionWithCodeIsFirst(qs: seq<Question>, code: string)
    ensures FirstQuestionWithCode(qs, code).Some? ==>
      exists k :: 0 <= k < |qs| && qs[k] == FirstQuestionWithCode(qs, code).value
        && forall j :: 0 <= j < k ==> qs[j].code != code
  {
    if FirstQuestionWithCode(qs, code).Some? {
      var k := FirstCodeIndex(qs, code).value;
      assert qs[k] == FirstQuestionWithCode(qs, code).value;
    }
  }

  lemma {:induction false} QuestionByIdUnique(qs: seq<Question>, k: nat)
    requires UniqueQuestionIds(qs) && k < |qs|
    ensures QuestionById(qs, qs[k].id) == Some(qs[k])
  {
    if k > 0 {
      assert qs[0].id != qs[k].id;
      assert UniqueQuestionIds(qs[1..]) by {
        forall i, j | 0 <= i < j < |qs| - 1 ensures qs[1..][i].id != qs[1..][j].id {
          assert qs[1..][i] == qs[i + 1] && qs[1..][j] == qs[j + 1];
        }
      }
      QuestionByIdUnique(qs[1..], k - 1);
    }
  }
}
