/**
 * The applicability filter of the questionnaire (`apply_filter_logic`): the
 * answer to the gate question "1.5" decides whether the questions that
 * depend on it apply.
 */
module FilterLogic {
  import opened Schema

  const GateCode: string := "1.5"
  const NoCode: string := "NEIN"

  datatype FilterError = ScaleOptionNotFound(optionId: int)

  /** Which branch of the filter an answer table takes. */
  datatype Gate =
    | NoGateQuestion
    | GateUnanswered
    | UnknownOption(optionId: int)
    | Gated(gateId: int, nein: bool)

  function GateOf(cat: Catalog, answers: seq<Answer>, assessmentId: int): Gate {
    match FirstQuestionWithCode(cat.questions, GateCode)
    case None => NoGateQuestion
    case Some(gate) =>
      match FirstAnswerIndex(answers, assessmentId, gate.id)
      case None => GateUnanswered
      case Some(i) =>
        if !Truthy(answers[i].scaleOptionId) then GateUnanswered
        else
          var optionId := answers[i].scaleOptionId.value;
          if optionId !in cat.options then UnknownOption(optionId)
          else Gated(gate.id, cat.options[optionId].code == NoCode)
  }

  /** Ids of the questions whose `depends_on_question_id` is `parentId`, in table order. */
  function DependentIds(qs: seq<Question>, parentId: int): seq<int> {
    if |qs| == 0 then []
    else
      var q := qs[|qs| - 1];
      DependentIds(qs[..|qs| - 1], parentId) + (if q.dependsOn == Some(parentId) then [q.id] else [])
  }

  predicate Distinct(ids: seq<int>) {
    forall i, j :: 0 <= i < j < |ids| ==> ids[i] != ids[j]
  }

  /** Row `i` is the first row of the assessment for one of the questions in `ids`. */
  predicate IsFirstRowOf(answers: seq<Answer>, i: int, assessmentId: int, ids: set<int>) {
    && 0 <= i < |answers|
    && answers[i].assessmentId == assessmentId
    && answers[i].questionId in ids
    && FirstAnswerIndex(answers, assessmentId, answers[i].questionId) == Some(i)
  }

  /** An inapplicable answer with both value fields cleared. */
  predicate IsCleared(a: Answer) {
    !a.isApplicable && a.scaleOptionId.None? && a.numericValue.None?
  }

  function Cleared(a: Answer): (r: Answer)
    ensures IsCleared(r) && r.assessmentId == a.assessmentId && r.questionId == a.questionId
  {
    a.(isApplicable := false, scaleOptionId := None, numericValue := None)
  }

  function Reapplied(a: Answer): Answer {
    a.(isApplicable := true)
  }

  /** The existing rows after the filter: the first row of each dependent is updated, every other row kept. */
  function Updated(answers: seq<Answer>, assessmentId: int, ids: set<int>, nein: bool): seq<Answer> {
    seq(|answers|, i requires 0 <= i < |answers| =>
      if IsFirstRowOf(answers, i, assessmentId, ids) then
        (if nein then Cleared(answers[i]) else Reapplied(answers[i]))
      else answers[i])
  }

  /** The rows the NEIN branch creates: one cleared row per dependent without an answer. */
  function Created(answers: seq<Answer>, assessmentId: int, deps: seq<int>): seq<Answer> {
    if |deps| == 0 then []
    else
      var q := deps[|deps| - 1];
      Created(answers, assessmentId, deps[..|deps| - 1])
        + (if HasRow(answers, assessmentId, q) then [] else [Answer(assessmentId, q, None, None, false)])
  }

  function Filtered(answers: seq<Answer>, assessmentId: int, deps: seq<int>, nein: bool): seq<Answer> {
    Updated(answers, assessmentId, (set q | q in deps), nein)
      + (if nein then Created(answers, assessmentId, deps) else [])
  }

  /** The answer table after `apply_filter_logic` (unchanged when it returns early or raises). */
  function AfterFilter(cat: Catalog, answers: seq<Answer>, assessmentId: int): seq<Answer> {
    match GateOf(cat, answers, assessmentId)
    case Gated(gateId, nein) => Filtered(answers, assessmentId, DependentIds(cat.questions, gateId), nein)
    case _ => answers
  }

  /** The conditions under which `apply_filter_logic` returns before looking up an option. */
  predicate ReturnsEarly(cat: Catalog, answers: seq<Answer>, assessmentId: int) {
    var gate := FirstQuestionWithCode(cat.questions, GateCode);
    || gate.None?
    || FirstAnswerIndex(answers, assessmentId, gate.value.id).None?
    || !Truthy(answers[FirstAnswerIndex(answers, assessmentId, gate.value.id).value].scaleOptionId)
  }

  method ApplyFilterLogic(db: Database, cat: Catalog, assessmentId: int) returns (r: Outcome<FilterError>)
    requires UniqueQuestionIds(cat.questions)
    modifies db
    ensures db.answers == AfterFilter(cat, old(db.answers), assessmentId)
    ensures ReturnsEarly(cat, old(db.answers), assessmentId) ==> r == Pass && db.answers == old(db.answers)
    ensures r.Fail? <==> GateOf(cat, old(db.answers), assessmentId).UnknownOption?
    ensures db.dimensionResults == old(db.dimensionResults) && db.totalResults == old(db.totalResults)
    ensures db.assessments == old(db.assessments) && db.processes == old(db.processes)
  {
    var gate := FirstQuestionWithCode(cat.questions, GateCode);
    if gate.None? {
      return Pass;
    }
    var gateAnswer := FirstAnswerIndex(db.answers, assessmentId, gate.value.id);
    if gateAnswer.None? || !Truthy(db.answers[gateAnswer.value].scaleOptionId) {
      return Pass;
    }
    var optionId := db.answers[gateAnswer.value].scaleOptionId.value;
    if optionId !in cat.options {
      return Fail(ScaleOptionNotFound(optionId));
    }
    var option := cat.options[optionId];
    var dependents := DependentIds(cat.questions, gate.value.id);
    DependentIdsDistinct(cat.questions, gate.value.id);
    var nein := option.code == NoCode;
    ghost var original := db.answers;
    assert dependents[..0] == [];
    assert Filtered(original, assessmentId, [], nein) == original;
    for k := 0 to |dependents|
      invariant db.answers == Filtered(original, assessmentId, dependents[..k], nein)
      invariant db.dimensionResults == old(db.dimensionResults) && db.totalResults == old(db.totalResults)
      invariant db.assessments == old(db.assessments) && db.processes == old(db.processes)
    {
      var depAnswer := FirstAnswerIndex(db.answers, assessmentId, dependents[k]);
      FilterStep(original, assessmentId, dependents, k, nein);
      if nein {
        if depAnswer.Some? {
          var i := depAnswer.value;
          db.answers := db.answers[i := db.answers[i].(isApplicable := false, scaleOptionId := None, numericValue := None)];
        } else {
          db.answers := db.answers + [Answer(assessmentId, dependents[k], None, None, false)];
        }
      } else {
        if depAnswer.Some? {
          var i := depAnswer.value;
          db.answers := db.answers[i := db.answers[i].(isApplicable := true)];
        }
      }
    }
    assert dependents[..|dependents|] == dependents;
    return Pass;
  }

  // ---------------------------------------------------------------------
  // Proof of the loop
  // ---------------------------------------------------------------------

  lemma {:induction false} DependentIdsMembers(qs: seq<Question>, parentId: int)
    ensures forall x :: x in DependentIds(qs, parentId) <==>
      exists q :: q in qs && q.id == x && q.dependsOn == Some(parentId)
  {
    if |qs| > 0 {
      var init := qs[..|qs| - 1];
      DependentIdsMembers(init, parentId);
      assert qs == init + [qs[|qs| - 1]];
    }
  }

  lemma {:induction false} DependentIdsDistinct(qs: seq<Question>, parentId: int)
    requires UniqueQuestionIds(qs)
    ensures Distinct(DependentIds(qs, parentId))
    ensures forall x :: x in DependentIds(qs, parentId) <==>
      exists q :: q in qs && q.id == x && q.dependsOn == Some(parentId)
  {
    DependentIdsMembers(qs, parentId);
    if |qs| > 0 {
      var init := qs[..|qs| - 1];
      var last := qs[|qs| - 1];
      assert UniqueQuestionIds(init);
      DependentIdsDistinct(init, parentId);
      var prev := DependentIds(init, parentId);
      assert forall i :: 0 <= i < |init| ==> init[i] == qs[i];
      assert last.id !in prev;
      assert DependentIds(qs, parentId) == prev + (if last.dependsOn == Some(parentId) then [last.id] else []);
    }
  }

  /** A matching row with no matching row before it is the first row. */
  lemma FirstIndexAt(b: seq<Answer>, assessmentId: int, questionId: int, i: nat)
    requires i < |b| && IsRowOf(b[i], assessmentId, questionId)
    requires forall j :: 0 <= j < i ==> !IsRowOf(b[j], assessmentId, questionId)
    ensures FirstAnswerIndex(b, assessmentId, questionId) == Some(i)
  {
    assert HasRow(b, assessmentId, questionId);
  }

  /** Rows that keep their key, and rows added after them without the key, keep the first index of a key. */
  lemma FirstIndexSameKeys(a: seq<Answer>, b: seq<Answer>, assessmentId: int, questionId: int)
    requires |a| <= |b|
    requires forall i :: 0 <= i < |a| ==> b[i].assessmentId == a[i].assessmentId && b[i].questionId == a[i].questionId
    requires forall j :: |a| <= j < |b| ==> !IsRowOf(b[j], assessmentId, questionId)
    ensures FirstAnswerIndex(b, assessmentId, questionId) == FirstAnswerIndex(a, assessmentId, questionId)
  {
    var fa := FirstAnswerIndex(a, assessmentId, questionId);
    if fa.Some? {
      FirstIndexAt(b, assessmentId, questionId, fa.value);
    } else {
      assert !HasRow(b, assessmentId, questionId);
    }
  }

  lemma {:induction false} CreatedRows(answers: seq<Answer>, assessmentId: int, deps: seq<int>)
    ensures forall j :: 0 <= j < |Created(answers, assessmentId, deps)| ==>
      var c := Created(answers, assessmentId, deps)[j];
      && c == Answer(assessmentId, c.questionId, None, None, false)
      && c.questionId in deps && !HasRow(answers, assessmentId, c.questionId)
  {
    if |deps| > 0 {
      CreatedRows(answers, assessmentId, deps[..|deps| - 1]);
    }
  }

  /** A dependent without any row gets exactly one created row, and no earlier created row has its question. */
  lemma {:induction false} CreatedFor(answers: seq<Answer>, assessmentId: int, deps: seq<int>, q: int)
    requires Distinct(deps) && q in deps && !HasRow(answers, assessmentId, q)
    ensures exists p ::
      && 0 <= p < |Created(answers, assessmentId, deps)|
      && Created(answers, assessmentId, deps)[p] == Answer(assessmentId, q, None, None, false)
      && (forall p' :: 0 <= p' < p ==> Created(answers, assessmentId, deps)[p'].questionId != q)
  {
    var init := deps[..|deps| - 1];
    var c := Created(answers, assessmentId, deps);
    CreatedRows(answers, assessmentId, init);
    if q == deps[|deps| - 1] {
      assert q !in init;
      var p := |Created(answers, assessmentId, init)|;
      assert c[p] == Answer(assessmentId, q, None, None, false);
      assert forall p' :: 0 <= p' < p ==> c[p'] == Created(answers, assessmentId, init)[p'];
    } else {
      assert q in init;
      CreatedFor(answers, assessmentId, init, q);
      var p :|
        && 0 <= p < |Created(answers, assessmentId, init)|
        && Created(answers, assessmentId, init)[p] == Answer(assessmentId, q, None, None, false)
        && (forall p' :: 0 <= p' < p ==> Created(answers, assessmentId, init)[p'].questionId != q);
      assert c[p] == Created(answers, assessmentId, init)[p];
      assert forall p' :: 0 <= p' < p ==> c[p'] == Created(answers, assessmentId, init)[p'];
    }
  }

  /** Filtering does not move the first row of a question outside the dependents. */
  lemma FirstIndexOfFiltered(answers: seq<Answer>, assessmentId: int, deps: seq<int>, nein: bool, q: int)
    requires q !in deps
    ensures FirstAnswerIndex(Filtered(answers, assessmentId, deps, nein), assessmentId, q)
      == FirstAnswerIndex(answers, assessmentId, q)
  {
    CreatedRows(answers, assessmentId, deps);
    FirstIndexSameKeys(answers, Filtered(answers, assessmentId, deps, nein), assessmentId, q);
  }

  /** One turn of the loop of `ApplyFilterLogic`. */
  lemma FilterStep(answers: seq<Answer>, assessmentId: int, deps: seq<int>, k: nat, nein: bool)
    requires Distinct(deps) && k < |deps|
    ensures var before := Filtered(answers, assessmentId, deps[..k], nein);
      var q := deps[k];
      var after := Filtered(answers, assessmentId, deps[..k + 1], nein);
      match FirstAnswerIndex(before, assessmentId, q)
      case Some(i) =>
        i < |before| && after == before[i := if nein then Cleared(before[i]) else Reapplied(before[i])]
      case None =>
        after == if nein then before + [Answer(assessmentId, q, None, None, false)] else before
  {
    var q := deps[k];
    var prefix := deps[..k];
    var next := deps[..k + 1];
    assert next[..k] == prefix && next[k] == q;
    assert q !in prefix;
    var before := Filtered(answers, assessmentId, prefix, nein);
    var after := Filtered(answers, assessmentId, next, nein);
    FirstIndexOfFiltered(answers, assessmentId, prefix, nein, q);
    var ids := set x | x in prefix;
    var ids' := set x | x in next;
    assert ids' == ids + {q};
    var u := Updated(answers, assessmentId, ids, nein);
    var u' := Updated(answers, assessmentId, ids', nein);
    assert Created(answers, assessmentId, next)
      == Created(answers, assessmentId, prefix)
         + (if HasRow(answers, assessmentId, q) then [] else [Answer(assessmentId, q, None, None, false)]);
    match FirstAnswerIndex(answers, assessmentId, q)
    case Some(i) =>
      assert IsFirstRowOf(answers, i, assessmentId, ids');
      assert !IsFirstRowOf(answers, i, assessmentId, ids);
      assert before[i] == answers[i];
      forall j | 0 <= j < |answers| && j != i
        ensures IsFirstRowOf(answers, j, assessmentId, ids') == IsFirstRowOf(answers, j, assessmentId, ids)
      {
        if answers[j].assessmentId == assessmentId && answers[j].questionId == q {
          assert FirstAnswerIndex(answers, assessmentId, q) != Some(j);
        }
      }
      assert u' == u[i := if nein then Cleared(answers[i]) else Reapplied(answers[i])];
      assert after == before[i := if nein then Cleared(before[i]) else Reapplied(before[i])];
    case None =>
      forall j | 0 <= j < |answers|
        ensures IsFirstRowOf(answers, j, assessmentId, ids') == IsFirstRowOf(answers, j, assessmentId, ids)
      {
        assert !IsRowOf(answers[j], assessmentId, q);
      }
      assert u' == u;
  }

  // ---------------------------------------------------------------------
  // What the filter promises
  // ---------------------------------------------------------------------

  /**
   * With NEIN every dependent ends up with a first row that is inapplicable
   * and has no values: the existing first row when there is one, else a
   * created row.
   */
  lemma NeinClearsEveryDependent(answers: seq<Answer>, assessmentId: int, deps: seq<int>)
    requires Distinct(deps)
    ensures var after := Filtered(answers, assessmentId, deps, true);
      forall q :: q in deps ==>
        && FirstAnswerIndex(after, assessmentId, q).Some?
        && IsCleared(after[FirstAnswerIndex(after, assessmentId, q).value])
  {
    var after := Filtered(answers, assessmentId, deps, true);
    var ids := set x | x in deps;
    CreatedRows(answers, assessmentId, deps);
    forall q | q in deps
      ensures FirstAnswerIndex(after, assessmentId, q).Some?
      ensures IsCleared(after[FirstAnswerIndex(after, assessmentId, q).value])
    {
      match FirstAnswerIndex(answers, assessmentId, q)
      case Some(i) =>
        assert IsFirstRowOf(answers, i, assessmentId, ids);
        FirstIndexAt(after, assessmentId, q, i);
      case None =>
        CreatedFor(answers, assessmentId, deps, q);
        var c := Created(answers, assessmentId, deps);
        var p :| 0 <= p < |c| && c[p] == Answer(assessmentId, q, None, None, false)
          && forall p' :: 0 <= p' < p ==> c[p'].questionId != q;
        assert after[|answers| + p] == c[p];
        forall j | 0 <= j < |answers| + p ensures !IsRowOf(after[j], assessmentId, q) {
          if j >= |answers| {
            assert after[j] == c[j - |answers|];
          } else {
            assert !IsRowOf(answers[j], assessmentId, q);
          }
        }
        FirstIndexAt(after, assessmentId, q, |answers| + p);
    }
  }

  /**
   * Nothing else changes: rows of other assessments, rows of questions that
   * do not depend on the gate and later rows of a dependent are kept as they
   * are; NEIN only appends created rows, any other option appends nothing and
   * leaves all values alone.
   */
  lemma FilterKeepsOtherRows(answers: seq<Answer>, assessmentId: int, deps: seq<int>, nein: bool)
    ensures var after := Filtered(answers, assessmentId, deps, nein);
      && |answers| <= |after|
      && (forall i :: 0 <= i < |answers| && answers[i].assessmentId != assessmentId ==> after[i] == answers[i])
      && (forall i :: 0 <= i < |answers| && answers[i].questionId !in deps ==> after[i] == answers[i])
      && (forall i :: 0 <= i < |answers|
            && FirstAnswerIndex(answers, answers[i].assessmentId, answers[i].questionId) != Some(i)
            ==> after[i] == answers[i])
      && (forall j :: |answers| <= j < |after| ==>
            after[j].assessmentId == assessmentId && after[j].questionId in deps && IsCleared(after[j])
            && !HasRow(answers, assessmentId, after[j].questionId))
      && (!nein ==>
            && |after| == |answers|
            && (forall i :: 0 <= i < |answers| ==>
                 after[i].scaleOptionId == answers[i].scaleOptionId
                 && after[i].numericValue == answers[i].numericValue))
  {
    CreatedRows(answers, assessmentId, deps);
  }

  /** Row `k` of the table before the filter, as it is after it. */
  lemma FilteredRow(answers: seq<Answer>, assessmentId: int, deps: seq<int>, nein: bool, k: nat)
    requires k < |answers|
    ensures var after := Filtered(answers, assessmentId, deps, nein);
      && k < |after|
      && after[k] ==
           if answers[k].assessmentId == assessmentId && answers[k].questionId in deps
             && FirstAnswerIndex(answers, assessmentId, answers[k].questionId) == Some(k)
           then (if nein then Cleared(answers[k]) else Reapplied(answers[k]))
           else answers[k]
  {
    assert IsFirstRowOf(answers, k, assessmentId, set q | q in deps) <==>
      answers[k].assessmentId == assessmentId && answers[k].questionId in deps
      && FirstAnswerIndex(answers, assessmentId, answers[k].questionId) == Some(k);
  }

  /** With any option but NEIN, the first row of every dependent that has one becomes applicable. */
  lemma OtherOptionReappliesDependents(answers: seq<Answer>, assessmentId: int, deps: seq<int>)
    ensures var after := Filtered(answers, assessmentId, deps, false);
      forall q :: q in deps && HasRow(answers, assessmentId, q) ==>
        var i := FirstAnswerIndex(answers, assessmentId, q).value;
        after[i] == answers[i].(isApplicable := true)
  {
    var ids := set x | x in deps;
    forall q | q in deps && HasRow(answers, assessmentId, q)
      ensures var i := FirstAnswerIndex(answers, assessmentId, q).value;
        Filtered(answers, assessmentId, deps, false)[i] == answers[i].(isApplicable := true)
    {
      var i := FirstAnswerIndex(answers, assessmentId, q).value;
      assert IsFirstRowOf(answers, i, assessmentId, ids);
    }
  }

  /**
   * The filter returns early, unchanged, when there is no question "1.5",
   * when the assessment has no row for it, or when its first row has no
   * selected option; only then does it take neither branch.
   */
  lemma NoGateAnswerNoChange(cat: Catalog, answers: seq<Answer>, assessmentId: int)
    ensures ReturnsEarly(cat, answers, assessmentId) ==> AfterFilter(cat, answers, assessmentId) == answers
    ensures ReturnsEarly(cat, answers, assessmentId) <==>
      !GateOf(cat, answers, assessmentId).UnknownOption? && !GateOf(cat, answers, assessmentId).Gated?
  {
  }

  /**
   * Running the filter a second time changes nothing. A run that returns
   * early or fails leaves the table as it was. When the gate question
   * depends on itself, a NEIN run clears the gate answer, so the second run
   * returns early; otherwise the second run sees the same gate option.
   */
  lemma FilterIdempotent(cat: Catalog, answers: seq<Answer>, assessmentId: int)
    requires UniqueQuestionIds(cat.questions)
    ensures AfterFilter(cat, AfterFilter(cat, answers, assessmentId), assessmentId) == AfterFilter(cat, answers, assessmentId)
  {
    if GateOf(cat, answers, assessmentId).Gated? {
      GatedFilterIdempotent(cat, answers, assessmentId);
    }
  }

  lemma GatedFilterIdempotent(cat: Catalog, answers: seq<Answer>, assessmentId: int)
    requires UniqueQuestionIds(cat.questions)
    requires GateOf(cat, answers, assessmentId).Gated?
    ensures AfterFilter(cat, AfterFilter(cat, answers, assessmentId), assessmentId) == AfterFilter(cat, answers, assessmentId)
  {
    var g := GateOf(cat, answers, assessmentId);
    var deps := DependentIds(cat.questions, g.gateId);
    DependentIdsDistinct(cat.questions, g.gateId);
    var after := Filtered(answers, assessmentId, deps, g.nein);
    var i := FirstAnswerIndex(answers, assessmentId, g.gateId).value;
    FilterKeepsOtherRows(answers, assessmentId, deps, g.nein);
    if g.gateId in deps {
      GateRowStaysFirst(answers, assessmentId, deps, g.nein, g.gateId);
      if g.nein {
        assert GateOf(cat, after, assessmentId) == GateUnanswered;
      } else {
        assert GateOf(cat, after, assessmentId) == g;
        FilteredTwice(answers, assessmentId, deps, g.nein);
      }
    } else {
      FirstIndexOfFiltered(answers, assessmentId, deps, g.nein, g.gateId);
      assert after[i] == answers[i];
      assert GateOf(cat, after, assessmentId) == g;
      FilteredTwice(answers, assessmentId, deps, g.nein);
    }
  }

  /** A dependent that has a row keeps its first row where it was, updated by the filter. */
  lemma GateRowStaysFirst(answers: seq<Answer>, assessmentId: int, deps: seq<int>, nein: bool, q: int)
    requires q in deps && HasRow(answers, assessmentId, q)
    ensures var after := Filtered(answers, assessmentId, deps, nein);
      var i := FirstAnswerIndex(answers, assessmentId, q).value;
      && FirstAnswerIndex(after, assessmentId, q) == Some(i)
      && after[i] == (if nein then Cleared(answers[i]) else Reapplied(answers[i]))
  {
    var after := Filtered(answers, assessmentId, deps, nein);
    var i := FirstAnswerIndex(answers, assessmentId, q).value;
    CreatedRows(answers, assessmentId, deps);
    assert IsFirstRowOf(answers, i, assessmentId, set x | x in deps);
    FirstIndexSameKeys(answers, after, assessmentId, q);
  }

  lemma FilteredTwice(answers: seq<Answer>, assessmentId: int, deps: seq<int>, nein: bool)
    requires Distinct(deps)
    ensures Filtered(Filtered(answers, assessmentId, deps, nein), assessmentId, deps, nein)
      == Filtered(answers, assessmentId, deps, nein)
  {
    var ids := set x | x in deps;
    var after := Filtered(answers, assessmentId, deps, nein);
    var again := Filtered(after, assessmentId, deps, nein);
    CreatedRows(answers, assessmentId, deps);
    // every first row of a dependent in `after` is already in its final form
    forall j | 0 <= j < |after| && IsFirstRowOf(after, j, assessmentId, ids)
      ensures (if nein then Cleared(after[j]) else Reapplied(after[j])) == after[j]
    {
      var q := after[j].questionId;
      if j < |answers| {
        assert forall m :: 0 <= m < j ==> !IsRowOf(answers[m], assessmentId, q) by {
          forall m | 0 <= m < j ensures !IsRowOf(answers[m], assessmentId, q) {
            assert after[m].assessmentId == answers[m].assessmentId && after[m].questionId == answers[m].questionId;
          }
        }
        FirstIndexAt(answers, assessmentId, q, j);
        assert IsFirstRowOf(answers, j, assessmentId, ids);
      } else {
        assert IsCleared(after[j]);
      }
    }
    if nein {
      NeinClearsEveryDependent(answers, assessmentId, deps);
      NoneCreatedWhenAllPresent(after, assessmentId, deps);
      assert Created(after, assessmentId, deps) == [];
    }
    assert again == after;
  }

  lemma {:induction false} NoneCreatedWhenAllPresent(answers: seq<Answer>, assessmentId: int, deps: seq<int>)
    requires forall q :: q in deps ==> HasRow(answers, assessmentId, q)
    ensures Created(answers, assessmentId, deps) == []
  {
    if |deps| > 0 {
      assert deps[|deps| - 1] in deps;
      NoneCreatedWhenAllPresent(answers, assessmentId, deps[..|deps| - 1]);
    }
  }

  // ---------------------------------------------------------------------
  // The filter as its docstring describes it
  // ---------------------------------------------------------------------

  /**
   * The filter as intended: every row of a dependent question is made
   * inapplicable (NEIN) or applicable (any other option), not only the first
   * one, so a multiple-choice dependent with several rows is covered too.
   */
  function UpdatedAllRows(answers: seq<Answer>, assessmentId: int, ids: set<int>, nein: bool): seq<Answer> {
    seq(|answers|, i requires 0 <= i < |answers| =>
      if answers[i].assessmentId == assessmentId && answers[i].questionId in ids then
        (if nein then Cleared(answers[i]) else Reapplied(answers[i]))
      else answers[i])
  }

  function FilteredAllRows(answers: seq<Answer>, assessmentId: int, deps: seq<int>, nein: bool): seq<Answer> {
    UpdatedAllRows(answers, assessmentId, (set q | q in deps), nein)
      + (if nein then Created(answers, assessmentId, deps) else [])
  }

  function AfterFilterAllRows(cat: Catalog, answers: seq<Answer>, assessmentId: int): seq<Answer> {
    match GateOf(cat, answers, assessmentId)
    case Gated(gateId, nein) => FilteredAllRows(answers, assessmentId, DependentIds(cat.questions, gateId), nein)
    case _ => answers
  }

  /**
   * After the intended filter answers NEIN, every dependent has a row and
   * every row it has is cleared; rows of other questions are kept.
   */
  lemma NeinClearsAllRowsOfDependents(answers: seq<Answer>, assessmentId: int, deps: seq<int>)
    requires Distinct(deps)
    ensures var after := FilteredAllRows(answers, assessmentId, deps, true);
      && (forall q :: q in deps ==> HasRow(after, assessmentId, q))
      && (forall j :: 0 <= j < |after| && after[j].assessmentId == assessmentId && after[j].questionId in deps
            ==> IsCleared(after[j]))
      && (forall i :: 0 <= i < |answers| && !(answers[i].assessmentId == assessmentId && answers[i].questionId in deps)
            ==> after[i] == answers[i])
  {
    var after := FilteredAllRows(answers, assessmentId, deps, true);
    CreatedRows(answers, assessmentId, deps);
    forall q | q in deps ensures HasRow(after, assessmentId, q) {
      match FirstAnswerIndex(answers, assessmentId, q)
      case Some(i) =>
        assert IsRowOf(after[i], assessmentId, q);
      case None =>
        CreatedFor(answers, assessmentId, deps, q);
        var c := Created(answers, assessmentId, deps);
        var p :| 0 <= p < |c| && c[p] == Answer(assessmentId, q, None, None, false);
        assert after[|answers| + p] == c[p];
    }
  }
}
