/**
 * The comparison overview (`comparison`): every evaluated assessment with its
 * process, a combined score, and the list ranked by that score.
 */
module Comparison {
  import opened Schema

  /** One line of the overview; `created_at` and the template are not modelled. */
  datatype ComparisonRow = ComparisonRow(
    assessmentId: int, processName: string, industry: string,
    totalRpa: Option<real>, totalIpa: Option<real>,
    rpaExcluded: bool, ipaExcluded: bool, recommendation: Recommendation,
    combinedScore: real)

  /** Python truthiness of a nullable score: present and not 0.0. */
  predicate TruthyScore(x: Option<real>) {
    x.Some? && x.value != 0.0
  }

  /** The combined score: the larger total when both are truthy, else the truthy one, else 0. */
  function CombinedScore(totalRpa: Option<real>, totalIpa: Option<real>): real {
    if TruthyScore(totalRpa) && TruthyScore(totalIpa) then
      (if totalRpa.value >= totalIpa.value then totalRpa.value else totalIpa.value)
    else if TruthyScore(totalRpa) then totalRpa.value
    else if TruthyScore(totalIpa) then totalIpa.value
    else 0.0
  }

  function RowOf(t: TotalResult, a: Assessment, p: Process): ComparisonRow {
    ComparisonRow(t.assessmentId, p.name, p.industry, t.totalRpa, t.totalIpa,
      t.rpaExcluded, t.ipaExcluded, t.recommendation, CombinedScore(t.totalRpa, t.totalIpa))
  }

  /**
   * The inner join of total results with their assessment and its process,
   * in the order of the total results; a total result whose assessment or
   * process is missing yields no row.
   */
  function JoinedRows(totals: seq<TotalResult>, assessments: map<int, Assessment>, processes: map<int, Process>): seq<ComparisonRow> {
    if |totals| == 0 then []
    else
      var t := totals[|totals| - 1];
      JoinedRows(totals[..|totals| - 1], assessments, processes)
        + (if t.assessmentId in assessments && assessments[t.assessmentId].processId in processes
           then [RowOf(t, assessments[t.assessmentId], processes[assessments[t.assessmentId].processId])]
           else [])
  }

  predicate SortedDesc(rows: seq<ComparisonRow>) {
    forall i, j :: 0 <= i < j < |rows| ==> rows[i].combinedScore >= rows[j].combinedScore
  }

  /** The rows with combined score `x`, in order; a stable sort keeps each of these lists. */
  function WithScore(rows: seq<ComparisonRow>, x: real): seq<ComparisonRow> {
    if |rows| == 0 then []
    else
      WithScore(rows[..|rows| - 1], x) + (if rows[|rows| - 1].combinedScore == x then [rows[|rows| - 1]] else [])
  }

  /** `rows` with the neighbours at `j - 1` and `j` exchanged. */
  function Swapped(rows: seq<ComparisonRow>, j: int): seq<ComparisonRow>
    requires 0 < j < |rows|
  {
    rows[j - 1 := rows[j]][j := rows[j - 1]]
  }

  /** `rows` is a stable rearrangement of `original`: same rows, and the same order among rows of equal score. */
  ghost predicate StablePermutation(rows: seq<ComparisonRow>, original: seq<ComparisonRow>) {
    && multiset(rows) == multiset(original)
    && forall x :: WithScore(rows, x) == WithScore(original, x)
  }

  /**
   * `assessments_data.sort(key=combined_score, reverse=True)`: an in-place
   * stable sort into descending combined score.  Rows with equal scores keep
   * their relative order.
   */
  method SortByCombinedScore(a: array<ComparisonRow>)
    modifies a
    ensures SortedDesc(a[..])
    ensures StablePermutation(a[..], old(a[..]))
  {
    for i := 0 to a.Length
      invariant forall p, q :: 0 <= p < q < i ==> a[p].combinedScore >= a[q].combinedScore
      invariant StablePermutation(a[..], old(a[..]))
    {
      ghost var before := a[..];
      InsertIntoPrefix(a, i);
      StableTransitive(a[..], before, old(a[..]));
    }
  }

  /** One insertion step: moves `a[i]` left past every strictly smaller score before it. */
  method InsertIntoPrefix(a: array<ComparisonRow>, i: int)
    requires 0 <= i < a.Length
    requires forall p, q :: 0 <= p < q < i ==> a[p].combinedScore >= a[q].combinedScore
    modifies a
    ensures forall p, q :: 0 <= p < q <= i ==> a[p].combinedScore >= a[q].combinedScore
    ensures StablePermutation(a[..], old(a[..]))
  {
    var j := i;
    while j > 0 && a[j - 1].combinedScore < a[j].combinedScore
      invariant Inserting(a[..], i, j)
      invariant StablePermutation(a[..], old(a[..]))
    {
      ghost var before := a[..];
      a[j - 1], a[j] := a[j], a[j - 1];
      assert a[..] == Swapped(before, j);
      InsertingStep(before, i, j);
      SwapKeepsScoreGroups(before, j);
      StableTransitive(a[..], before, old(a[..]));
      j := j - 1;
    }
    InsertingDone(a[..], i, j);
  }

  /**
   * The state of an insertion step: the row at `j` is larger than every row
   * after it up to `i`, and the prefix up to `i` without it is descending.
   */
  predicate Inserting(rows: seq<ComparisonRow>, i: int, j: int) {
    && 0 <= j <= i < |rows|
    && (forall p, q :: 0 <= p < q <= i && p != j && q != j ==> rows[p].combinedScore >= rows[q].combinedScore)
    && (forall q :: j < q <= i ==> rows[j].combinedScore > rows[q].combinedScore)
  }

  lemma InsertingStep(rows: seq<ComparisonRow>, i: int, j: int)
    requires Inserting(rows, i, j) && j > 0 && rows[j - 1].combinedScore < rows[j].combinedScore
    ensures Inserting(Swapped(rows, j), i, j - 1)
  {
    var t := Swapped(rows, j);
    forall p, q | 0 <= p < q <= i && p != j - 1 && q != j - 1
      ensures t[p].combinedScore >= t[q].combinedScore
    {
      if q == j {
        assert t[q] == rows[j - 1];
        assert rows[p].combinedScore >= rows[j - 1].combinedScore;
      } else if p == j {
        assert t[p] == rows[j - 1] && t[q] == rows[q];
        assert rows[j - 1].combinedScore >= rows[q].combinedScore;
      }
    }
  }

  lemma InsertingDone(rows: seq<ComparisonRow>, i: int, j: int)
    requires Inserting(rows, i, j)
    requires j == 0 || rows[j - 1].combinedScore >= rows[j].combinedScore
    ensures forall p, q :: 0 <= p < q <= i ==> rows[p].combinedScore >= rows[q].combinedScore
  {
    forall p, q | 0 <= p < q <= i ensures rows[p].combinedScore >= rows[q].combinedScore {
      if q == j && p < j - 1 {
        assert rows[p].combinedScore >= rows[j - 1].combinedScore;
      }
    }
  }

  /** The overview: the joined rows, ranked by descending combined score. */
  method Compare(db: Database) returns (rows: seq<ComparisonRow>)
    ensures SortedDesc(rows)
    ensures StablePermutation(rows, JoinedRows(db.totalResults, db.assessments, db.processes))
  {
    var data: seq<ComparisonRow> := [];
    for i := 0 to |db.totalResults|
      invariant data == JoinedRows(db.totalResults[..i], db.assessments, db.processes)
    {
      assert db.totalResults[..i + 1][..i] == db.totalResults[..i];
      var t := db.totalResults[i];
      if t.assessmentId in db.assessments {
        var assessment := db.assessments[t.assessmentId];
        if assessment.processId in db.processes {
          var process := db.processes[assessment.processId];
          data := data + [RowOf(t, assessment, process)];
        }
      }
    }
    assert db.totalResults[..|db.totalResults|] == db.totalResults;
    var a := new ComparisonRow[|data|](k requires 0 <= k < |data| => data[k]);
    assert a[..] == data;
    SortByCombinedScore(a);
    rows := a[..];
  }

  // ---------------------------------------------------------------------
  // Proofs about the ranking
  // ---------------------------------------------------------------------

  lemma {:induction false} WithScoreAppend(xs: seq<ComparisonRow>, ys: seq<ComparisonRow>, x: real)
    ensures WithScore(xs + ys, x) == WithScore(xs, x) + WithScore(ys, x)
  {
    if |ys| > 0 {
      var init := ys[..|ys| - 1];
      assert (xs + ys)[..|xs + ys| - 1] == xs + init;
      WithScoreAppend(xs, init, x);
    } else {
      assert xs + ys == xs;
    }
  }

  lemma StableTransitive(a: seq<ComparisonRow>, b: seq<ComparisonRow>, c: seq<ComparisonRow>)
    requires StablePermutation(a, b) && StablePermutation(b, c)
    ensures StablePermutation(a, c)
  {
  }

  lemma PairWithScore(u: ComparisonRow, v: ComparisonRow, x: real)
    requires u.combinedScore != v.combinedScore
    ensures WithScore([u, v], x) == WithScore([v, u], x)
  {
    assert [u, v][..1] == [u] && [v, u][..1] == [v];
    assert [u][..0] == [] && [v][..0] == [];
  }

  /** Exchanging two neighbours with different scores keeps the multiset and every group of equal scores. */
  lemma SwapKeepsScoreGroups(rows: seq<ComparisonRow>, j: int)
    requires 0 < j < |rows| && rows[j - 1].combinedScore != rows[j].combinedScore
    ensures StablePermutation(Swapped(rows, j), rows)
  {
    var front, back := rows[..j - 1], rows[j + 1..];
    var u, v := rows[j - 1], rows[j];
    assert rows == front + [u, v] + back;
    assert Swapped(rows, j) == front + [v, u] + back;
    forall x ensures WithScore(Swapped(rows, j), x) == WithScore(rows, x) {
      WithScoreAppend(front + [u, v], back, x);
      WithScoreAppend(front, [u, v], x);
      WithScoreAppend(front + [v, u], back, x);
      WithScoreAppend(front, [v, u], x);
      PairWithScore(u, v, x);
    }
  }

  /**
   * The combined score is the largest truthy total, and 0 when neither total
   * is truthy; a total of 0.0 counts as absent, and the two strategies play
   * symmetric roles.
   */
  lemma CombinedScoreMeaning(totalRpa: Option<real>, totalIpa: Option<real>)
    ensures var c := CombinedScore(totalRpa, totalIpa);
      && (c == 0.0 <==> !TruthyScore(totalRpa) && !TruthyScore(totalIpa))
      && (TruthyScore(totalRpa) ==> totalRpa.value <= c)
      && (TruthyScore(totalIpa) ==> totalIpa.value <= c)
      && (c != 0.0 ==> (TruthyScore(totalRpa) && c == totalRpa.value) || (TruthyScore(totalIpa) && c == totalIpa.value))
    ensures CombinedScore(totalRpa, totalIpa) == CombinedScore(totalIpa, totalRpa)
    ensures CombinedScore(Some(0.0), totalIpa) == CombinedScore(None, totalIpa)
    ensures CombinedScore(totalRpa, Some(0.0)) == CombinedScore(totalRpa, None)
  {
  }

  predicate Joinable(t: TotalResult, assessments: map<int, Assessment>, processes: map<int, Process>) {
    t.assessmentId in assessments && assessments[t.assessmentId].processId in processes
  }

  lemma {:induction false} JoinedRowsSound(totals: seq<TotalResult>, assessments: map<int, Assessment>, processes: map<int, Process>)
    ensures |JoinedRows(totals, assessments, processes)| <= |totals|
    ensures forall r :: r in JoinedRows(totals, assessments, processes) ==>
      exists t :: t in totals && t.assessmentId == r.assessmentId && Joinable(t, assessments, processes)
        && r.totalRpa == t.totalRpa && r.totalIpa == t.totalIpa
        && r.combinedScore == CombinedScore(t.totalRpa, t.totalIpa)
  {
    if |totals| > 0 {
      var init := totals[..|totals| - 1];
      JoinedRowsSound(init, assessments, processes);
      assert forall t :: t in init ==> t in totals;
    }
  }

  lemma {:induction false} JoinedRowsComplete(totals: seq<TotalResult>, assessments: map<int, Assessment>, processes: map<int, Process>)
    ensures forall i :: 0 <= i < |totals| && Joinable(totals[i], assessments, processes) ==>
      var a := assessments[totals[i].assessmentId];
      RowOf(totals[i], a, processes[a.processId]) in JoinedRows(totals, assessments, processes)
    ensures (forall i :: 0 <= i < |totals| ==> Joinable(totals[i], assessments, processes)) ==>
      |JoinedRows(totals, assessments, processes)| == |totals|
  {
    if |totals| > 0 {
      var init := totals[..|totals| - 1];
      JoinedRowsComplete(init, assessments, processes);
      var prev := JoinedRows(init, assessments, processes);
      forall i | 0 <= i < |totals| && Joinable(totals[i], assessments, processes)
        ensures var a := assessments[totals[i].assessmentId];
          RowOf(totals[i], a, processes[a.processId]) in JoinedRows(totals, assessments, processes)
      {
        if i < |init| {
          assert totals[i] == init[i];
        }
      }
      if forall i :: 0 <= i < |totals| ==> Joinable(totals[i], assessments, processes) {
        assert forall i :: 0 <= i < |init| ==> Joinable(init[i], assessments, processes) by {
          forall i | 0 <= i < |init| ensures Joinable(init[i], assessments, processes) {
            assert init[i] == totals[i];
          }
        }
        assert Joinable(totals[|totals| - 1], assessments, processes);
      }
    }
  }

  /**
   * The join keeps exactly the total results with an assessment and a
   * process: each joined line comes from such a total under its own scores,
   * every such total gives its line, and when all totals can be joined there
   * is one line per total.
   */
  lemma JoinedRowsOfTotals(totals: seq<TotalResult>, assessments: map<int, Assessment>, processes: map<int, Process>)
    ensures |JoinedRows(totals, assessments, processes)| <= |totals|
    ensures forall r :: r in JoinedRows(totals, assessments, processes) ==>
      exists t :: t in totals && t.assessmentId == r.assessmentId && Joinable(t, assessments, processes)
        && r.totalRpa == t.totalRpa && r.totalIpa == t.totalIpa
        && r.combinedScore == CombinedScore(t.totalRpa, t.totalIpa)
    ensures forall i :: 0 <= i < |totals| && Joinable(totals[i], assessments, processes) ==>
      var a := assessments[totals[i].assessmentId];
      RowOf(totals[i], a, processes[a.processId]) in JoinedRows(totals, assessments, processes)
    ensures (forall i :: 0 <= i < |totals| ==> Joinable(totals[i], assessments, processes)) ==>
      |JoinedRows(totals, assessments, processes)| == |totals|
  {
    JoinedRowsSound(totals, assessments, processes);
    JoinedRowsComplete(totals, assessments, processes);
  }
}
