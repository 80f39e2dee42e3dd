/** Who gets credit in the equivalence status (`assess` and `metrics`): the baseline of the
    frozen inventory, explicit reopenings, and reviews that hold only while every file they
    pinned still matches. Rows are named by their place in the inventory. */
module Credit {
  import opened Wrappers

  datatype Decision = Keep | Skip | Copy | Update
  datatype Audit = Superior | Parity | OldPartial | OldMissing
  datatype Cap = Cap(name: string, decision: Decision, audit: Audit)

  datatype Status = Equivalent | Partial | Missing | Excluded | NeedsReview
  datatype Basis = Baseline | ScopeReopened | Reviewed | StaleEvidence
  datatype Row = Row(status: Status, basis: Basis)

  datatype Reopening = Reopening(row: nat, sha: string, dated: bool, reason: string)
  datatype Evidence = Evidence(path: string, sha: string)
  datatype Verdict = IsEquivalent | IsPartial | IsMissing
  datatype Review = Review(row: nat, sha: string, verdict: Verdict, summary: string, remaining: string,
                           evidence: seq<Evidence>)

  /** What the records are read against: the row digest, the path rules, the files that match
      their pinned hash, and the reviews whose citations resolve in the files they pinned. */
  datatype Tree = Tree(digest: Cap -> string, validPath: string -> bool, isCode: string -> bool, isTest: string -> bool,
                       matches: Evidence -> bool, resolves: Review -> bool, text: string -> bool)

  function StatusOf(v: Verdict): Status {
    match v case IsEquivalent => Equivalent case IsPartial => Partial case IsMissing => Missing
  }

  /** The status the dated audit left. */
  function BaselineStatus(c: Cap): Status {
    if c.decision.Skip? then Excluded
    else if c.decision.Keep? && (c.audit.Parity? || c.audit.Superior?) then Equivalent
    else if c.audit.OldMissing? then Missing
    else Partial
  }

  function BaselineRows(caps: seq<Cap>): seq<Row> {
    seq(|caps|, i requires 0 <= i < |caps| => Row(BaselineStatus(caps[i]), Baseline))
  }

  predicate MayReopen(caps: seq<Cap>, r: Reopening, reopened: set<nat>, t: Tree) {
    && r.row < |caps| && r.row !in reopened && caps[r.row].decision.Skip?
    && r.sha == t.digest(caps[r.row]) && r.dated && t.text(r.reason)
  }

  /** Every pinned file still holds what was hashed. */
  predicate Current(r: Review, t: Tree) {
    forall i :: 0 <= i < |r.evidence| ==> t.matches(r.evidence[i])
  }

  predicate MayReview(caps: seq<Cap>, r: Review, reopened: set<nat>, seen: set<nat>, t: Tree) {
    && r.row < |caps| && r.row !in seen && r.sha == t.digest(caps[r.row])
    && (!caps[r.row].decision.Skip? || r.row in reopened)
    && t.text(r.summary) && (r.verdict.IsEquivalent? <==> r.remaining == "")
    && r.evidence != []
    && (forall i :: 0 <= i < |r.evidence| ==> t.validPath(r.evidence[i].path))
    && (forall i, k :: 0 <= i < k < |r.evidence| ==> r.evidence[i].path != r.evidence[k].path)
    && (r.verdict.IsEquivalent? ==>
          && (exists i :: 0 <= i < |r.evidence| && t.isCode(r.evidence[i].path))
          && (exists i :: 0 <= i < |r.evidence| && t.isTest(r.evidence[i].path)))
    && (Current(r, t) ==> t.resolves(r))
  }

  function ReviewedRow(r: Review, t: Tree): Row {
    if Current(r, t) then Row(StatusOf(r.verdict), Reviewed) else Row(NeedsReview, StaleEvidence)
  }

  function ReopenedRows(reopenings: seq<Reopening>): set<nat> {
    set r | r in reopenings :: r.row
  }

  predicate ReopeningsHold(caps: seq<Cap>, reopenings: seq<Reopening>, t: Tree) {
    forall i :: 0 <= i < |reopenings| ==> MayReopen(caps, reopenings[i], ReopenedRows(reopenings[..i]), t)
  }

  function SeenRows(reviews: seq<Review>): set<nat> {
    set r | r in reviews :: r.row
  }

  predicate ReviewsHold(caps: seq<Cap>, reopenings: seq<Reopening>, reviews: seq<Review>, t: Tree) {
    forall i :: 0 <= i < |reviews| ==>
      MayReview(caps, reviews[i], ReopenedRows(reopenings), SeenRows(reviews[..i]), t)
  }

  /** What a row says, without the loops. */
  function RowOf(caps: seq<Cap>, reopenings: seq<Reopening>, reviews: seq<Review>, t: Tree, i: nat): Row
    requires i < |caps|
  {
    if reviews != [] && reviews[|reviews| - 1].row == i then ReviewedRow(reviews[|reviews| - 1], t)
    else if reviews != [] then RowOf(caps, reopenings, reviews[..|reviews| - 1], t, i)
    else if i in ReopenedRows(reopenings) then Row(NeedsReview, ScopeReopened)
    else Row(BaselineStatus(caps[i]), Baseline)
  }

  /** The rows are what the first `k` reviews make of them. */
  ghost predicate RowsAfter(caps: seq<Cap>, reopenings: seq<Reopening>, reviews: seq<Review>, t: Tree, rows: seq<Row>,
                            k: nat)
  {
    && k <= |reviews| && |rows| == |caps|
    && forall i :: 0 <= i < |caps| ==> rows[i] == RowOf(caps, reopenings, reviews[..k], t, i)
  }

  lemma OneMoreReview(caps: seq<Cap>, reopenings: seq<Reopening>, reviews: seq<Review>, t: Tree, k: nat, i: nat)
    requires k < |reviews| && i < |caps|
    ensures RowOf(caps, reopenings, reviews[..k + 1], t, i)
            == if reviews[k].row == i then ReviewedRow(reviews[k], t) else RowOf(caps, reopenings, reviews[..k], t, i)
  {
    assert reviews[..k + 1][..k] == reviews[..k];
  }

  lemma OneMoreRow(caps: seq<Cap>, reopenings: seq<Reopening>, reviews: seq<Review>, t: Tree, rows: seq<Row>, k: nat)
    requires RowsAfter(caps, reopenings, reviews, t, rows, k) && k < |reviews| && reviews[k].row < |caps|
    ensures RowsAfter(caps, reopenings, reviews, t, rows[reviews[k].row := ReviewedRow(reviews[k], t)], k + 1)
  {
    forall i | 0 <= i < |caps|
      ensures RowOf(caps, reopenings, reviews[..k + 1], t, i)
              == if reviews[k].row == i then ReviewedRow(reviews[k], t) else rows[i]
    {
      OneMoreReview(caps, reopenings, reviews, t, k, i);
    }
  }

  lemma OneMoreSeen(reviews: seq<Review>, k: nat)
    requires k < |reviews|
    ensures SeenRows(reviews[..k + 1]) == SeenRows(reviews[..k]) + {reviews[k].row}
  {
    assert reviews[..k + 1] == reviews[..k] + [reviews[k]];
  }

  /** The second loop of `assess`. */
  method ReviewRows(caps: seq<Cap>, reopenings: seq<Reopening>, reviews: seq<Review>, t: Tree,
                    start: seq<Row>, reopened: set<nat>)
    returns (rows: seq<Row>, result: Result<seq<Row>>)
    requires |start| == |caps| && reopened == ReopenedRows(reopenings)
    requires forall i :: 0 <= i < |caps| ==> start[i] == RowOf(caps, reopenings, [], t, i)
    ensures result.Success? <==> ReviewsHold(caps, reopenings, reviews, t)
    ensures result.Success? ==>
              |result.value| == |caps|
              && forall i :: 0 <= i < |caps| ==> result.value[i] == RowOf(caps, reopenings, reviews, t, i)
  {
    rows := start;
    var seen: set<nat> := {};
    for k := 0 to |reviews|
      invariant seen == SeenRows(reviews[..k])
      invariant forall i :: 0 <= i < k ==> MayReview(caps, reviews[i], reopened, SeenRows(reviews[..i]), t)
      invariant RowsAfter(caps, reopenings, reviews, t, rows, k)
    {
      var r := reviews[k];
      if !MayReview(caps, r, reopened, seen, t) {
        return rows, Failure;
      }
      OneMoreSeen(reviews, k);
      OneMoreRow(caps, reopenings, reviews, t, rows, k);
      seen := seen + {r.row};
      rows := rows[r.row := ReviewedRow(r, t)];
    }
    assert reviews[..|reviews|] == reviews;
    result := Success(rows);
  }

  /** `assess`: the rows, unless a record breaks a rule. */
  method Assess(caps: seq<Cap>, reopenings: seq<Reopening>, reviews: seq<Review>, t: Tree)
    returns (result: Result<seq<Row>>)
    ensures result.Success? <==> ReopeningsHold(caps, reopenings, t) && ReviewsHold(caps, reopenings, reviews, t)
    ensures result.Success? ==>
              |result.value| == |caps|
              && forall i :: 0 <= i < |caps| ==> result.value[i] == RowOf(caps, reopenings, reviews, t, i)
  {
    var rows := BaselineRows(caps);
    var reopened: set<nat> := {};
    for k := 0 to |reopenings|
      invariant |rows| == |caps| && reopened == ReopenedRows(reopenings[..k])
      invariant forall i :: 0 <= i < k ==> MayReopen(caps, reopenings[i], ReopenedRows(reopenings[..i]), t)
      invariant forall i :: 0 <= i < |caps| ==> rows[i] == RowOf(caps, reopenings[..k], [], t, i)
    {
      var r := reopenings[k];
      if !MayReopen(caps, r, reopened, t) {
        return Failure;
      }
      assert reopenings[..k + 1] == reopenings[..k] + [r];
      reopened := reopened + {r.row};
      rows := rows[r.row := Row(NeedsReview, ScopeReopened)];
    }
    assert reopenings[..|reopenings|] == reopenings;
    rows, result := ReviewRows(caps, reopenings, reviews, t, rows, reopened);
  }

  // ---- who is equivalent -----------------------------------------------------------------

  lemma RowIsThere(caps: seq<Cap>, reopenings: seq<Reopening>, reviews: seq<Review>, t: Tree, k: nat)
    requires ReviewsHold(caps, reopenings, reviews, t) && k < |reviews|
    ensures reviews[k].row < |caps|
  {
    assert MayReview(caps, reviews[k], ReopenedRows(reopenings), SeenRows(reviews[..k]), t);
  }

  lemma LaterIsAnother(caps: seq<Cap>, reopenings: seq<Reopening>, reviews: seq<Review>, t: Tree, k: nat, m: nat)
    requires ReviewsHold(caps, reopenings, reviews, t) && k < m < |reviews|
    ensures reviews[m].row != reviews[k].row
  {
    assert MayReview(caps, reviews[m], ReopenedRows(reopenings), SeenRows(reviews[..m]), t);
    assert reviews[..m][k] == reviews[k];
  }

  lemma {:induction false} RowStays(caps: seq<Cap>, reopenings: seq<Reopening>, reviews: seq<Review>, t: Tree, k: nat,
          n: nat)
    requires k < n <= |reviews| && reviews[k].row < |caps|
    requires forall m :: k < m < n ==> reviews[m].row != reviews[k].row
    ensures RowOf(caps, reopenings, reviews[..n], t, reviews[k].row) == ReviewedRow(reviews[k], t)
    decreases n
  {
    OneMoreReview(caps, reopenings, reviews, t, n - 1, reviews[k].row);
    if n == k + 1 {
    } else {
      RowStays(caps, reopenings, reviews, t, k, n - 1);
    }
  }

  lemma RowOfReview(caps: seq<Cap>, reopenings: seq<Reopening>, reviews: seq<Review>, t: Tree, k: nat)
    requires ReviewsHold(caps, reopenings, reviews, t) && k < |reviews|
    ensures reviews[k].row < |caps|
    ensures RowOf(caps, reopenings, reviews, t, reviews[k].row) == ReviewedRow(reviews[k], t)
  {
    RowIsThere(caps, reopenings, reviews, t, k);
    forall m | k < m < |reviews| ensures reviews[m].row != reviews[k].row {
      LaterIsAnother(caps, reopenings, reviews, t, k, m);
    }
    RowStays(caps, reopenings, reviews, t, k, |reviews|);
    assert reviews[..|reviews|] == reviews;
  }

  lemma {:induction false} RowOfUnreviewed(caps: seq<Cap>, reopenings: seq<Reopening>, reviews: seq<Review>, t: Tree,
          i: nat)
    requires i < |caps| && forall k :: 0 <= k < |reviews| ==> reviews[k].row != i
    ensures RowOf(caps, reopenings, reviews, t, i) == RowOf(caps, reopenings, [], t, i)
  {
    if reviews == [] {
    } else {
      RowOfUnreviewed(caps, reopenings, reviews[..|reviews| - 1], t, i);
    }
  }

  /** A row counts as equivalent in exactly two ways: its review says so, names nothing that
      remains, and every file it pinned still matches; or nobody reviewed or reopened it and
      the audit kept it at parity or better. Partial work, skips, reopenings and changed
      evidence never count. */
  lemma {:induction false} EquivalentIff(caps: seq<Cap>, reopenings: seq<Reopening>, reviews: seq<Review>, t: Tree,
          i: nat)
    requires i < |caps| && ReviewsHold(caps, reopenings, reviews, t)
    ensures RowOf(caps, reopenings, reviews, t, i).status.Equivalent? <==>
            || (exists k :: 0 <= k < |reviews| && reviews[k].row == i && reviews[k].verdict.IsEquivalent?
                            && reviews[k].remaining == "" && Current(reviews[k], t))
            || ((forall k :: 0 <= k < |reviews| ==> reviews[k].row != i) && i !in ReopenedRows(reopenings)
                && caps[i].decision.Keep? && (caps[i].audit.Parity? || caps[i].audit.Superior?))
  {
    if k :| 0 <= k < |reviews| && reviews[k].row == i {
      RowOfReview(caps, reopenings, reviews, t, k);
      assert MayReview(caps, reviews[k], ReopenedRows(reopenings), SeenRows(reviews[..k]), t);
      forall m | 0 <= m < |reviews| && reviews[m].row == i
        ensures ReviewedRow(reviews[m], t) == ReviewedRow(reviews[k], t)
      {
        RowOfReview(caps, reopenings, reviews, t, m);
      }
    } else {
      RowOfUnreviewed(caps, reopenings, reviews, t, i);
    }
  }

  /** Losing or changing files can only take credit away. */
  lemma {:induction false} FewerMatchesLessCredit(caps: seq<Cap>, reopenings: seq<Reopening>, reviews: seq<Review>,
          t: Tree, u: Tree, i: nat)
    requires i < |caps|
    requires ReviewsHold(caps, reopenings, reviews, t) && ReviewsHold(caps, reopenings, reviews, u)
    requires forall e :: t.matches(e) ==> u.matches(e)
    requires RowOf(caps, reopenings, reviews, t, i).status.Equivalent?
    ensures RowOf(caps, reopenings, reviews, u, i).status.Equivalent?
  {
    EquivalentIff(caps, reopenings, reviews, t, i);
    EquivalentIff(caps, reopenings, reviews, u, i);
  }

  // ---- metrics ---------------------------------------------------------------------------

  function Count(rows: seq<Row>, f: Row -> bool): nat {
    if rows == [] then 0 else (if f(rows[0]) then 1 else 0) + Count(rows[1..], f)
  }

  function HasStatus(s: Status): Row -> bool { (r: Row) => r.status == s }

  /** `reviewed_equivalent` and `inherited_equivalent`. */
  function EquivalentOn(b: Basis): Row -> bool { (r: Row) => r.status.Equivalent? && r.basis == b }

  lemma {:induction false} StatesAddUp(rows: seq<Row>)
    ensures Count(rows, HasStatus(Equivalent)) + Count(rows, HasStatus(Partial)) + Count(rows, HasStatus(Missing))
            + Count(rows, HasStatus(Excluded)) + Count(rows, HasStatus(NeedsReview)) == |rows|
  {
    if rows == [] {
    } else {
      StatesAddUp(rows[1..]);
    }
  }

  lemma {:induction false} EquivalentsAddUp(rows: seq<Row>)
    requires forall i :: 0 <= i < |rows| && rows[i].status.Equivalent? ==>
                           rows[i].basis.Reviewed? || rows[i].basis.Baseline?
    ensures Count(rows, HasStatus(Equivalent))
            == Count(rows, EquivalentOn(Reviewed)) + Count(rows, EquivalentOn(Baseline))
  {
    if rows == [] {
    } else {
      EquivalentsAddUp(rows[1..]);
    }
  }

  lemma {:induction false} EquivalentHasBasis(caps: seq<Cap>, reopenings: seq<Reopening>, reviews: seq<Review>,
          t: Tree, i: nat)
    requires i < |caps|
    ensures var r := RowOf(caps, reopenings, reviews, t, i);
            r.status.Equivalent? ==> r.basis.Reviewed? || r.basis.Baseline?
  {
    if reviews != [] && reviews[|reviews| - 1].row != i {
      EquivalentHasBasis(caps, reopenings, reviews[..|reviews| - 1], t, i);
    }
  }

  /** The published figures add up: five states make the total, and every equivalent row was
      either reviewed or inherited. */
  lemma FiguresAddUp(caps: seq<Cap>, reopenings: seq<Reopening>, reviews: seq<Review>, t: Tree, rows: seq<Row>)
    requires |rows| == |caps| && forall i :: 0 <= i < |caps| ==> rows[i] == RowOf(caps, reopenings, reviews, t, i)
    ensures Count(rows, HasStatus(Equivalent)) + Count(rows, HasStatus(Partial)) + Count(rows, HasStatus(Missing))
            + Count(rows, HasStatus(Excluded)) + Count(rows, HasStatus(NeedsReview)) == |caps|
    ensures Count(rows, HasStatus(Equivalent))
            == Count(rows, EquivalentOn(Reviewed)) + Count(rows, EquivalentOn(Baseline))
  {
    StatesAddUp(rows);
    forall i | 0 <= i < |rows| && rows[i].status.Equivalent?
      ensures rows[i].basis.Reviewed? || rows[i].basis.Baseline?
    {
      EquivalentHasBasis(caps, reopenings, reviews, t, i);
    }
    EquivalentsAddUp(rows);
  }
}
