/**
 * The fact-check loop over the extracted claims (app.py, `analyze_youtube`):
 * short claims are skipped; each remaining claim is searched for, judged by
 * the language model against the evidence, and given a colour class.
 */
module FactCheck {
  import opened Wrappers
  import opened PyStr
  import opened Subseq

  /** Claims shorter than this are skipped. */
  const MinClaimLength: nat := 5

  /** The evidence text used when the search call raises. */
  const NoEvidence: String := "검색 결과 없음"

  /** The word ("true/fact") whose presence in a verdict selects the green style. */
  const FactWord: String := "사실"

  const FactTrue: String := "fact-true"
  const FactCheckStyle: String := "fact-check"

  /** A claim the loop does not `continue` past. */
  predicate Checkable(claim: String) {
    |claim| >= MinClaimLength
  }

  /** The colour class of a verdict. */
  function ColorClass(verdict: String): (c: String)
    ensures c == FactTrue || c == FactCheckStyle
    ensures c == FactTrue <==> exists k :: OccursAt(verdict, FactWord, k)
  {
    if Contains(verdict, FactWord) then FactTrue else FactCheckStyle
  }

  /** The evidence handed to the judge: the search result's text, or the
      fallback text when the search raised (`None`). */
  function Evidence(found: Option<String>): (e: String)
    ensures found.Some? ==> e == found.value
    ensures found.None? ==> e == NoEvidence
  {
    match found
    case Some(text) => text
    case None => NoEvidence
  }

  /** One rendered fact box. */
  datatype Row = Row(claim: String, evidence: String, verdict: String, colorClass: String)

  /** The row the loop body produces for one claim, given the search service
      (`None` when it raises) and the language model's verdict on the prompt
      built from the claim and the evidence. */
  function RowFor(claim: String, search: String -> Option<String>,
                  judge: (String, String) -> String): (row: Row)
    ensures row.claim == claim
    ensures search(claim).Some? ==> row.evidence == search(claim).value
    ensures search(claim).None? ==> row.evidence == NoEvidence
    ensures row.verdict == judge(claim, row.evidence)
    ensures row.colorClass == FactTrue <==> Contains(row.verdict, FactWord)
    ensures row.colorClass == FactTrue || row.colorClass == FactCheckStyle
  {
    var evidence := Evidence(search(claim));
    var verdict := judge(claim, evidence);
    Row(claim, evidence, verdict, ColorClass(verdict))
  }

  /** `rows` are the fact boxes for exactly the claims long enough to check, in order. */
  predicate ReportsOn(rows: seq<Row>, claims: seq<String>,
                      search: String -> Option<String>, judge: (String, String) -> String)
  {
    var picked := Selected(claims, Checkable);
    |rows| == |picked|
    && forall k :: 0 <= k < |rows| ==> rows[k] == RowFor(claims[picked[k]], search, judge)
  }

  /** The loop of `analyze_youtube` over `claims_list`. */
  method CheckClaims(claims: seq<String>, search: String -> Option<String>,
                     judge: (String, String) -> String) returns (rows: seq<Row>)
    ensures ReportsOn(rows, claims, search, judge)
    ensures forall k :: 0 <= k < |rows| ==> |rows[k].claim| >= MinClaimLength
    ensures forall k :: 0 <= k < |rows| ==>
      (rows[k].colorClass == FactTrue <==> exists p :: OccursAt(rows[k].verdict, FactWord, p))
  {
    rows := [];
    for i := 0 to |claims|
      invariant ReportsOn(rows, claims[..i], search, judge)
    {
      ReportsOnSnoc(rows, claims[..i], claims[i], search, judge);
      assert claims[..i + 1] == claims[..i] + [claims[i]];
      if |claims[i]| < MinClaimLength {
        continue;
      }
      var found := search(claims[i]);
      var evidence := if found.Some? then found.value else NoEvidence;
      var verdict := judge(claims[i], evidence);
      var colorClass := if Contains(verdict, FactWord) then FactTrue else FactCheckStyle;
      var row := Row(claims[i], evidence, verdict, colorClass);
      assert row == RowFor(claims[i], search, judge);
      rows := rows + [row];
    }
    assert claims[..|claims|] == claims;
    ReportedRowsAreChecked(rows, claims, search, judge);
  }

  /** One more claim adds its box when it is checkable, and nothing otherwise. */
  lemma ReportsOnSnoc(rows: seq<Row>, claims: seq<String>, claim: String,
                      search: String -> Option<String>, judge: (String, String) -> String)
    requires ReportsOn(rows, claims, search, judge)
    ensures Checkable(claim) ==>
      ReportsOn(rows + [RowFor(claim, search, judge)], claims + [claim], search, judge)
    ensures !Checkable(claim) ==> ReportsOn(rows, claims + [claim], search, judge)
  {
    SelectedSnoc(claims, claim, Checkable);
  }

  /** The boxes of a report are for long claims only, and each is green exactly
      when its verdict contains `사실`. */
  lemma ReportedRowsAreChecked(rows: seq<Row>, claims: seq<String>,
                               search: String -> Option<String>,
                               judge: (String, String) -> String)
    requires ReportsOn(rows, claims, search, judge)
    ensures forall k :: 0 <= k < |rows| ==> |rows[k].claim| >= MinClaimLength
    ensures forall k :: 0 <= k < |rows| ==>
      (rows[k].colorClass == FactTrue <==> exists p :: OccursAt(rows[k].verdict, FactWord, p))
  {
    var picked := Selected(claims, Checkable);
    forall k | 0 <= k < |rows|
      ensures |rows[k].claim| >= MinClaimLength
      ensures rows[k].colorClass == FactTrue <==> exists p :: OccursAt(rows[k].verdict, FactWord, p)
    {
      assert rows[k] == RowFor(claims[picked[k]], search, judge);
    }
  }

  /** Every claim of at least five characters gets a fact box, and no other
      claim does. */
  lemma ReportCoversLongClaims(rows: seq<Row>, claims: seq<String>,
                               search: String -> Option<String>,
                               judge: (String, String) -> String, j: int)
    requires ReportsOn(rows, claims, search, judge)
    requires 0 <= j < |claims|
    ensures Checkable(claims[j]) <==> exists k :: 0 <= k < |rows| && rows[k].claim == claims[j]
  {
  }
}
