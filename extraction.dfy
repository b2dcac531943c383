/**
 * Cutting the language model's `SUMMARY: ... CLAIMS: ...` reply into a
 * summary text and a list of claims (app.py, `analyze_youtube`).
 */
module Extraction {
  import opened PyStr
  import opened Subseq

  const SummaryMarker: String := "SUMMARY:"
  const ClaimsMarker: String := "CLAIMS:"

  /** The characters of `strip("- ")`. */
  const DashSpace: set<char> := {'-', ' '}

  datatype Analysis = Analysis(summary: String, claims: seq<String>)

  /** A line the comprehension keeps: `c.strip()` is not empty. */
  predicate NonBlank(line: String) {
    Strip(line) != []
  }

  /** `c.strip("- ").strip()`. */
  function CleanClaim(line: String): (claim: String)
    ensures Trimmed(claim)
    ensures |claim| <= |line|
  {
    Strip(StripChars(line, DashSpace))
  }

  /** A line is kept exactly when it holds a character that is not whitespace. */
  lemma NonBlankHasVisibleChar(line: String)
    ensures NonBlank(line) <==> exists k :: 0 <= k < |line| && line[k] !in Whitespace
  {
    StripCharsEmpty(line, Whitespace);
  }

  /** `[c.strip("- ").strip() for c in lines if c.strip()]`: one cleaned claim
      per non-blank line, in line order. */
  function CleanClaims(lines: seq<String>): (claims: seq<String>)
    ensures CleansTo(lines, claims)
    decreases |lines|
  {
    if lines == [] then []
    else
      var init := lines[..|lines| - 1];
      var last := lines[|lines| - 1];
      var before := CleanClaims(init);
      CleanClaimsStep(init, last, before);
      assert init + [last] == lines;
      before + (if NonBlank(last) then [CleanClaim(last)] else [])
  }

  /** The claims of `lines` are the cleaned lines at the non-blank positions. */
  predicate CleansTo(lines: seq<String>, claims: seq<String>) {
    var picked := Selected(lines, NonBlank);
    |claims| == |picked|
    && forall k :: 0 <= k < |claims| ==> claims[k] == CleanClaim(lines[picked[k]])
  }

  /** One more line adds its cleaned text when it is non-blank, and nothing
      otherwise. */
  lemma CleanClaimsStep(init: seq<String>, last: String, before: seq<String>)
    requires CleansTo(init, before)
    ensures CleansTo(init + [last], before + (if NonBlank(last) then [CleanClaim(last)] else []))
  {
    SelectedSnoc(init, last, NonBlank);
  }

  /** The splitter: with both markers present, the summary is the text before
      the first `CLAIMS:` with `SUMMARY:` removed and whitespace stripped, and
      the claims come from the lines of the next piece; otherwise the whole
      reply is the summary and there are no claims. */
  function SplitAnalysis(response: String): (r: Analysis)
    ensures !(Contains(response, SummaryMarker) && Contains(response, ClaimsMarker))
            ==> r == Analysis(response, [])
    ensures Contains(response, SummaryMarker) && Contains(response, ClaimsMarker)
            ==> Trimmed(r.summary) && forall k :: 0 <= k < |r.claims| ==> Trimmed(r.claims[k])
  {
    if Contains(response, SummaryMarker) && Contains(response, ClaimsMarker) then
      SplitCount(response, ClaimsMarker);
      var parts := Split(response, ClaimsMarker);
      Analysis(Strip(Replace(parts[0], SummaryMarker, "")), CleanClaims(Split(parts[1], Newline)))
    else
      Analysis(response, [])
  }

  /** With both markers present: the summary comes from the text before the
      first `CLAIMS:` (at `i`), and the claims only from the text between it
      and the second `CLAIMS:` (at `j`, or the end of the reply when there is
      none); whatever follows a second `CLAIMS:` is dropped. */
  lemma SplitWithBothMarkers(response: String, i: int, j: int)
    requires Contains(response, SummaryMarker)
    requires FirstOccurrence(response, ClaimsMarker, i)
    requires i + |ClaimsMarker| <= j <= |response|
    requires forall l :: i + |ClaimsMarker| <= l < j ==> !OccursAt(response, ClaimsMarker, l)
    requires j == |response| || OccursAt(response, ClaimsMarker, j)
    ensures SplitAnalysis(response).summary == Strip(Replace(response[..i], SummaryMarker, ""))
    ensures SplitAnalysis(response).claims
         == CleanClaims(Split(response[i + |ClaimsMarker|..j], Newline))
  {
    ClaimsPieces(response, i, j);
  }

  /** The first two pieces of the reply split on `CLAIMS:`. */
  lemma ClaimsPieces(response: String, i: int, j: int)
    requires FirstOccurrence(response, ClaimsMarker, i)
    requires i + |ClaimsMarker| <= j <= |response|
    requires forall l :: i + |ClaimsMarker| <= l < j ==> !OccursAt(response, ClaimsMarker, l)
    requires j == |response| || OccursAt(response, ClaimsMarker, j)
    ensures |Split(response, ClaimsMarker)| >= 2
    ensures Split(response, ClaimsMarker)[0] == response[..i]
    ensures Split(response, ClaimsMarker)[1] == response[i + |ClaimsMarker|..j]
  {
    var d := i + |ClaimsMarker|;
    FindIsFirst(response, ClaimsMarker, i);
    assert Split(response, ClaimsMarker)
        == [response[..i]] + Split(response[d..], ClaimsMarker);
    var n := SecondPiece(response, ClaimsMarker, i);
    if d + n < j {
      assert false;
    } else if j < d + n {
      assert false;
    }
  }

  /** With either marker missing, the reply is the summary, unchanged, and
      nothing is a claim. */
  lemma SplitWithoutMarker(response: String)
    requires (forall k :: !OccursAt(response, SummaryMarker, k))
          || (forall k :: !OccursAt(response, ClaimsMarker, k))
    ensures SplitAnalysis(response) == Analysis(response, [])
  {
  }

  /** The reply's claim list, when both markers are present: one element per
      non-blank line of the claims piece, cleaned, in order. */
  lemma ClaimsAreCleanedNonBlankLines(response: String)
    requires Contains(response, SummaryMarker) && Contains(response, ClaimsMarker)
    ensures var lines := Split(Split(response, ClaimsMarker)[1], Newline);
      var claims := SplitAnalysis(response).claims;
      && |claims| == |Selected(lines, NonBlank)|
      && (forall k :: 0 <= k < |claims| ==> claims[k] == CleanClaim(lines[Selected(lines, NonBlank)[k]]))
  {
  }

  /** A line made only of dashes and spaces, with at least one dash, is kept
      by the comprehension and becomes an empty claim. */
  lemma DashLineIsEmptyClaim(line: String)
    requires '-' in line
    requires forall k :: 0 <= k < |line| ==> line[k] in DashSpace
    ensures NonBlank(line)
    ensures CleanClaim(line) == []
  {
    StripCharsEmpty(line, DashSpace);
    StripCharsEmpty(line, Whitespace);
    var k :| 0 <= k < |line| && line[k] == '-';
    assert line[k] !in Whitespace;
  }
}
