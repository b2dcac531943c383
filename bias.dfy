/**
 * The scan of the language model's bias reply (app.py, `analyze_article`):
 * three fields start from defaults and each line that mentions a field's
 * marker overwrites that field with the text between the line's first and
 * second colon.
 */
module Bias {
  import opened PyStr

  const ScoreMarker: String := "SCORE:"
  const FramingMarker: String := "FRAMING:"
  const KeywordMarker: String := "KEYWORD:"

  const DefaultScore: String := "N/A"
  const DefaultFraming: String := "분석 실패"

  const Colon: String := ":"

  /** `line.split(":")[1].strip()`; the index exists because the line has a
      colon. The value is the stripped text between the line's first and
      second colon, so it never holds a colon itself. */
  function Field(line: String): (v: String)
    requires Contains(line, Colon)
    ensures exists i, j :: ColonSegment(line, i, j) && v == Strip(line[i + 1..j])
    ensures ':' !in v
  {
    FieldSegment(line);
    Strip(Split(line, Colon)[1])
  }

  /** `line[i]` is the line's first colon and `line[j]` its second (or `j` is
      the end of the line). */
  predicate ColonSegment(line: String, i: int, j: int) {
    && 0 <= i < j <= |line|
    && line[i] == ':'
    && (forall k :: 0 <= k < i ==> line[k] != ':')
    && (forall k :: i < k < j ==> line[k] != ':')
    && (j == |line| || line[j] == ':')
  }

  /** `split(":")[1]` is the text between the line's first and second colon. */
  lemma SecondColonPiece(line: String) returns (i: int, j: int)
    requires Contains(line, Colon)
    ensures |Split(line, Colon)| >= 2
    ensures ColonSegment(line, i, j) && Split(line, Colon)[1] == line[i + 1..j]
  {
    SplitCount(line, Colon);
    i := Find(line, Colon).value;
    var n := SecondPiece(line, Colon, i);
    j := i + 1 + n;
    OccursAtChar(line, ':', i);
    forall k | 0 <= k < i ensures line[k] != ':' {
      OccursAtChar(line, ':', k);
    }
    forall k | i < k < j ensures line[k] != ':' {
      OccursAtChar(line, ':', k);
    }
    if j < |line| {
      OccursAtChar(line, ':', j);
    }
  }

  /** Stripping never brings in a character the text did not hold. */
  lemma StripKeepsOut(seg: String, c: char)
    requires forall k :: 0 <= k < |seg| ==> seg[k] != c
    ensures c !in Strip(seg)
  {
    var r := Strip(seg);
    var a, b :| StripWindow(seg, Whitespace, a, b) && r == seg[a..b];
  }

  /** `split(":")[1]` is a segment between colons, and stripping it leaves
      no colon. */
  lemma FieldSegment(line: String)
    requires Contains(line, Colon)
    ensures |Split(line, Colon)| >= 2
    ensures exists i, j :: ColonSegment(line, i, j) && Split(line, Colon)[1] == line[i + 1..j]
    ensures ':' !in Strip(Split(line, Colon)[1])
  {
    var i, j := SecondColonPiece(line);
    var seg := line[i + 1..j];
    assert forall k :: 0 <= k < |seg| ==> seg[k] == line[i + 1 + k];
    StripKeepsOut(seg, ':');
  }

  /** Every marker holds a colon, so a line that mentions one can be split. */
  lemma MarkersHaveColon(line: String)
    ensures Contains(line, ScoreMarker) ==> Contains(line, Colon)
    ensures Contains(line, FramingMarker) ==> Contains(line, Colon)
    ensures Contains(line, KeywordMarker) ==> Contains(line, Colon)
  {
    assert OccursAt(ScoreMarker, Colon, 5);
    assert OccursAt(FramingMarker, Colon, 7);
    assert OccursAt(KeywordMarker, Colon, 7);
    if Contains(line, ScoreMarker) { ContainsTransitive(line, ScoreMarker, Colon); }
    if Contains(line, FramingMarker) { ContainsTransitive(line, FramingMarker, Colon); }
    if Contains(line, KeywordMarker) { ContainsTransitive(line, KeywordMarker, Colon); }
  }

  /** A marker the scan looks for. */
  predicate IsMarker(marker: String) {
    marker == ScoreMarker || marker == FramingMarker || marker == KeywordMarker
  }

  /** The value a field has after scanning `lines`: the field of the last line
      mentioning `marker`, or `dflt` when none does. */
  function LastValue(lines: seq<String>, marker: String, dflt: String): (v: String)
    requires IsMarker(marker)
    ensures v == dflt || ':' !in v
    decreases |lines|
  {
    if lines == [] then dflt
    else
      var last := lines[|lines| - 1];
      MarkersHaveColon(last);
      if Contains(last, marker) then Field(last)
      else LastValue(lines[..|lines| - 1], marker, dflt)
  }

  /** A field keeps its default when no line mentions its marker. */
  lemma {:induction false} LastValueDefault(lines: seq<String>, marker: String, dflt: String)
    requires IsMarker(marker)
    requires forall l :: 0 <= l < |lines| ==> !Contains(lines[l], marker)
    ensures LastValue(lines, marker, dflt) == dflt
    decreases |lines|
  {
    if lines != [] {
      var init := lines[..|lines| - 1];
      assert forall l :: 0 <= l < |init| ==> init[l] == lines[l];
      LastValueDefault(init, marker, dflt);
    }
  }

  /** The last line that mentions the marker decides the field. */
  lemma {:induction false} LastValueLastMatch(lines: seq<String>, marker: String, dflt: String, j: int)
    requires IsMarker(marker)
    requires 0 <= j < |lines| && Contains(lines[j], marker)
    requires forall l :: j < l < |lines| ==> !Contains(lines[l], marker)
    ensures Contains(lines[j], Colon) && LastValue(lines, marker, dflt) == Field(lines[j])
    decreases |lines|
  {
    MarkersHaveColon(lines[j]);
    var init := lines[..|lines| - 1];
    if j < |lines| - 1 {
      assert forall l :: 0 <= l < |init| ==> init[l] == lines[l];
      LastValueLastMatch(init, marker, dflt, j);
    }
  }

  /** A field's value comes from somewhere: it is the default, or the field of
      a line that mentions the marker. */
  lemma {:induction false} LastValueSource(lines: seq<String>, marker: String, dflt: String)
    requires IsMarker(marker)
    ensures var v := LastValue(lines, marker, dflt);
      v == dflt || exists j :: 0 <= j < |lines| && Contains(lines[j], marker)
                     && Contains(lines[j], Colon) && v == Field(lines[j])
    decreases |lines|
  {
    if lines != [] {
      var init := lines[..|lines| - 1];
      var last := lines[|lines| - 1];
      MarkersHaveColon(last);
      if !Contains(last, marker) {
        LastValueSource(init, marker, dflt);
        var v := LastValue(init, marker, dflt);
        if v != dflt {
          var j :| 0 <= j < |init| && Contains(init[j], marker)
                   && Contains(init[j], Colon) && v == Field(init[j]);
          assert init[j] == lines[j];
        }
      }
    }
  }

  /** One line that mentions several markers sets every one of those fields,
      all to the same text, when no later line mentions them. */
  lemma OneLineSetsEveryMarkedField(lines: seq<String>, j: int,
                                    m1: String, d1: String, m2: String, d2: String)
    requires IsMarker(m1) && IsMarker(m2)
    requires 0 <= j < |lines| && Contains(lines[j], m1) && Contains(lines[j], m2)
    requires forall l :: j < l < |lines| ==> !Contains(lines[l], m1) && !Contains(lines[l], m2)
    ensures LastValue(lines, m1, d1) == LastValue(lines, m2, d2)
  {
  }

  /** The line loop of `analyze_article`; `title` is the article title, the
      keyword's default. */
  method ScanBias(response: String, title: String)
    returns (score: String, framing: String, keyword: String)
    ensures score == LastValue(Split(response, Newline), ScoreMarker, DefaultScore)
    ensures framing == LastValue(Split(response, Newline), FramingMarker, DefaultFraming)
    ensures keyword == LastValue(Split(response, Newline), KeywordMarker, title)
  {
    score := DefaultScore;
    framing := DefaultFraming;
    keyword := title;
    var lines := Split(response, Newline);
    for i := 0 to |lines|
      invariant score == LastValue(lines[..i], ScoreMarker, DefaultScore)
      invariant framing == LastValue(lines[..i], FramingMarker, DefaultFraming)
      invariant keyword == LastValue(lines[..i], KeywordMarker, title)
    {
      var line := lines[i];
      assert lines[..i + 1][..i] == lines[..i];
      MarkersHaveColon(line);
      if Contains(line, ScoreMarker) { score := Field(line); }
      if Contains(line, FramingMarker) { framing := Field(line); }
      if Contains(line, KeywordMarker) { keyword := Field(line); }
    }
    assert lines[..|lines|] == lines;
  }
}
