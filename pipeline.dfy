/**
 * The two analyses in sequence (app.py, `analyze_youtube` and
 * `analyze_article`), with the language model and the search service as
 * parameters. Rendering is not modelled; the outcomes are what gets rendered.
 */
module Pipeline {
  import opened Wrappers
  import opened PyStr
  import opened Fetch
  import opened Extraction
  import opened FactCheck
  import opened Bias

  datatype VideoOutcome =
    | TranscriptFailed(error: FetchError)
    | VideoReport(summary: String, rows: seq<Row>)

  /** `analyze_youtube`, given what `get_transcript_via_api` produced;
      `analyse` is the language model on the extraction prompt for a text. */
  method AnalyzeYoutube(fetched: Result<String, FetchError>, analyse: String -> String,
                        search: String -> Option<String>, judge: (String, String) -> String)
    returns (out: VideoOutcome)
    ensures fetched.Err? ==> out == TranscriptFailed(fetched.error)
    ensures fetched.Ok? ==>
      var analysis := SplitAnalysis(analyse(fetched.value));
      && out.VideoReport?
      && out.summary == analysis.summary
      && ReportsOn(out.rows, analysis.claims, search, judge)
  {
    match fetched
    case Err(e) =>
      out := TranscriptFailed(e);
    case Ok(text) =>
      var analysis := SplitAnalysis(analyse(text));
      var rows := CheckClaims(analysis.claims, search, judge);
      out := VideoReport(analysis.summary, rows);
  }

  datatype ArticleOutcome =
    | LoadFailed(message: String)
    | ArticleReport(title: String, score: String, framing: String, keyword: String)

  /** `analyze_article` up to the keyword search; `assess` is the language
      model on the bias prompt for a title and a body. The keyword is what is
      then searched for. */
  method AnalyzeArticle(loaded: Result<seq<Document>, String>, assess: (String, String) -> String)
    returns (out: ArticleOutcome)
    ensures ReadArticle(loaded).Err? ==> out == LoadFailed(ReadArticle(loaded).error)
    ensures ReadArticle(loaded).Ok? ==>
      var article := ReadArticle(loaded).value;
      var lines := Split(assess(article.title, article.content), Newline);
      out == ArticleReport(article.title,
                           LastValue(lines, ScoreMarker, DefaultScore),
                           LastValue(lines, FramingMarker, DefaultFraming),
                           LastValue(lines, KeywordMarker, article.title))
  {
    match ReadArticle(loaded)
    case Err(e) =>
      out := LoadFailed(e);
    case Ok(article) =>
      var reply := assess(article.title, article.content);
      var score, framing, keyword := ScanBias(reply, article.title);
      out := ArticleReport(article.title, score, framing, keyword);
  }
}
