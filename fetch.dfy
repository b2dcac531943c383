/**
 * Getting the text to analyse: a video transcript from the transcript
 * service, with one retry in English (app.py, `get_transcript_via_api`), or
 * the body of an article from the page loader (app.py, `analyze_article`).
 */
module Fetch {
  import opened Wrappers
  import opened PyStr

  const Endpoint: String := "https://youtube-transcript3.p.rapidapi.com/api/transcript-with-url"
  const ServiceHost: String := "youtube-transcript3.p.rapidapi.com"

  /** Characters of transcript and of article body kept for analysis. */
  const TranscriptLimit: nat := 15000
  const ArticleLimit: nat := 10000

  const StatusOk: int := 200

  /** A title placeholder ("no title") for pages without one. */
  const Untitled: String := "제목 없음"

  /** Query-string parameters and headers. */
  type Fields = map<String, String>

  datatype Request = Request(endpoint: String, headers: Fields, params: Fields)

  /** What `"transcript" in data` and `data["transcript"]` give on the decoded
      body: no entry, a string entry, or an exception (the body is not an
      object, say) with its message. */
  datatype Lookup = Absent | Present(text: String) | Raises(message: String)

  /** What `response.json()` gives: an exception with its message when the
      body is not JSON, or the decoded body, seen through the `transcript`
      lookup and its printed form `str(data)`, which is not modelled beyond
      being a string. */
  datatype Body = NotJson(message: String) | Decoded(transcript: Lookup, printed: String)

  datatype Response = Response(status: int, text: String, body: Body)

  /** Why `get_transcript_via_api` raised: both attempts answered with a
      non-200 status, or a call inside it raised with this message. */
  datatype FetchError = ApiFailure(status: int, text: String) | Raised(message: String)

  function Headers(apiKey: String): Fields {
    map["x-rapidapi-key" := apiKey, "x-rapidapi-host" := ServiceHost]
  }

  /** The first request: Korean transcript, as flat text. */
  function FirstRequest(videoUrl: String, apiKey: String): Request {
    Request(Endpoint, Headers(apiKey), map["url" := videoUrl, "flat_text" := "true", "lang" := "ko"])
  }

  /** The text the function cuts down from a decoded body: the `transcript`
      entry, or the whole printed body when there is none. */
  function BodyText(body: Body): String
    requires body.Decoded? && !body.transcript.Raises?
  {
    match body.transcript
    case Present(t) => t
    case Absent => body.printed
  }

  /** The parsing step after a 200 answer: decode the body, look up the
      transcript and cut it down to 15000 characters. */
  function ReadBody(body: Body): (r: Result<String, FetchError>)
    ensures r.Err? <==> body.NotJson? || body.transcript.Raises?
    ensures body.NotJson? ==> r == Err(Raised(body.message))
    ensures body.Decoded? && body.transcript.Raises? ==> r == Err(Raised(body.transcript.message))
    ensures r.Ok? ==>
      var source := BodyText(body);
      && |r.value| <= TranscriptLimit && |r.value| <= |source|
      && r.value == source[..|r.value|]
      && (|source| <= TranscriptLimit ==> r.value == source)
      && (|source| > TranscriptLimit ==> |r.value| == TranscriptLimit)
  {
    match body
    case NotJson(e) => Err(Raised(e))
    case Decoded(entry, printed) =>
      match entry
      case Raises(e) => Err(Raised(e))
      case Present(t) => Ok(Truncate(t, TranscriptLimit))
      case Absent => Ok(Truncate(printed, TranscriptLimit))
  }

  /** `get_transcript_via_api`. `get` is the HTTP service, giving the
      response or the message of the exception `requests.get` raised; `sent`
      lists the requests made, in order. */
  method GetTranscript(videoUrl: String, apiKey: String, get: Request -> Result<Response, String>)
    returns (result: Result<String, FetchError>, sent: seq<Request>)
    ensures 1 <= |sent| <= 2
    ensures sent[0] == FirstRequest(videoUrl, apiKey)
    ensures |sent| == 2 <==> get(sent[0]).Ok? && get(sent[0]).value.status != StatusOk
    ensures |sent| == 2 ==>
      sent[1] == sent[0].(params := sent[0].params["lang" := "en"])
    ensures var last := get(sent[|sent| - 1]);
      && (last.Err? ==> result == Err(Raised(last.error)))
      && (last.Ok? && last.value.status != StatusOk ==>
            |sent| == 2 && result == Err(ApiFailure(last.value.status, last.value.text)))
      && (last.Ok? && last.value.status == StatusOk ==> result == ReadBody(last.value.body))
  {
    var headers := Headers(apiKey);
    var querystring := map["url" := videoUrl, "flat_text" := "true", "lang" := "ko"];
    var request := Request(Endpoint, headers, querystring);
    var answer := get(request);
    sent := [request];
    if answer.Err? {
      return Err(Raised(answer.error)), sent;
    }
    var response := answer.value;
    if response.status != StatusOk {
      querystring := querystring["lang" := "en"];
      request := Request(Endpoint, headers, querystring);
      answer := get(request);
      sent := sent + [request];
      if answer.Err? {
        return Err(Raised(answer.error)), sent;
      }
      response := answer.value;
      if response.status != StatusOk {
        return Err(ApiFailure(response.status, response.text)), sent;
      }
    }
    result := ReadBody(response.body);
  }

  /** A loaded page: its text and its metadata. */
  datatype Document = Document(pageContent: String, metadata: Fields)

  datatype Article = Article(content: String, title: String)

  /** The `try` block of `analyze_article`. `loaded` is what the page loader
      returned, or the message of the exception it raised; an empty list makes
      `docs[0]` raise, which the same handler catches. */
  function ReadArticle(loaded: Result<seq<Document>, String>): (r: Result<Article, String>)
    ensures r.Ok? <==> loaded.Ok? && |loaded.value| > 0
    ensures loaded.Err? ==> r == Err(loaded.error)
    ensures r.Ok? ==>
      var page := loaded.value[0].pageContent;
      && |r.value.content| <= ArticleLimit && |r.value.content| <= |page|
      && r.value.content == page[..|r.value.content|]
      && (|page| <= ArticleLimit ==> r.value.content == page)
      && (|page| > ArticleLimit ==> |r.value.content| == ArticleLimit)
    ensures r.Ok? ==>
      var meta := loaded.value[0].metadata;
      r.value.title == (if "title" in meta then meta["title"] else Untitled)
  {
    match loaded
    case Err(e) => Err(e)
    case Ok(docs) =>
      if |docs| == 0 then Err("list index out of range")
      else
        var title := if "title" in docs[0].metadata then docs[0].metadata["title"] else Untitled;
        Ok(Article(Truncate(docs[0].pageContent, ArticleLimit), title))
  }
}
