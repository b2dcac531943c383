/** Which analysis a submitted link gets (app.py, the button handler). */
module Routing {
  import opened PyStr

  datatype Route = Video | Article

  /** The markers whose presence anywhere in a link sends it down the video path. */
  const YoutubeHost: String := "youtube.com"
  const ShortHost: String := "youtu.be"
  const ShortsPath: String := "shorts"

  /** The substring test on the link: no URL parsing, so a malformed link or
      one that merely mentions a marker is classified the same way. */
  function Classify(url: String): (r: Route)
    ensures r == Video <==>
      (exists k :: OccursAt(url, YoutubeHost, k))
      || (exists k :: OccursAt(url, ShortHost, k))
      || (exists k :: OccursAt(url, ShortsPath, k))
  {
    if Contains(url, YoutubeHost) || Contains(url, ShortHost) || Contains(url, ShortsPath)
    then Video
    else Article
  }

  /** Routing is monotone in the link text: surrounding a video link with any
      text keeps it a video link. */
  lemma VideoLinkInContext(pre: String, url: String, post: String)
    requires Classify(url) == Video
    ensures Classify(pre + url + post) == Video
  {
    var whole := pre + url + post;
    assert whole[|pre|..|pre| + |url|] == url;
    assert OccursAt(whole, url, |pre|);
    if Contains(url, YoutubeHost) {
      ContainsTransitive(whole, url, YoutubeHost);
    } else if Contains(url, ShortHost) {
      ContainsTransitive(whole, url, ShortHost);
    } else {
      ContainsTransitive(whole, url, ShortsPath);
    }
  }

  /** A misrouting the substring test allows: a news link whose path merely
      mentions "shorts" is sent down the video path. */
  lemma NewsLinkMentioningShorts()
    ensures Classify("https://news.example.com/shorts/1") == Video
  {
    var url: String := "https://news.example.com/shorts/1";
    assert url[25..31] == ShortsPath;
    assert OccursAt(url, ShortsPath, 25);
  }

  /** What the submit button leads to. */
  datatype Action =
    | AskForLink        // no link entered
    | NeedBaseKeys      // the language-model or search key is missing
    | NeedRapidKey      // a video link, but no transcript-service key
    | AnalyzeVideo(rapidKey: String)
    | AnalyzeArticle

  /** The name of the transcript-service key among the application's secrets. */
  const RapidKeyName: String := "RAPIDAPI_KEY"

  /** The transcript-service key the handler uses: the secret when it is set,
      else what the key field created inside the handler holds. */
  function RapidKey(secrets: map<String, String>, typedRapidKey: String): String {
    if RapidKeyName in secrets then secrets[RapidKeyName] else typedRapidKey
  }

  /** The button handler's decision; a key "is set" when the string is non-empty,
      as Python's truthiness of `str` has it. `secrets` are the application's
      secrets and `typedRapidKey` the text of the key field the handler
      creates when the secret is missing. */
  function Dispatch(url: String, openaiKey: String, tavilyKey: String,
                    secrets: map<String, String>, typedRapidKey: String): (a: Action)
    ensures a == AskForLink <==> url == []
    ensures a == NeedBaseKeys <==> url != [] && (openaiKey == [] || tavilyKey == [])
    ensures a.AnalyzeVideo? <==>
      url != [] && openaiKey != [] && tavilyKey != [] && Classify(url) == Video
      && RapidKey(secrets, typedRapidKey) != []
    ensures a.AnalyzeVideo? ==> a.rapidKey == RapidKey(secrets, typedRapidKey)
    ensures a == NeedRapidKey <==>
      url != [] && openaiKey != [] && tavilyKey != [] && Classify(url) == Video
      && RapidKey(secrets, typedRapidKey) == []
    ensures a == AnalyzeArticle <==>
      url != [] && openaiKey != [] && tavilyKey != [] && Classify(url) == Article
  {
    if url == [] then AskForLink
    else if openaiKey == [] || tavilyKey == [] then NeedBaseKeys
    else if Classify(url) == Video then
      var rapidKey := RapidKey(secrets, typedRapidKey);
      if rapidKey != [] then AnalyzeVideo(rapidKey) else NeedRapidKey
    else AnalyzeArticle
  }

  /** The key field the handler creates is new on the run in which the button
      is pressed, so it is still empty there: without the secret, a video link
      never reaches the analysis, and the sidebar's key field plays no part. */
  lemma VideoNeedsSecret(url: String, openaiKey: String, tavilyKey: String,
                         secrets: map<String, String>)
    requires RapidKeyName !in secrets
    ensures !Dispatch(url, openaiKey, tavilyKey, secrets, []).AnalyzeVideo?
  {
  }
}
