# Veritas Lens text rules, modelled in Dafny

Veritas Lens is a single-page web tool. It takes a link, fetches a video
transcript or an article body, asks a language model to summarise the text and
pick out claims, searches the web for each claim, and shows a verdict and a
colour per claim, or a bias score for an article. Almost all of the work is
done by outside services. This project models the small rules the
application applies to text itself, all in `app.py`. They are stated over
Python's own string semantics:

- **Routing** (`Routing`): a link goes down the video path exactly when it
  contains `youtube.com`, `youtu.be` or `shorts` anywhere. The button handler
  also checks for the link and the keys first.
- **Reply splitter** (`Extraction`): the model's `SUMMARY: … CLAIMS: …` reply
  becomes a summary text and a list of claims. It uses `split`, `replace`,
  `strip()` and `strip("- ")`.
- **Fact-check loop** (`FactCheck`): claims shorter than five characters are
  skipped. Each other claim is searched for; a failed search gives the text
  `검색 결과 없음`. The claim is then judged, and the box gets `fact-true`
  exactly when the verdict contains `사실`, else `fact-check`.
- **Bias scanner** (`Bias`): a loop over the reply's lines fills `score`,
  `framing` and `keyword`. They start as `N/A`, `분석 실패` and the article
  title. The last line that mentions a field's marker sets it to the stripped
  text between that line's first and second colon. The score stays the string
  the reply carries, or `N/A`.
- **Fetching** (`Fetch`): the transcript is requested with `lang=ko`. Only on a
  non-200 status is a second request sent, with `lang=en`. A second non-200
  is an error, and so is a request, the JSON decoding or the `transcript`
  lookup raising. The transcript is cut to 15000 characters and the article
  body to 10000.
- **Sequencing** (`Pipeline`): the two analyses, built from the above.

`PyStr` holds the Python string built-ins as functions over Unicode scalar values:
`in`, `find`, `split`, `join`, `replace`, `strip`, `strip(chars)` and `[:n]`.
`strip()` removes exactly the characters for which `str.isspace()` holds.
`Subseq` gives the positions a filter keeps. `Wrappers` holds `Option` and
`Result`.

The outside services are parameters: the HTTP transcript service
(`Request -> Result<Response, String>`, `Err` carrying the message of what
`requests.get` raised), the page loader's outcome, the language model (a
function of the values formatted into its prompt) and the search service
(`None` when the call raises).

## Model

| member | source | states |
|---|---|---|
| `PyStr.FindFrom` | app.py:135 | the result is the leftmost occurrence at or after the start position, or `None` when there is none from there on |
| `PyStr.Find` | app.py:136 | the result is the leftmost occurrence of the needle, or `None` when it occurs nowhere |
| `PyStr.Contains` | app.py:231 | `sub in s` holds exactly when `sub` occurs at some position of `s` |
| `PyStr.FindIsFirst` | app.py:136 | the leftmost occurrence is unique, so `find` returns it |
| `PyStr.ContainsTransitive` | app.py:199-201 | a string holding `mid` holds everything `mid` holds |
| `PyStr.OccursAtChar` | app.py:199 | a one-character needle occurs at `k` exactly when `s[k]` is that character |
| `PyStr.Split` | app.py:136 | `split(sep)` always gives at least one piece; `SplitAtFirst` with `FindIsFirst` fixes every piece; `JoinSplit`, `SplitPiecesAreFree`, `FirstPiece` and `SecondPiece` state what the pieces are |
| `PyStr.SplitCount` | app.py:136 | `split(sep)` gives two or more pieces exactly when `sep` occurs |
| `PyStr.JoinSplit` | app.py:136 | joining the pieces of `split(sep)` with `sep` gives the original string back |
| `PyStr.SplitPiecesAreFree` | app.py:198 | no piece of `split(sep)` contains `sep` |
| `PyStr.FirstPiece` | app.py:137 | `split(sep)[0]` is the text before the leftmost `sep`, or the whole string |
| `PyStr.SplitAtFirst` | app.py:136 | the split is the text before the leftmost separator followed by the pieces of what comes after it |
| `PyStr.SecondPiece` | app.py:138 | `split(sep)[1]` is the text between the first `sep` and the next one, or the end |
| `PyStr.Replace` | app.py:137 | a replacement no longer than the pattern never lengthens the string, and one no shorter never shortens it |
| `PyStr.ReplaceAbsent` | app.py:137 | a string without the pattern is left unchanged |
| `PyStr.ReplaceIsJoinOfSplit` | app.py:137 | `replace(pat, rep)` equals splitting on `pat` and joining with `rep` |
| `PyStr.LStripSpec` | app.py:138 | left stripping drops exactly the longest prefix of characters in the set |
| `PyStr.RStripSpec` | app.py:138 | right stripping drops exactly the longest suffix of characters in the set |
| `PyStr.StripChars` | app.py:138 | `strip(chars)` keeps the window of `s` outside which every character is in `chars` and whose two ends are not |
| `PyStr.Strip` | app.py:137-138 | `strip()` keeps the window of `s` between its first and last non-whitespace character, so the result neither starts nor ends with whitespace |
| `PyStr.StripCharsEmpty` | app.py:138 | a stripped string is empty exactly when every character is in the set |
| `PyStr.StripCharsIdempotent` | app.py:138 | stripping a stripped string changes nothing |
| `PyStr.Truncate` | app.py:92 | `s[:n]` is a prefix of `s` of length at most `n`, all of `s` when it is shorter, else exactly `n` long |
| `Subseq.Selected` | app.py:138 | the kept positions are increasing, each passes the test, and every passing position is kept |
| `Subseq.SelectedSnoc` | app.py:145-146 | appending one element adds at most its own position to the selection |
| `Routing.Classify` | app.py:231 | a link takes the video path exactly when one of the three markers occurs in it; otherwise the article path |
| `Routing.VideoLinkInContext` | app.py:231 | any text around a video link leaves it a video link |
| `Routing.NewsLinkMentioningShorts` | app.py:231 | a misrouting the substring test allows: a news link whose path mentions `shorts` takes the video path |
| `Routing.Dispatch` | app.py:222-243 | no link asks for one; a missing model or search key stops; otherwise the route decides; a video link is analysed, with the key `RapidKey` takes (app.py:233-236: the `RAPIDAPI_KEY` secret, or else the handler's key field), exactly when that key is non-empty, and asks for the key exactly when it is empty |
| `Routing.VideoNeedsSecret` | app.py:232-239 | without the `RAPIDAPI_KEY` secret and with the handler's key field still empty, no link is analysed as a video |
| `Extraction.NonBlankHasVisibleChar` | app.py:138 | `NonBlank`, the test `if c.strip()`, holds exactly when the line has a character that is not whitespace |
| `Extraction.CleanClaim` | app.py:138 | `c.strip("- ").strip()` neither starts nor ends with whitespace and is no longer than the line |
| `Extraction.CleanClaims` | app.py:138 | one cleaned claim per non-blank line, in line order, and as many claims as non-blank lines |
| `Extraction.CleanClaimsStep` | app.py:138 | one more line adds its cleaned text after the others when it is non-blank, and nothing otherwise |
| `Extraction.SplitAnalysis` | app.py:135-140 | with either marker missing the whole reply is the summary and there are no claims; with both, the summary and every claim neither start nor end with whitespace |
| `Extraction.ClaimsPieces` | app.py:136 | piece 0 of the split on `CLAIMS:` is the text before the first marker; piece 1 runs up to the second marker or the end |
| `Extraction.SplitWithBothMarkers` | app.py:135-138 | with both markers, the summary is the text before the first `CLAIMS:` with `SUMMARY:` removed and stripped; the claims come only from the text between the first and second `CLAIMS:` |
| `Extraction.SplitWithoutMarker` | app.py:139-140 | with either marker missing, the summary is the whole reply and there are no claims |
| `Extraction.ClaimsAreCleanedNonBlankLines` | app.py:138 | the claim list has one element per non-blank line of the claims piece, each stripped of `-`/space and then of whitespace, in order |
| `Extraction.DashLineIsEmptyClaim` | app.py:138 | a line of dashes and spaces is kept and becomes an empty claim |
| `FactCheck.ColorClass` | app.py:159 | the class is `fact-true` exactly when the verdict contains `사실`, and `fact-check` otherwise |
| `FactCheck.Evidence` | app.py:148-152 | the evidence is the search result's text, or `검색 결과 없음` when the search raised |
| `FactCheck.RowFor` | app.py:148-160 | a box shows its claim, the search text or the fallback as evidence, the judge's verdict on that claim and that evidence, and `fact-true` exactly when the verdict contains `사실` |
| `FactCheck.CheckClaims` | app.py:145-160 | one box per claim of at least five characters, in order; the evidence is the search text or `검색 결과 없음`; the verdict is the judge's on claim and evidence; the class follows the verdict |
| `FactCheck.ReportsOnSnoc` | app.py:145-160 | one more claim adds its box after the others when it has at least five characters, and nothing otherwise |
| `FactCheck.ReportedRowsAreChecked` | app.py:145-160 | every box of a report is for a claim of at least five characters, and is green exactly when its verdict contains `사실` |
| `FactCheck.ReportCoversLongClaims` | app.py:145-146 | a claim gets a box exactly when it has at least five characters, the `Checkable` test that negates `len(claim) < 5` |
| `Bias.Field` | app.py:199-201 | `line.split(":")[1].strip()` is the stripped text between the line's first and second colon, so it holds no colon |
| `Bias.SecondColonPiece` | app.py:199 | `split(":")[1]` exists on a line with a colon and is the text between its first and second colon, or the end |
| `Bias.FieldSegment` | app.py:199 | stripping that piece leaves no colon |
| `Bias.MarkersHaveColon` | app.py:199-201 | a line mentioning any marker holds a colon, so `split(":")[1]` never fails |
| `Bias.LastValue` | app.py:194-201 | a scanned field is its default or holds no colon |
| `Bias.LastValueSource` | app.py:194-201 | a scanned field is its default or the value of some line that mentions its marker |
| `Bias.LastValueDefault` | app.py:194-201 | a field keeps its default when no line mentions its marker |
| `Bias.LastValueLastMatch` | app.py:194-201 | the last line mentioning a marker decides that field |
| `Bias.OneLineSetsEveryMarkedField` | app.py:199-201 | one line mentioning several markers gives all those fields the same value, unless a later line mentions them |
| `Bias.ScanBias` | app.py:194-201 | each of the three fields ends as the value from the last line mentioning its marker, or its default (`N/A`, `분석 실패`, the title) |
| `Fetch.ReadBody` | app.py:88-95 | a body that is not JSON, or a `transcript` lookup that raises, is an error with that message; otherwise the result is a prefix of at most 15000 characters of `BodyText`, the transcript entry, or the printed body `str(data)` when there is none (app.py:91-95), all of it when it is shorter, else exactly 15000 long |
| `Fetch.GetTranscript` | app.py:58-95 | one `ko` request, `FirstRequest`: the endpoint, the `Headers` with the key and the service host, and the `url`, `flat_text=true` and `lang=ko` parameters (app.py:60-73); a second, `en`, request exactly when the first answers without raising and not with 200; an error with the message when a request raises, with the status and text when the second answer is not 200 either; otherwise what `ReadBody` makes of the 200 body |
| `Fetch.ReadArticle` | app.py:166-174 | the loader failing, or returning no document, is an error; otherwise the body is a prefix of the first page of at most 10000 characters, and the title is the metadata title or `제목 없음` |
| `Pipeline.AnalyzeYoutube` | app.py:100-160 | a failed fetch stops the analysis; otherwise the summary and the fact boxes are those of the reply to the fetched text |
| `Pipeline.AnalyzeArticle` | app.py:165-204 | a failed load stops the analysis; otherwise score, framing and keyword are scanned from the reply to the title and the truncated body |

## Left out

- Rendering: page setup, CSS, sidebar, spinners and the HTML of every result box, warning and error message. These are presentation only.
- Routing.Dispatch: the model and search keys enter as plain strings; how the sidebar obtains them is not modelled.
- Routing.Dispatch: the transcript-service key is taken as the handler takes it (app.py:233-236), the `RAPIDAPI_KEY` secret or else a key field the handler itself creates. The sidebar's own field `rapid_api_key` (app.py:43-46) is never read by the handler, so it is not a parameter.
- Routing.Dispatch: Streamlit's re-run model is not modelled. The handler's key field is created on the run in which the button is pressed, so by those semantics it is empty there and a video link is only analysed when the secret is set. `Dispatch` still takes the field's text as a parameter; `Routing.VideoNeedsSecret` states the case of an empty field.
- The prompt texts and how they are formatted. Each language-model call is a function of the values put into its prompt, so two equal prompts get equal replies.
- The search service is a function of the claim, so two equal claims get equal search results; the real service need not repeat itself.
- `llm.invoke` raising. The application does not catch it; the model's calls always return a string.
- The search for the article keyword and the missing-context reply that follows (app.py:203-204). The search result only feeds the missing-context prompt, whose reply is only shown; `Pipeline.AnalyzeArticle` returns the keyword that is searched for. A search that raises there is not caught by the application and is not modelled.
- `str(data)` and `str(search_res)`. The decoded body is seen only through its `transcript` lookup (absent, a string, or raising) and an opaque printed form; search results arrive already as text. A `transcript` entry that is not a string is not modelled.
- Fetch.GetTranscript: the exception messages are opaque strings given by the services, and the failure of both attempts is kept as its two parts, the status and the response text, not as the formatted string.
- Fetch.ReadArticle: the error text is the message of whatever the loader raised; an empty document list gives Python's `list index out of range`.
- Concurrency, and requests that hang: `requests.get` is called without a time-out, and only a call that returns or raises is modelled.
