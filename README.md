# YouTube comment downloader: a Dafny model of its core

`app.py` is a small Streamlit app. It takes a YouTube video URL and extracts the
11-character video id. It then drains the YouTube Data API's paginated
`commentThreads.list` endpoint into `{text, like_count}` records. It sorts the
records by like count, highest first, and lays them out as a `.docx` document
with three paragraphs per comment.

This project models those four steps and proves what each one guarantees:

- `VideoId` (`video_id.dfy`) covers `extract_video_id`. `MatchesAt` states when
  the pattern `(?:v=|\/)([0-9A-Za-z_-]{11}).*` matches at a position. A
  character-level scanner (`IdRunLength`, `MatchGroupAt`, `Search`) plays the
  regex engine. The lemmas prove that the scanner returns group 1 of the
  leftmost match, and `None` exactly when there is no match.
- `Comments` (`comments.dfy`) holds the data: the parts of an API response that
  are read, the per-comment record, and the errors that can abort the run.
- `Fetcher` (`fetcher.dfy`) covers `get_comments`. The remote service is a
  script of replies: request number k gets `replies[k]`, which is either a page
  or the error that `execute()` raised. The method `GetComments` keeps the
  source's `while True` loop. It returns the outcome and the list of requests it
  made. It is proved equal to the reference functions `Collect` and
  `Requests`. The lemmas about those functions cover record order and contents,
  the request count, token threading, and all-or-nothing failure.
- `Ordering` (`ordering.dfy`) covers `sorted(..., key=like_count,
  reverse=True)` at line 83. This is a stable sort into non-increasing like
  counts. A missing count raises `TypeError`.
- `Document` (`document.dfy`) covers `create_docx` up to the encoding. A
  `Document` class holds the paragraph list, which `AddParagraph` extends. The
  method `CreateDocx` is proved to write three paragraphs per comment, in order.
- `Wrappers` (`wrappers.dfy`) holds `Option` and `Result`.

Two behaviours of the code that a reader may not expect; the model follows the code:

- A run of 12 or more id characters after `v=` or `/` is not rejected. The
  `.*` after the group imposes nothing, so the first 11 characters are returned
  (`VideoId.LongRunYieldsFirstEleven`). The same holds for any path segment of
  at least 11 id characters. For example, `/attribution_link?...` yields
  `attribution`.
- Comments without a `likeCount` get no tie-break. With two or more records,
  the sort raises `TypeError` (`Ordering.SortByLikesCorrect`). Error handling
  at line 94 then shows that error instead of offering a document.

## Model

| member | source | states |
|---|---|---|
| VideoId.IdRunLength | app.py:14 | The `{11}` quantifier: it counts at most `cap` class characters from `j`, all of them in the class, and stops short of `cap` only at the end of the URL or at a character outside `[0-9A-Za-z_-]` |
| VideoId.FullRunIsId | app.py:14 | The counted run reaches 11 exactly when eleven characters of the class follow `j` |
| VideoId.GroupStart | app.py:14-17 | Group 1 of a match begins right after its `/` or its `v=` and holds eleven class characters inside the URL |
| VideoId.MatchGroupAt | app.py:14-15 | One attempt of the engine at position `i` fails exactly when the pattern does not match there; otherwise it returns where group 1 begins |
| VideoId.NoRoomLeft | app.py:14-15 | No match starts at a position with fewer than twelve characters left |
| VideoId.Search | app.py:15 | `re.search` scan: `None` exactly when no position from `i` on matches; otherwise the first matching position from `i` on |
| VideoId.ExtractVideoId | app.py:10-18 | `None` exactly when no position matches. Otherwise the result is eleven class characters and is group 1 of the leftmost matching position |
| VideoId.ExtractLeftmost | app.py:14-17 | Conversely, if `m` is the leftmost matching position, the result is `Some` of the group at `m` |
| VideoId.IdFollowsMarker | app.py:14-17 | A returned id occurs in the URL, immediately after `v=` or `/` |
| VideoId.TrailingTextIgnored | app.py:14 | The trailing `.*` constrains nothing: appending any text to a URL that yields an id yields the same id |
| VideoId.LongRunYieldsFirstEleven | app.py:14-17 | A URL that starts with `/` or `v=` followed by eleven or more id characters yields the first eleven of them, whatever comes after |
| Fetcher.Truthy | app.py:47 | `not nextPageToken` is false exactly for a present, non-empty token: `None` and `""` both stop the loop |
| Fetcher.ItemsOf | app.py:37 | `response.get("items", [])`: the page's items, or no items when the key is absent |
| Fetcher.CommentSnippetOf | app.py:38 | The nested lookup succeeds exactly when `snippet`, `topLevelComment` and the inner `snippet` are all present, and then yields the inner snippet; otherwise it raises a `KeyError` |
| Fetcher.MapItems | app.py:37-44 | The records of a page's items, built one per item in order, or the first item's `KeyError`; its meaning is proved in `MapItemsMeaning` |
| Fetcher.Collect | app.py:28-50 | Reference definition of the drain's outcome from request `i`: a raised reply or an item `KeyError` ends it with that error; otherwise the page's records come first, and the drain ends after a page with a falsy token |
| Fetcher.Requests | app.py:26-48 | Reference definition of the requests made from request `i`: the request carrying the current token, then, unless that reply stops the drain, the requests carrying that reply's `nextPageToken` |
| Fetcher.MapItemsMeaning | app.py:37-44 | Mapping a page's items succeeds exactly when every item has `snippet.topLevelComment.snippet`. It then gives one record per item, in order, with that snippet's `textDisplay` and `likeCount`. Otherwise it fails with the `KeyError` of the first item missing a key |
| Fetcher.MapItemsAppend | app.py:37-44 | Mapping two runs of items is mapping the first and then the second; a `KeyError` in the first run stops before the second |
| Fetcher.StopIndex | app.py:35-48 | The last request made is the first one from `i` on whose reply raised, has an item missing a key, or has an absent or empty `nextPageToken` |
| Fetcher.AppendRecords | app.py:37-44 | The inner `for` loop appends the page's records to `comments`, or raises the first item's `KeyError` |
| Fetcher.GetComments | app.py:20-50 | The `while True` loop returns exactly the outcome `Collect(replies, 0)` and makes exactly the requests `Requests(videoId, replies, 0, None)`, in order |
| Fetcher.CollectCharacterised | app.py:28-50 | The drain's outcome is the error of the stopping reply if that reply raised. Otherwise it is the mapping of all items of every page fetched, in page order and item order |
| Fetcher.FetchedRecordsAreItems | app.py:37-44 | A successful drain fetched only successful pages. It returns one record per item of those pages, in order, holding that item's `textDisplay` and `likeCount` |
| Fetcher.FailedRequestFailsFetch | app.py:35 | A request that fails is the last one made, and the drain fails with its error, keeping no records from earlier pages |
| Fetcher.FetchAllOrNothing | app.py:35-48 | The drain returns a list exactly when every request it made succeeded and every item of every fetched page has its snippet |
| Fetcher.RequestsThreadTokens | app.py:26-48 | From request `i`: one request per reply up to the stopping one, each for `part="snippet"`, the same video and `maxResults=100`. The first carries the given token; each later one carries the (truthy) `nextPageToken` of the reply before it |
| Fetcher.GetCommentsRequests | app.py:26-48 | `get_comments` makes `StopIndex + 1` requests. The first has no page token, and each later one carries the truthy token of the previous reply |
| Fetcher.PageWithoutItems | app.py:37 | A page without an `items` key adds no records, and the drain continues with a request carrying that page's token |
| Ordering.SortByLikes | app.py:83 | The sort itself: fully counted records are sorted by `SortDescending`; a list of at most one record is returned as it is; two or more records with a missing count raise `TypeError`. Its guarantees are proved in `SortByLikesCorrect` |
| Ordering.Insert | app.py:83 | Inserting a record adds exactly that record (as a multiset) and keeps every count present |
| Ordering.SortDescending | app.py:83 | The sort of fully counted records returns a permutation of its input |
| Ordering.SortNonIncreasing | app.py:83 | The sorted records have non-increasing like counts |
| Ordering.SortKeepsOrderPerCount | app.py:83 | Stability: for every count, the records with that count appear in the same order as in the input |
| Ordering.SortByLikesCorrect | app.py:83 | The sort raises `TypeError` exactly when there are two or more records and one lacks a count. Otherwise it returns a permutation with non-increasing counts that keeps equal counts in input order |
| Ordering.SortIsTheStableOrder | app.py:83 | Any non-increasing order that keeps equal counts in input order is the one the sort returns |
| Ordering.MissingCountRaises | app.py:83 | Counts 5, missing, 20, 0 raise `TypeError`; no place is chosen for the missing count |
| Ordering.LoneRecordKept | app.py:83 | A single record is returned as it is, with or without a count |
| Document.DecimalDigits | app.py:58 | `str(n)` of a count: a non-empty string of decimal digits without a leading zero |
| Document.DecimalRoundTrip | app.py:58 | Reading the digits back gives the count again |
| Document.ShowCount | app.py:58 | The f-string rendering of a like count: its decimal digits, or `None` when the count is missing |
| Document.LikesLine | app.py:58 | The first paragraph of a block: `Likes: ` followed by the rendered count |
| Document.ParagraphText | app.py:59 | The second paragraph of a block: the comment's text, or an empty paragraph when the text is missing |
| Document.Block | app.py:58-60 | The three paragraphs of one comment: likes line, text, forty `-` characters |
| Document.Document.constructor | app.py:56 | `docx.Document()` starts with no paragraphs |
| Document.Document.AddParagraph | app.py:58-60 | `add_paragraph` appends one paragraph at the end and changes nothing else |
| Document.LayoutShape | app.py:57-60 | The layout of `n` comments has `3n` paragraphs. For comment `k` they are `Likes: <count>`, its text, then forty `-` characters |
| Document.CreateDocx | app.py:52-60 | `create_docx` writes exactly `3n` paragraphs. Paragraphs `3k`, `3k+1` and `3k+2` are comment `k`'s likes line, text and separator; an empty input gives none |

## Left out

- The Streamlit interface and the top-level control flow (app.py:66-95). These
  are presentation only.
- Turning exceptions into the error message (app.py:94-95). The model returns
  the `Error` instead.
- The secrets lookup (app.py:8) and the `api_key` parameter. They are ambient
  configuration that the model does not need.
- The Google API client: `build`, `commentThreads().list` and `execute()`
  (app.py:25, 29-35). This is network I/O through a library outside the model.
  The script of replies stands in for it, and the `Request` values record what
  each call would send.
- The `.docx` encoding: `doc.save`, `io.BytesIO` and `getvalue()`
  (app.py:62-64). This belongs to a foreign library. The model stops at the
  list of paragraph texts.
- Fetcher.GetComments: requires that some reply stops the drain. A service
  that always returns a truthy token makes the source loop forever, and that
  case is not modelled.
- Document.ParagraphText: assumes the documented python-docx behaviour that a
  `None` text adds an empty paragraph.
- Counts are natural numbers and texts are strings. Other JSON types in
  `likeCount` or `textDisplay` are not modelled.
- The response shape is fixed by the datatypes: `items` is a list,
  `nextPageToken` a string, and the nested snippets are objects. A present
  `"items": null`, which raises `TypeError` at app.py:37, or any other
  malformed shape cannot be expressed.
- Document.CreateDocx: never fails. python-docx's `add_paragraph` raises
  `ValueError` for text holding NUL or other control characters (app.py:59),
  and that failure is not modelled.
- The character class is ASCII only, because `re` is used without flags.
  Unicode case folding does not arise.
