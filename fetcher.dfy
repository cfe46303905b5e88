/**
 * The comment fetcher: `get_comments` in app.py, which drains the
 * cursor-paginated `commentThreads.list` endpoint.
 *
 * The remote service is a script of replies: the k-th request made gets
 * `replies[k]`, which is either a response page or the error that
 * `execute()` raised. The method returns the requests it made, so what it
 * sends (and in particular the page token it threads from one reply to the
 * next request) can be stated.
 */
module Fetcher {
  import opened Wrappers
  import opened Comments

  /** What the k-th `execute()` produced. */
  type Reply = Result<Response, Error>

  /** The arguments of one `commentThreads().list(...)` call. */
  datatype Request = Request(part: string, videoId: string, maxResults: nat, pageToken: Option<string>)

  const Part: string := "snippet"
  /** The largest page the service allows. */
  const MaxResults: nat := 100

  /** The request made with the current `nextPageToken`. */
  function RequestFor(videoId: string, pageToken: Option<string>): Request {
    Request(Part, videoId, MaxResults, pageToken)
  }

  /** Python truthiness of the token: absent (`None`) and `""` are both false. */
  predicate Truthy(token: Option<string>) {
    token.Some? && token.value != ""
  }

  /** `response.get("items", [])`. */
  function ItemsOf(response: Response): seq<Item> {
    response.items.GetOr([])
  }

  /** `item["snippet"]["topLevelComment"]["snippet"]`, raising `KeyError` on the first absent key. */
  function CommentSnippetOf(item: Item): (r: Result<CommentSnippet, Error>)
    ensures r.Success? <==> && item.snippet.Some?
                            && item.snippet.value.topLevelComment.Some?
                            && item.snippet.value.topLevelComment.value.snippet.Some?
    ensures r.Success? ==> r.value == item.snippet.value.topLevelComment.value.snippet.value
    ensures r.Failure? ==> r.error.KeyError?
  {
    match item.snippet
    case None => Failure(KeyError("snippet"))
    case Some(thread) =>
      match thread.topLevelComment
      case None => Failure(KeyError("topLevelComment"))
      case Some(top) =>
        match top.snippet
        case None => Failure(KeyError("snippet"))
        case Some(snippet) => Success(snippet)
  }

  /** The record built from a comment snippet: `textDisplay` and `likeCount`, `None` when missing. */
  function ToComment(snippet: CommentSnippet): Comment {
    Comment(snippet.textDisplay, snippet.likeCount)
  }

  /** `prefix` followed by the result of `r`, or the error of `r`. */
  function Prepend(prefix: seq<Comment>, r: Result<seq<Comment>, Error>): Result<seq<Comment>, Error> {
    match r
    case Success(rest) => Success(prefix + rest)
    case Failure(e) => Failure(e)
  }

  lemma PrependNothing(r: Result<seq<Comment>, Error>)
    ensures Prepend([], r) == r
  {
    if r.Success? { assert [] + r.value == r.value; }
  }

  lemma PrependTwice(a: seq<Comment>, b: seq<Comment>, r: Result<seq<Comment>, Error>)
    ensures Prepend(a, Prepend(b, r)) == Prepend(a + b, r)
  {
    if r.Success? { assert a + (b + r.value) == (a + b) + r.value; }
  }

  /** The item `j` is the first one whose nested snippet is missing. */
  ghost predicate FirstBadItem(items: seq<Item>, j: int) {
    0 <= j < |items| && CommentSnippetOf(items[j]).Failure?
    && forall k :: 0 <= k < j ==> CommentSnippetOf(items[k]).Success?
  }

  /** The records of one page's items, in item order, or the `KeyError` of the first malformed item. */
  function MapItems(items: seq<Item>): Result<seq<Comment>, Error> {
    if items == [] then Success([])
    else
      match CommentSnippetOf(items[0])
      case Failure(e) => Failure(e)
      case Success(snippet) => Prepend([ToComment(snippet)], MapItems(items[1..]))
  }

  /**
   * A page's items map to records exactly when every item has its nested
   * snippet; then there is one record per item, in item order, holding that
   * item's `textDisplay` and `likeCount`. Otherwise the error is the one
   * the first malformed item raises.
   */
  lemma {:induction false} MapItemsMeaning(items: seq<Item>)
    ensures MapItems(items).Success? <==> forall j :: 0 <= j < |items| ==> CommentSnippetOf(items[j]).Success?
    ensures MapItems(items).Success? ==> |MapItems(items).value| == |items|
    ensures MapItems(items).Success? ==>
              forall j :: 0 <= j < |items| ==> MapItems(items).value[j] == ToComment(CommentSnippetOf(items[j]).value)
    ensures MapItems(items).Failure? ==>
              exists j :: FirstBadItem(items, j) && CommentSnippetOf(items[j]).error == MapItems(items).error
  {
    if items != [] {
      MapItemsMeaning(items[1..]);
      if CommentSnippetOf(items[0]).Failure? {
        assert FirstBadItem(items, 0);
      } else if MapItems(items[1..]).Failure? {
        assert forall j :: FirstBadItem(items[1..], j) ==> FirstBadItem(items, j + 1);
      } else {
        assert forall j :: 1 <= j < |items| ==> items[j] == items[1..][j - 1];
      }
    }
  }

  /** The drain stops after this reply: it raised, one of its items raised, or its token is falsy. */
  predicate Ends(reply: Reply) {
    reply.Failure? || MapItems(ItemsOf(reply.value)).Failure? || !Truthy(reply.value.nextPageToken)
  }

  /** Some reply from index `i` on stops the drain: without one the loop never ends. */
  ghost predicate EndsWithin(replies: seq<Reply>, i: nat) {
    exists k :: i <= k < |replies| && Ends(replies[k])
  }

  lemma EndsLater(replies: seq<Reply>, i: nat)
    requires EndsWithin(replies, i) && i < |replies| && !Ends(replies[i])
    ensures EndsWithin(replies, i + 1)
  {
  }

  /** One page that does not stop the drain: its records come first, then the rest of the drain. */
  lemma CollectStep(replies: seq<Reply>, i: nat)
    requires EndsWithin(replies, i) && i < |replies| && !Ends(replies[i])
    ensures EndsWithin(replies, i + 1)
    ensures Collect(replies, i) == Prepend(MapItems(ItemsOf(replies[i].value)).value, Collect(replies, i + 1))
  {
    EndsLater(replies, i);
  }

  /** A reply that does not stop the drain is followed by a request carrying its token. */
  lemma RequestsStep(videoId: string, replies: seq<Reply>, i: nat, token: Option<string>)
    requires EndsWithin(replies, i) && i < |replies| && !Ends(replies[i])
    ensures EndsWithin(replies, i + 1)
    ensures Requests(videoId, replies, i, token)
         == [RequestFor(videoId, token)] + Requests(videoId, replies, i + 1, replies[i].value.nextPageToken)
  {
  }

  /** A reply that stops the drain is answered by its own request only. */
  lemma DrainStops(videoId: string, replies: seq<Reply>, i: nat, token: Option<string>)
    requires EndsWithin(replies, i) && i < |replies| && Ends(replies[i])
    ensures Requests(videoId, replies, i, token) == [RequestFor(videoId, token)]
    ensures Collect(replies, i) == if replies[i].Failure? then Failure(replies[i].error)
                                   else MapItems(ItemsOf(replies[i].value))
  {
  }

  /** The index of the last request the drain makes when it starts at request `i`. */
  function StopIndex(replies: seq<Reply>, i: nat): (s: nat)
    requires EndsWithin(replies, i)
    ensures i <= s < |replies| && Ends(replies[s])
    ensures forall k :: i <= k < s ==> !Ends(replies[k])
    decreases |replies| - i
  {
    if Ends(replies[i]) then i else StopIndex(replies, i + 1)
  }

  /** What the drain returns when its next request is number `i`. */
  function Collect(replies: seq<Reply>, i: nat): Result<seq<Comment>, Error>
    requires EndsWithin(replies, i)
    decreases |replies| - i
  {
    assert i < |replies|;
    match replies[i]
    case Failure(e) => Failure(e)
    case Success(response) =>
      match MapItems(ItemsOf(response))
      case Failure(e) => Failure(e)
      case Success(page) =>
        if !Truthy(response.nextPageToken) then Success(page)
        else Prepend(page, Collect(replies, i + 1))
  }

  /** The requests the drain makes when its next request is number `i`, carrying `token`. */
  function Requests(videoId: string, replies: seq<Reply>, i: nat, token: Option<string>): seq<Request>
    requires EndsWithin(replies, i)
    decreases |replies| - i
  {
    assert i < |replies|;
    [RequestFor(videoId, token)]
    + if Ends(replies[i]) then [] else Requests(videoId, replies, i + 1, replies[i].value.nextPageToken)
  }

  /** The records part of the loop invariant of `GetComments` carries over a reply that does not stop the drain. */
  lemma CollectAdvances(replies: seq<Reply>, i: nat, comments: seq<Comment>)
    requires EndsWithin(replies, i) && i < |replies| && !Ends(replies[i])
    requires Collect(replies, 0) == Prepend(comments, Collect(replies, i))
    ensures EndsWithin(replies, i + 1)
    ensures Collect(replies, 0)
         == Prepend(comments + MapItems(ItemsOf(replies[i].value)).value, Collect(replies, i + 1))
  {
    CollectStep(replies, i);
    PrependTwice(comments, MapItems(ItemsOf(replies[i].value)).value, Collect(replies, i + 1));
  }

  /** The requests part of the loop invariant of `GetComments` carries over a reply that does not stop the drain. */
  lemma RequestsAdvance(videoId: string, replies: seq<Reply>, i: nat, token: Option<string>, sent: seq<Request>)
    requires EndsWithin(replies, i) && i < |replies| && !Ends(replies[i])
    requires Requests(videoId, replies, 0, None) == sent + Requests(videoId, replies, i, token)
    ensures EndsWithin(replies, i + 1)
    ensures Requests(videoId, replies, 0, None)
         == (sent + [RequestFor(videoId, token)]) + Requests(videoId, replies, i + 1, replies[i].value.nextPageToken)
  {
    RequestsStep(videoId, replies, i, token);
    var later := Requests(videoId, replies, i + 1, replies[i].value.nextPageToken);
    assert sent + ([RequestFor(videoId, token)] + later) == (sent + [RequestFor(videoId, token)]) + later;
  }

  /** Under the loop invariant of `GetComments`, a reply that stops the drain decides its outcome. */
  lemma DrainFinishes(videoId: string, replies: seq<Reply>, i: nat, token: Option<string>,
                      comments: seq<Comment>, sent: seq<Request>)
    requires EndsWithin(replies, i) && i < |replies| && Ends(replies[i])
    requires Collect(replies, 0) == Prepend(comments, Collect(replies, i))
    requires Requests(videoId, replies, 0, None) == sent + Requests(videoId, replies, i, token)
    ensures Requests(videoId, replies, 0, None) == sent + [RequestFor(videoId, token)]
    ensures Collect(replies, 0) == if replies[i].Failure? then Failure(replies[i].error)
                                   else Prepend(comments, MapItems(ItemsOf(replies[i].value)))
  {
    DrainStops(videoId, replies, i, token);
  }

  /**
   * The `for item in response.get("items", [])` loop of `get_comments`:
   * append one record per item to `comments`, or raise the `KeyError` of
   * the first item whose nested snippet is missing.
   */
  method AppendRecords(comments: seq<Comment>, items: seq<Item>) returns (r: Result<seq<Comment>, Error>)
    ensures r == Prepend(comments, MapItems(items))
  {
    var appended := comments;
    ghost var added := [];
    PrependNothing(MapItems(items));
    for j := 0 to |items|
      invariant appended == comments + added
      invariant MapItems(items) == Prepend(added, MapItems(items[j..]))
    {
      assert items[j..][1..] == items[j + 1..];
      var snippet := CommentSnippetOf(items[j]);
      if snippet.Failure? {
        return Failure(snippet.error);
      }
      PrependTwice(added, [ToComment(snippet.value)], MapItems(items[j + 1..]));
      appended := appended + [ToComment(snippet.value)];
      added := added + [ToComment(snippet.value)];
    }
    assert items[|items|..] == [] && added + [] == added;
    PrependTwice(comments, added, Success([]));
    r := Success(appended);
  }

  /**
   * `get_comments`: request pages until a reply without a (truthy)
   * `nextPageToken`, appending one record per item. Returns the outcome and
   * the requests made, in order.
   */
  method GetComments(videoId: string, replies: seq<Reply>) returns (result: Result<seq<Comment>, Error>, sent: seq<Request>)
    requires EndsWithin(replies, 0)
    ensures result == Collect(replies, 0)
    ensures sent == Requests(videoId, replies, 0, None)
  {
    var comments: seq<Comment> := [];
    var nextPageToken: Option<string> := None;
    var i := 0;
    sent := [];
    PrependNothing(Collect(replies, 0));
    while true
      invariant EndsWithin(replies, i)
      invariant Collect(replies, 0) == Prepend(comments, Collect(replies, i))
      invariant Requests(videoId, replies, 0, None) == sent + Requests(videoId, replies, i, nextPageToken)
      decreases |replies| - i
    {
      var reply := replies[i];
      if Ends(reply) {
        DrainFinishes(videoId, replies, i, nextPageToken, comments, sent);
      } else {
        CollectAdvances(replies, i, comments);
        RequestsAdvance(videoId, replies, i, nextPageToken, sent);
      }
      sent := sent + [RequestFor(videoId, nextPageToken)];
      if reply.Failure? {
        return Failure(reply.error), sent;
      }
      var response := reply.value;
      var appended := AppendRecords(comments, ItemsOf(response));
      if appended.Failure? {
        return appended, sent;
      }
      comments := appended.value;
      nextPageToken := response.nextPageToken;
      if !Truthy(nextPageToken) {
        break;
      }
      i := i + 1;
    }
    result := Success(comments);
  }

  /** The items of the pages `i` to `s`, in page order then item order. */
  ghost function ItemsBetween(replies: seq<Reply>, i: nat, s: nat): seq<Item>
    requires i <= s < |replies|
    requires forall k :: i <= k <= s ==> replies[k].Success?
    decreases s - i
  {
    ItemsOf(replies[i].value) + if i == s then [] else ItemsBetween(replies, i + 1, s)
  }

  /** Mapping two runs of items is mapping the first, then the second, stopping at the first error. */
  lemma {:induction false} MapItemsAppend(a: seq<Item>, b: seq<Item>)
    ensures MapItems(a + b) == match MapItems(a)
                               case Failure(e) => Failure(e)
                               case Success(x) => Prepend(x, MapItems(b))
  {
    if a == [] {
      assert a + b == b;
      PrependNothing(MapItems(b));
    } else {
      assert (a + b)[1..] == a[1..] + b;
      MapItemsAppend(a[1..], b);
      match MapItems(a[1..])
      case Failure(e) =>
      case Success(x) =>
        if CommentSnippetOf(a[0]).Success? {
          PrependTwice([ToComment(CommentSnippetOf(a[0]).value)], x, MapItems(b));
        }
    }
  }

  /** Every request before the stopping one got a page with a truthy token. */
  lemma PagesBeforeStop(replies: seq<Reply>, i: nat)
    requires EndsWithin(replies, i)
    ensures forall k :: i <= k < StopIndex(replies, i) ==> replies[k].Success? && Truthy(replies[k].value.nextPageToken)
  {
  }

  /** The stopping page: its own error, or the outcome of mapping its items. */
  lemma CollectAtStop(replies: seq<Reply>, i: nat)
    requires EndsWithin(replies, i) && i < |replies| && Ends(replies[i])
    ensures replies[i].Failure? ==> Collect(replies, i) == Failure(replies[i].error)
    ensures replies[i].Success? ==> Collect(replies, i) == MapItems(ItemsBetween(replies, i, i))
  {
    if replies[i].Success? {
      var here := ItemsOf(replies[i].value);
      assert ItemsBetween(replies, i, i) == here by {
        assert here + [] == here;
      }
    }
  }

  /**
   * The outcome of the drain from request `i`: the error of the last reply
   * if that reply failed; otherwise the records of all the items of every
   * page fetched, as one run (so an item missing its snippet on the last
   * page fails the whole drain). Nothing partial is ever returned.
   */
  lemma {:induction false} CollectCharacterised(replies: seq<Reply>, i: nat)
    requires EndsWithin(replies, i)
    ensures replies[StopIndex(replies, i)].Failure? ==> Collect(replies, i) == Failure(replies[StopIndex(replies, i)].error)
    ensures replies[StopIndex(replies, i)].Success? ==> Collect(replies, i) == MapItems(ItemsBetween(replies, i, StopIndex(replies, i)))
    decreases |replies| - i
  {
    var s := StopIndex(replies, i);
    if s == i {
      CollectAtStop(replies, i);
    } else {
      CollectStep(replies, i);
      assert StopIndex(replies, i + 1) == s;
      CollectCharacterised(replies, i + 1);
      if replies[s].Success? {
        var here := ItemsOf(replies[i].value);
        var rest := ItemsBetween(replies, i + 1, s);
        assert ItemsBetween(replies, i, s) == here + rest;
        MapItemsAppend(here, rest);
        calc {
          Collect(replies, i);
          Prepend(MapItems(here).value, Collect(replies, i + 1));
          Prepend(MapItems(here).value, MapItems(rest));
          MapItems(here + rest);
        }
      }
    }
  }

  /**
   * `get_comments` returns one record per item of every page it fetched, in
   * page order and item order, each holding that item's `textDisplay` and
   * `likeCount`; if it returns a list at all, no request failed.
   */
  lemma FetchedRecordsAreItems(replies: seq<Reply>)
    requires EndsWithin(replies, 0)
    requires Collect(replies, 0).Success?
    ensures var s := StopIndex(replies, 0);
            && (forall k :: 0 <= k <= s ==> replies[k].Success?)
            && var items := ItemsBetween(replies, 0, s);
            && |Collect(replies, 0).value| == |items|
            && forall j :: 0 <= j < |items| ==>
                 CommentSnippetOf(items[j]).Success? && Collect(replies, 0).value[j] == ToComment(CommentSnippetOf(items[j]).value)
  {
    PagesBeforeStop(replies, 0);
    CollectCharacterised(replies, 0);
    MapItemsMeaning(ItemsBetween(replies, 0, StopIndex(replies, 0)));
  }

  /**
   * A request that fails is the last one the drain makes, and the drain
   * fails with its error, keeping none of the records of the pages before it.
   */
  lemma FailedRequestFailsFetch(replies: seq<Reply>, k: nat)
    requires EndsWithin(replies, 0)
    requires k <= StopIndex(replies, 0) && replies[k].Failure?
    ensures k == StopIndex(replies, 0)
    ensures Collect(replies, 0) == Failure(replies[k].error)
  {
    PagesBeforeStop(replies, 0);
    CollectCharacterised(replies, 0);
  }

  /**
   * All or nothing: the drain returns a list exactly when every request it
   * made succeeded and every item of every page fetched has its snippet.
   */
  lemma FetchAllOrNothing(replies: seq<Reply>)
    requires EndsWithin(replies, 0)
    ensures var s := StopIndex(replies, 0);
            Collect(replies, 0).Success? <==>
              && (forall k :: 0 <= k <= s ==> replies[k].Success?)
              && var items := ItemsBetween(replies, 0, s);
                 forall j :: 0 <= j < |items| ==> CommentSnippetOf(items[j]).Success?
  {
    var s := StopIndex(replies, 0);
    if forall k :: 0 <= k <= s ==> replies[k].Success? {
      var items := ItemsBetween(replies, 0, s);
      CollectCharacterised(replies, 0);
      assert Collect(replies, 0) == MapItems(items);
      MapItemsMeaning(items);
    } else {
      var k :| 0 <= k <= s && replies[k].Failure?;
      FailedRequestFailsFetch(replies, k);
    }
  }

  /** The number of requests from request `i`, and the fields every one of them shares. */
  lemma {:induction false} RequestsShape(videoId: string, replies: seq<Reply>, i: nat, token: Option<string>)
    requires EndsWithin(replies, i)
    ensures var sent := Requests(videoId, replies, i, token);
            && |sent| == StopIndex(replies, i) - i + 1
            && sent[0].pageToken == token
            && forall k :: 0 <= k < |sent| ==> sent[k].videoId == videoId && sent[k].part == Part && sent[k].maxResults == MaxResults
    decreases |replies| - i
  {
    if !Ends(replies[i]) {
      var next := replies[i].value.nextPageToken;
      RequestsStep(videoId, replies, i, token);
      RequestsShape(videoId, replies, i + 1, next);
      assert StopIndex(replies, i) == StopIndex(replies, i + 1);
    }
  }

  /** From request `i` on, each request after the first carries the token of the reply before it. */
  lemma {:induction false} RequestsTokens(videoId: string, replies: seq<Reply>, i: nat, token: Option<string>)
    requires EndsWithin(replies, i)
    ensures var sent := Requests(videoId, replies, i, token);
            forall k :: 0 < k < |sent| ==>
              && i + k - 1 < |replies|
              && replies[i + k - 1].Success? && Truthy(replies[i + k - 1].value.nextPageToken)
              && sent[k].pageToken == replies[i + k - 1].value.nextPageToken
    decreases |replies| - i
  {
    if !Ends(replies[i]) {
      var next := replies[i].value.nextPageToken;
      RequestsStep(videoId, replies, i, token);
      RequestsShape(videoId, replies, i + 1, next);
      RequestsTokens(videoId, replies, i + 1, next);
      var rest := Requests(videoId, replies, i + 1, next);
      assert forall k :: 0 < k <= |rest| ==> ([RequestFor(videoId, token)] + rest)[k] == rest[k - 1];
    } else {
      DrainStops(videoId, replies, i, token);
    }
  }

  /**
   * The requests of a drain from request `i` whose first request carries
   * `token`: one per reply up to the stopping one; each asks for the same
   * video's snippets, 100 at a time; each later request carries the token
   * of the reply before it.
   */
  lemma RequestsThreadTokens(videoId: string, replies: seq<Reply>, i: nat, token: Option<string>)
    requires EndsWithin(replies, i)
    ensures var sent := Requests(videoId, replies, i, token);
            && |sent| == StopIndex(replies, i) - i + 1
            && sent[0].pageToken == token
            && (forall k :: 0 <= k < |sent| ==> sent[k].videoId == videoId && sent[k].part == Part && sent[k].maxResults == MaxResults)
            && (forall k :: 0 < k < |sent| ==>
                  && replies[i + k - 1].Success? && Truthy(replies[i + k - 1].value.nextPageToken)
                  && sent[k].pageToken == replies[i + k - 1].value.nextPageToken)
  {
    RequestsShape(videoId, replies, i, token);
    RequestsTokens(videoId, replies, i, token);
  }

  /**
   * `get_comments` makes its first request without a token, and each later
   * one with the token of the reply before it; it stops after the first
   * reply that fails or has no truthy token.
   */
  lemma GetCommentsRequests(videoId: string, replies: seq<Reply>)
    requires EndsWithin(replies, 0)
    ensures var sent := Requests(videoId, replies, 0, None);
            && |sent| == StopIndex(replies, 0) + 1
            && sent[0].pageToken == None
            && forall k :: 0 < k < |sent| ==>
                 sent[k].pageToken == replies[k - 1].value.nextPageToken && Truthy(sent[k].pageToken)
  {
    RequestsThreadTokens(videoId, replies, 0, None);
  }

  /** A page without an `items` key adds no records, and the drain goes on with its token. */
  lemma PageWithoutItems(videoId: string, replies: seq<Reply>, i: nat, token: Option<string>)
    requires EndsWithin(replies, i)
    requires replies[i].Success? && replies[i].value.items.None? && Truthy(replies[i].value.nextPageToken)
    ensures EndsWithin(replies, i + 1)
    ensures Collect(replies, i) == Collect(replies, i + 1)
    ensures Requests(videoId, replies, i, token)
            == [RequestFor(videoId, token)] + Requests(videoId, replies, i + 1, replies[i].value.nextPageToken)
  {
    EndsLater(replies, i);
    PrependNothing(Collect(replies, i + 1));
  }
}
