/**
 * The values app.py passes between its steps: the parts of a
 * `commentThreads.list` response that `get_comments` reads, the
 * `{text, like_count}` record it builds per comment, and the errors that can
 * abort the pipeline.
 */
module Comments {
  import opened Wrappers

  /** `item["snippet"]["topLevelComment"]["snippet"]`: the two keys read with `.get`. */
  datatype CommentSnippet = CommentSnippet(textDisplay: Option<string>, likeCount: Option<nat>)

  /** `item["snippet"]["topLevelComment"]`; `snippet` is `None` when the key is absent. */
  datatype TopLevelComment = TopLevelComment(snippet: Option<CommentSnippet>)

  /** `item["snippet"]`; `topLevelComment` is `None` when the key is absent. */
  datatype ThreadSnippet = ThreadSnippet(topLevelComment: Option<TopLevelComment>)

  /** One entry of a response's `items`; `snippet` is `None` when the key is absent. */
  datatype Item = Item(snippet: Option<ThreadSnippet>)

  /** One page of the listing: the optional `items` and `nextPageToken` keys. */
  datatype Response = Response(items: Option<seq<Item>>, nextPageToken: Option<string>)

  /** The record `{"text": ..., "like_count": ...}` appended per item. */
  datatype Comment = Comment(text: Option<string>, likeCount: Option<nat>)

  /** Why a step raised instead of returning. */
  datatype Error =
    | RemoteApiError(reason: string)  // the service rejected a request (HttpError)
    | TransportError(reason: string)  // the request did not reach the service
    | KeyError(key: string)           // a subscript `[...]` found no such key
    | TypeError                       // `<` between `None` and a count, or two `None`s
}
