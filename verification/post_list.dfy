/**
 * The state of the `PostList` component: the list of posts and the text of
 * the title field, and the handlers that replace them. The network is not
 * modelled: each request's outcome is a parameter of the handler that makes
 * it, and the handler returns the request body it would send.
 */
module PostListState {
  import opened JsStrings
  import opened ArraySort
  import opened PostSort

  datatype Option<T> = None | Some(value: T)

  /**
   * The value of `data.records` after parsing the body of a GET reply:
   * `Some` for an array of posts, `None` when the field is missing or falsy.
   */
  type Records = Option<seq<Post>>

  /** The body of a GET reply as `response.json()` would treat it. */
  datatype Body =
    | Malformed            // `json()` rejects, or the parsed body is `null`
    | Parsed(records: Records)

  /** What `fetch` for the GET request settles to. */
  datatype GetReply =
    | GetFailed            // the request throws
    | GetAnswered(ok: bool, body: Body)

  /** What `fetch` for the POST request settles to. */
  datatype PostReply =
    | PostFailed           // the request throws
    | PostAnswered(status: int)

  /** The JSON body of the POST request. */
  datatype NewPost = NewPost(title: JsString, content: JsString)

  /** The status code that the POST handler treats as "nothing to do". */
  const SkipStatus: int := 200

  /** The content every new post is created with. */
  const NewContent: JsString := FromLiteral("New content created")

  /**
   * The list `reloadPost` passes to `setPosts`, or `None` when it returns
   * without calling it (a failed request, a reply that is not ok, or a body
   * that cannot be read).
   */
  function Loaded(reply: GetReply): (r: Option<seq<Post>>)
    ensures r.Some? <==> reply.GetAnswered? && reply.ok && reply.body.Parsed?
    ensures r.Some? && reply.body.records.Some? ==> r.value == reply.body.records.value
    ensures r.Some? && reply.body.records.None? ==> r.value == []
  {
    match reply
    case GetFailed => None
    case GetAnswered(ok, body) =>
      if !ok then None
      else match body
        case Malformed => None
        case Parsed(records) => Some(if records.Some? then records.value else [])
  }

  /**
   * Whether `addPost`, with this title in the field, goes on to reload after
   * the POST settles: never for an empty title, a failed request or status
   * 200, always otherwise.
   */
  predicate ReloadsAfterPost(title: JsString, reply: PostReply): (r: bool)
    ensures title == [] ==> !r
    ensures reply.PostFailed? ==> !r
    ensures reply.PostAnswered? && reply.status == SkipStatus ==> !r
    ensures title != [] && reply.PostAnswered? && reply.status != SkipStatus ==> r
  {
    title != [] && reply.PostAnswered? && reply.status != SkipStatus
  }

  class PostList {
    var posts: array<Post>
    var titleInput: JsString

    /** Mounting: both fields start empty, then the effect runs `reloadPost` once. */
    constructor (mountReply: GetReply)
      ensures titleInput == []
      ensures Loaded(mountReply).None? ==> posts[..] == []
      ensures Loaded(mountReply).Some? ==> posts[..] == Loaded(mountReply).value
    {
      posts := new Post[0];
      titleInput := [];
      new;
      ReloadPost(mountReply);
    }

    /**
     * `reloadPost`: a failed request, a reply that is not ok or an unreadable
     * body leaves `posts` as it is; an ok reply replaces it with `records`, or
     * with an empty list when `records` is missing or falsy.
     */
    method ReloadPost(reply: GetReply)
      modifies this
      ensures titleInput == old(titleInput)
      ensures reply.GetFailed? ==> posts == old(posts)
      ensures reply.GetAnswered? && !reply.ok ==> posts == old(posts)
      ensures reply.GetAnswered? && reply.ok && reply.body.Malformed? ==> posts == old(posts)
      ensures reply.GetAnswered? && reply.ok && reply.body.Parsed? ==>
        fresh(posts) &&
        posts[..] == (if reply.body.records.Some? then reply.body.records.value else [])
    {
      var loaded := Loaded(reply);
      if loaded.Some? {
        var list := loaded.value;
        posts := new Post[|list|](i requires 0 <= i < |list| => list[i]);
      }
    }

    /** The text field's `onChange`: the field now holds `text`. */
    method EditTitle(text: JsString)
      modifies this
      ensures titleInput == text
      ensures posts == old(posts)
    {
      titleInput := text;
    }

    /**
     * `addPost`: with an empty title field nothing is sent and nothing
     * changes. Otherwise the title is POSTed; when the request settles with a
     * status other than 200 the list reloads (with `reloadReply`) and the
     * field is cleared, while status 200 or a failed request leaves both as
     * they were.
     */
    method AddPost(postReply: PostReply, reloadReply: GetReply) returns (request: Option<NewPost>)
      modifies this
      ensures old(titleInput) == [] ==> request == None
      ensures old(titleInput) != [] ==> request == Some(NewPost(old(titleInput), NewContent))
      ensures !ReloadsAfterPost(old(titleInput), postReply) ==>
        posts == old(posts) && titleInput == old(titleInput)
      ensures ReloadsAfterPost(old(titleInput), postReply) ==> titleInput == []
      ensures ReloadsAfterPost(old(titleInput), postReply) && Loaded(reloadReply).None? ==>
        posts == old(posts)
      ensures ReloadsAfterPost(old(titleInput), postReply) && Loaded(reloadReply).Some? ==>
        fresh(posts) && posts[..] == Loaded(reloadReply).value
    {
      if titleInput == [] {
        return None;
      }
      request := Some(NewPost(titleInput, NewContent));
      if postReply.PostAnswered? && postReply.status != SkipStatus {
        ReloadPost(reloadReply);
        titleInput := [];
      }
    }

    /** `clickSortTitle`: the list becomes its sorted copy by lower-cased title. */
    method ClickSortTitle()
      modifies this
      ensures fresh(posts)
      ensures posts[..] == StableSort(Comparator(ByTitle), old(posts[..]))
      ensures old(posts)[..] == old(posts[..])
      ensures titleInput == old(titleInput)
    {
      posts := SortMyPostsByTitle(posts);
    }

    /** `clickSortId`: the list becomes its sorted copy by id. */
    method ClickSortId()
      modifies this
      ensures fresh(posts)
      ensures posts[..] == StableSort(Comparator(ById), old(posts[..]))
      ensures old(posts)[..] == old(posts[..])
      ensures titleInput == old(titleInput)
    {
      posts := SortMyPostsById(posts);
    }
  }
}
