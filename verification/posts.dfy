/** The post documents and the state transitions the post routes apply to one
    of them: create, like, unlike, add comment and remove comment. Each
    transition receives what `findById` resolved to (`None` for no document)
    and the authenticated user's id, and answers the updated post or a typed
    failure. */
module Posts {
  import opened Outcomes
  import opened Validation
  import opened Sequences
  import PostValidation

  type UserId = string
  type PostId = string
  type CommentId = string

  /** One entry of `likes`. */
  datatype Like = Like(user: UserId)

  /** One entry of `comments`; `id` and `date` come from the document schema. */
  datatype Comment = Comment(id: CommentId, user: UserId, text: string,
                             name: Option<string>, avatar: Option<string>, date: int)

  /** A post document; `likes` and `comments` hold the newest entry first. */
  datatype Post = Post(id: PostId, user: UserId, text: string, name: Option<string>,
                       postType: Option<string>, date: int,
                       likes: seq<Like>, comments: seq<Comment>)

  /** The request bodies the create and comment routes read. */
  datatype PostRequest = PostRequest(text: Option<string>, name: Option<string>, postType: Option<string>)
  datatype CommentRequest = CommentRequest(text: Option<string>, name: Option<string>, avatar: Option<string>)

  /** Why a route refused: the body it answers with is chosen from this. */
  datatype Failure =
    | ValidationFailed(errors: ErrorMap)
    | NotFound
    | AlreadyLiked
    | NotLiked
    | CommentNotExist

  /** `likes.map(item => item.user)`. */
  function Users(likes: seq<Like>): (us: seq<UserId>)
    ensures |us| == |likes|
    ensures forall i :: 0 <= i < |likes| ==> us[i] == likes[i].user
  {
    if likes == [] then [] else [likes[0].user] + Users(likes[1..])
  }

  /** `comments.map(item => item._id)`. */
  function CommentIds(comments: seq<Comment>): (ids: seq<CommentId>)
    ensures |ids| == |comments|
    ensures forall i :: 0 <= i < |comments| ==> ids[i] == comments[i].id
  {
    if comments == [] then [] else [comments[0].id] + CommentIds(comments[1..])
  }

  predicate HasLiked(p: Post, user: UserId)
  {
    exists i :: 0 <= i < |p.likes| && p.likes[i].user == user
  }

  predicate HasComment(p: Post, id: CommentId)
  {
    exists i :: 0 <= i < |p.comments| && p.comments[i].id == id
  }

  /** `after` is `before` without its `i`-th like, the first one by `user`. */
  predicate RemovesFirstLike(before: seq<Like>, after: seq<Like>, user: UserId, i: int)
  {
    && 0 <= i < |before|
    && before[i].user == user
    && (forall j :: 0 <= j < i ==> before[j].user != user)
    && after == before[..i] + before[i + 1..]
  }

  /** `after` is `before` without its `i`-th comment, the first one with `id`. */
  predicate RemovesFirstComment(before: seq<Comment>, after: seq<Comment>, id: CommentId, i: int)
  {
    && 0 <= i < |before|
    && before[i].id == id
    && (forall j :: 0 <= j < i ==> before[j].id != id)
    && after == before[..i] + before[i + 1..]
  }

  /** The uniqueness invariant on likes: no user appears twice. */
  predicate UniqueLikes(likes: seq<Like>)
  {
    forall i, j :: 0 <= i < j < |likes| ==> likes[i].user != likes[j].user
  }

  /** The `filter(...).length > 0` guard of the like routes is a membership test. */
  lemma LikeGuard(p: Post, user: UserId)
    ensures Count(Users(p.likes), user) > 0 <==> HasLiked(p, user)
  {
    CountPositiveIff(Users(p.likes), user);
    if user in Users(p.likes) {
      var i :| 0 <= i < |p.likes| && Users(p.likes)[i] == user;
    }
  }

  /** The `filter(...).length === 0` guard of the remove-comment route. */
  lemma CommentGuard(p: Post, id: CommentId)
    ensures Count(CommentIds(p.comments), id) > 0 <==> HasComment(p, id)
  {
    CountPositiveIff(CommentIds(p.comments), id);
    if id in CommentIds(p.comments) {
      var i :| 0 <= i < |p.comments| && CommentIds(p.comments)[i] == id;
    }
  }

  /** Splicing at the `indexOf` of a present user removes that user's first like. */
  lemma SpliceFirstLike(likes: seq<Like>, user: UserId, index: int)
    requires user in Users(likes) && index == IndexOf(Users(likes), user)
    ensures RemovesFirstLike(likes, Splice1(likes, index), user, index)
  {
    var users := Users(likes);
    forall j | 0 <= j < index
      ensures likes[j].user != user
    {
      assert users[..index][j] == users[j];
    }
  }

  /** Splicing at the `indexOf` of a present id removes the first comment with it. */
  lemma SpliceFirstComment(comments: seq<Comment>, id: CommentId, index: int)
    requires id in CommentIds(comments) && index == IndexOf(CommentIds(comments), id)
    ensures RemovesFirstComment(comments, Splice1(comments, index), id, index)
  {
    var ids := CommentIds(comments);
    forall j | 0 <= j < index
      ensures comments[j].id != id
    {
      assert ids[..index][j] == ids[j];
    }
  }

  /** POST /: validate the body, then build a post owned by `user` with no
      likes and no comments. `id` and `now` are what the schema assigns. */
  function Create(request: PostRequest, user: UserId, id: PostId, now: int): (r: Result<Post, Failure>)
    ensures r.Failure? <==> !PostValidation.Validate(request.text).isValid
    ensures r.Failure? ==> r.error == ValidationFailed(PostValidation.Validate(request.text).errors)
    ensures r.Success? ==>
              && request.text.Some?
              && PostValidation.MinLength <= |request.text.value| <= PostValidation.MaxLength
              && r.value == Post(id, user, request.text.value, request.name, request.postType, now, [], [])
  {
    var v := PostValidation.Validate(request.text);
    if !v.isValid then Failure(ValidationFailed(v.errors))
    else Success(Post(id, user, Normalize(request.text), request.name, request.postType, now, [], []))
  }

  /** POST /like/:id: refuse a second like by the same user, otherwise put the
      like in front. */
  function LikePost(found: Option<Post>, user: UserId): (r: Result<Post, Failure>)
    ensures found.None? ==> r == Failure(NotFound)
    ensures found.Some? && HasLiked(found.value, user) ==> r == Failure(AlreadyLiked)
    ensures found.Some? && !HasLiked(found.value, user) ==>
              && r.Success?
              && r.value.likes == [Like(user)] + found.value.likes
              && r.value.(likes := found.value.likes) == found.value
  {
    match found
    case None => Failure(NotFound)
    case Some(post) =>
      LikeGuard(post, user);
      if Count(Users(post.likes), user) > 0 then Failure(AlreadyLiked)
      else Success(post.(likes := [Like(user)] + post.likes))
  }

  /** POST /unlike/:id: refuse when the user has no like, otherwise splice out
      the first like whose user matches. */
  function UnlikePost(found: Option<Post>, user: UserId): (r: Result<Post, Failure>)
    ensures found.None? ==> r == Failure(NotFound)
    ensures found.Some? && !HasLiked(found.value, user) ==> r == Failure(NotLiked)
    ensures found.Some? && HasLiked(found.value, user) ==>
              && r.Success?
              && r.value.(likes := found.value.likes) == found.value
              && exists i :: RemovesFirstLike(found.value.likes, r.value.likes, user, i)
  {
    match found
    case None => Failure(NotFound)
    case Some(post) =>
      LikeGuard(post, user);
      if Count(Users(post.likes), user) == 0 then Failure(NotLiked)
      else
        var index := IndexOf(Users(post.likes), user);
        SpliceFirstLike(post.likes, user, index);
        Success(post.(likes := Splice1(post.likes, index)))
  }

  /** POST /comment/:id: validate the body before looking at the post, then put
      the new comment in front. `id` and `now` are what the schema assigns. */
  function AddComment(found: Option<Post>, request: CommentRequest, user: UserId,
                      id: CommentId, now: int): (r: Result<Post, Failure>)
    ensures !PostValidation.Validate(request.text).isValid ==>
              r == Failure(ValidationFailed(PostValidation.Validate(request.text).errors))
    ensures PostValidation.Validate(request.text).isValid && found.None? ==> r == Failure(NotFound)
    ensures PostValidation.Validate(request.text).isValid && found.Some? ==>
              && r.Success?
              && request.text.Some?
              && r.value.comments
                 == [Comment(id, user, request.text.value, request.name, request.avatar, now)]
                    + found.value.comments
              && r.value.(comments := found.value.comments) == found.value
  {
    var v := PostValidation.Validate(request.text);
    if !v.isValid then Failure(ValidationFailed(v.errors))
    else
      match found
      case None => Failure(NotFound)
      case Some(post) =>
        var comment := Comment(id, user, Normalize(request.text), request.name, request.avatar, now);
        Success(post.(comments := [comment] + post.comments))
  }

  /** DELETE /comment/:id/:comment_id: refuse an unknown comment id, otherwise
      splice out the first comment with that id. */
  function RemoveComment(found: Option<Post>, id: CommentId): (r: Result<Post, Failure>)
    ensures found.None? ==> r == Failure(NotFound)
    ensures found.Some? && !HasComment(found.value, id) ==> r == Failure(CommentNotExist)
    ensures found.Some? && HasComment(found.value, id) ==>
              && r.Success?
              && r.value.(comments := found.value.comments) == found.value
              && exists i :: RemovesFirstComment(found.value.comments, r.value.comments, id, i)
  {
    match found
    case None => Failure(NotFound)
    case Some(post) =>
      CommentGuard(post, id);
      if Count(CommentIds(post.comments), id) == 0 then Failure(CommentNotExist)
      else
        var index := IndexOf(CommentIds(post.comments), id);
        SpliceFirstComment(post.comments, id, index);
        Success(post.(comments := Splice1(post.comments, index)))
  }
}
