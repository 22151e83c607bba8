/** Facts relating several post transitions: round trips, the uniqueness
    invariant on likes and comment ids, and what a removal leaves behind. */
module PostProperties {
  import opened Outcomes
  import opened Posts
  import Sequences

  /** Comment ids are unique within a post (the schema's ids are fresh). */
  predicate UniqueCommentIds(comments: seq<Comment>)
  {
    forall i, j :: 0 <= i < j < |comments| ==> comments[i].id != comments[j].id
  }

  /** The position an unlike removed: the user's first like. */
  lemma UnlikeIndex(p: Post, user: UserId) returns (i: nat)
    requires UnlikePost(Some(p), user).Success?
    ensures i < |p.likes| && p.likes[i] == Like(user)
    ensures forall j :: 0 <= j < i ==> p.likes[j].user != user
    ensures UnlikePost(Some(p), user).value.likes == p.likes[..i] + p.likes[i + 1..]
  {
    var q := UnlikePost(Some(p), user).value;
    i :| RemovesFirstLike(p.likes, q.likes, user, i);
  }

  /** The position a comment removal removed: the first comment with that id. */
  lemma RemoveCommentIndex(p: Post, id: CommentId) returns (i: nat)
    requires RemoveComment(Some(p), id).Success?
    ensures i < |p.comments| && p.comments[i].id == id
    ensures forall j :: 0 <= j < i ==> p.comments[j].id != id
    ensures RemoveComment(Some(p), id).value.comments == p.comments[..i] + p.comments[i + 1..]
  {
    var q := RemoveComment(Some(p), id).value;
    i :| RemovesFirstComment(p.comments, q.comments, id, i);
  }

  /** A successful like followed by an unlike by the same user gives back the
      original post, likes in the same order. */
  lemma LikeThenUnlike(p: Post, user: UserId)
    requires LikePost(Some(p), user).Success?
    ensures UnlikePost(Some(LikePost(Some(p), user).value), user) == Success(p)
  {
    var q := LikePost(Some(p), user).value;
    assert q.likes[0].user == user;
    assert HasLiked(q, user);
    var r := UnlikePost(Some(q), user).value;
    var i := UnlikeIndex(q, user);
    assert i == 0;
    assert r.likes == p.likes;
  }

  /** Liking twice: the second attempt is refused. */
  lemma LikeTwiceRefused(p: Post, user: UserId)
    requires LikePost(Some(p), user).Success?
    ensures LikePost(Some(LikePost(Some(p), user).value), user) == Failure(AlreadyLiked)
  {
    var q := LikePost(Some(p), user).value;
    assert q.likes[0].user == user;
  }

  /** Like keeps every user at most once in `likes`, and the user is then in it. */
  lemma LikeKeepsLikesUnique(p: Post, user: UserId)
    requires UniqueLikes(p.likes)
    requires LikePost(Some(p), user).Success?
    ensures UniqueLikes(LikePost(Some(p), user).value.likes)
    ensures HasLiked(LikePost(Some(p), user).value, user)
  {
    var q := LikePost(Some(p), user).value;
    assert !HasLiked(p, user);
    forall i, j | 0 <= i < j < |q.likes|
      ensures q.likes[i].user != q.likes[j].user
    {
      assert q.likes[j] == p.likes[j - 1];
      if i > 0 {
        assert q.likes[i] == p.likes[i - 1];
      }
    }
    assert q.likes[0].user == user;
  }

  /** Unlike keeps `likes` unique, and under that invariant the user no longer
      likes the post afterwards. */
  lemma UnlikeKeepsLikesUnique(p: Post, user: UserId)
    requires UniqueLikes(p.likes)
    requires UnlikePost(Some(p), user).Success?
    ensures UniqueLikes(UnlikePost(Some(p), user).value.likes)
    ensures !HasLiked(UnlikePost(Some(p), user).value, user)
  {
    var i := UnlikeIndex(p, user);
    RemovalKeepsLikesUnique(p.likes, UnlikePost(Some(p), user).value.likes, user, i);
  }

  lemma RemovalKeepsLikesUnique(before: seq<Like>, after: seq<Like>, user: UserId, i: int)
    requires UniqueLikes(before) && RemovesFirstLike(before, after, user, i)
    ensures UniqueLikes(after)
    ensures forall k :: 0 <= k < |after| ==> after[k].user != user
  {
    Sequences.RemoveAtIndexing(before, i, after);
    forall a, b | 0 <= a < b < |after|
      ensures after[a].user != after[b].user
    {
      var a', b' := if a < i then a else a + 1, if b < i then b else b + 1;
      assert after[a] == before[a'] && after[b] == before[b'];
    }
    forall k | 0 <= k < |after|
      ensures after[k].user != user
    {
      var k' := if k < i then k else k + 1;
      assert after[k] == before[k'] && k' != i;
    }
  }

  /** Unlike removes exactly one like, the one naming the user. */
  lemma UnlikeRemovesOneLike(p: Post, user: UserId)
    requires UnlikePost(Some(p), user).Success?
    ensures multiset(UnlikePost(Some(p), user).value.likes) == multiset(p.likes) - multiset{Like(user)}
    ensures Like(user) in multiset(p.likes)
  {
    var i := UnlikeIndex(p, user);
    Sequences.RemoveAtMultiset(p.likes, i);
  }

  /** Adding a comment and then removing it by its id gives back the original
      post, whether or not that id was already in use: the new comment is in
      front, so it is the first match. */
  lemma AddThenRemoveComment(p: Post, request: CommentRequest, user: UserId, id: CommentId, now: int)
    requires AddComment(Some(p), request, user, id, now).Success?
    ensures RemoveComment(Some(AddComment(Some(p), request, user, id, now).value), id) == Success(p)
  {
    var q := AddComment(Some(p), request, user, id, now).value;
    assert q.comments[0].id == id;
    assert HasComment(q, id);
    var r := RemoveComment(Some(q), id).value;
    var i := RemoveCommentIndex(q, id);
    assert i == 0;
    assert r.comments == p.comments;
  }

  /** A comment added under a fresh id keeps comment ids unique. */
  lemma AddCommentKeepsIdsUnique(p: Post, request: CommentRequest, user: UserId, id: CommentId, now: int)
    requires UniqueCommentIds(p.comments)
    requires !HasComment(p, id)
    requires AddComment(Some(p), request, user, id, now).Success?
    ensures UniqueCommentIds(AddComment(Some(p), request, user, id, now).value.comments)
  {
    var q := AddComment(Some(p), request, user, id, now).value;
    forall i, j | 0 <= i < j < |q.comments|
      ensures q.comments[i].id != q.comments[j].id
    {
      assert q.comments[j] == p.comments[j - 1];
      if i > 0 {
        assert q.comments[i] == p.comments[i - 1];
      }
    }
  }

  /** Removing a comment keeps ids unique, and under that invariant the id is
      gone afterwards; the likes are untouched. */
  lemma RemoveCommentDeletesId(p: Post, id: CommentId)
    requires UniqueCommentIds(p.comments)
    requires RemoveComment(Some(p), id).Success?
    ensures UniqueCommentIds(RemoveComment(Some(p), id).value.comments)
    ensures !HasComment(RemoveComment(Some(p), id).value, id)
    ensures RemoveComment(Some(p), id).value.likes == p.likes
    ensures |RemoveComment(Some(p), id).value.comments| == |p.comments| - 1
  {
    var i := RemoveCommentIndex(p, id);
    RemovalKeepsIdsUnique(p.comments, RemoveComment(Some(p), id).value.comments, id, i);
  }

  lemma RemovalKeepsIdsUnique(before: seq<Comment>, after: seq<Comment>, id: CommentId, i: int)
    requires UniqueCommentIds(before) && RemovesFirstComment(before, after, id, i)
    ensures UniqueCommentIds(after)
    ensures forall k :: 0 <= k < |after| ==> after[k].id != id
  {
    Sequences.RemoveAtIndexing(before, i, after);
    forall a, b | 0 <= a < b < |after|
      ensures after[a].id != after[b].id
    {
      var a', b' := if a < i then a else a + 1, if b < i then b else b + 1;
      assert after[a] == before[a'] && after[b] == before[b'];
    }
    forall k | 0 <= k < |after|
      ensures after[k].id != id
    {
      var k' := if k < i then k else k + 1;
      assert after[k] == before[k'] && k' != i;
    }
  }

  /** A freshly created post liked by its author holds exactly that one like;
      a second like by the author is refused. */
  lemma CreateThenLikeTwice(request: PostRequest, user: UserId, id: PostId, now: int)
    requires Create(request, user, id, now).Success?
    ensures var p := Create(request, user, id, now).value;
            && p.likes == [] && p.comments == [] && p.user == user
            && LikePost(Some(p), user).Success?
            && LikePost(Some(p), user).value.likes == [Like(user)]
            && LikePost(Some(LikePost(Some(p), user).value), user) == Failure(AlreadyLiked)
  {
    var p := Create(request, user, id, now).value;
    LikeTwiceRefused(p, user);
  }
}
