/** The post collection seen as a sequence of documents in natural order, and
    each mutating route as one atomic read-modify-write on it: `findById`, the
    transition, then `save` of the whole document. */
module PostStore {
  import opened Outcomes
  import opened Posts
  import PostProperties

  type Store = seq<Post>

  /** No two documents share an id. */
  predicate UniqueIds(store: Store)
  {
    forall i, j :: 0 <= i < j < |store| ==> store[i].id != store[j].id
  }

  /** The invariant every route keeps: unique document ids, unique likers. */
  predicate Valid(store: Store)
  {
    && UniqueIds(store)
    && forall i :: 0 <= i < |store| ==> UniqueLikes(store[i].likes)
  }

  /** `Post.findById(id)`: the document with that id, or nothing. */
  function FindById(store: Store, id: PostId): (r: Option<Post>)
    ensures r.None? <==> forall i :: 0 <= i < |store| ==> store[i].id != id
    ensures r.Some? ==> r.value.id == id && r.value in store
    ensures r.Some? && UniqueIds(store) ==>
              forall i :: 0 <= i < |store| && store[i].id == id ==> store[i] == r.value
  {
    if store == [] then None
    else if store[0].id == id then Some(store[0])
    else FindById(store[1..], id)
  }

  /** `post.save()`: the stored document with the post's id becomes the post. */
  function Save(store: Store, post: Post): (r: Store)
    ensures |r| == |store|
    ensures forall i :: 0 <= i < |store| ==> r[i].id == store[i].id
    ensures forall i :: 0 <= i < |store| && store[i].id != post.id ==> r[i] == store[i]
    ensures forall i :: 0 <= i < |store| && store[i].id == post.id ==> r[i] == post
  {
    if store == [] then []
    else [if store[0].id == post.id then post else store[0]] + Save(store[1..], post)
  }

  /** The interaction a mutating route performs on the post it looked up. */
  datatype Interaction =
    | Liking(user: UserId)
    | Unliking(user: UserId)
    | Commenting(body: CommentRequest, user: UserId, commentId: CommentId, now: int)
    | Uncommenting(commentId: CommentId)

  function Transition(found: Option<Post>, op: Interaction): (r: Result<Post, Failure>)
    ensures r.Success? ==> found.Some? && r.value.id == found.value.id
  {
    match op
    case Liking(user) => LikePost(found, user)
    case Unliking(user) => UnlikePost(found, user)
    case Commenting(body, user, commentId, now) => AddComment(found, body, user, commentId, now)
    case Uncommenting(commentId) => RemoveComment(found, commentId)
  }

  /** One route call: look the post up, apply the interaction, save on success.
      A refusal leaves the collection untouched; a success replaces exactly the
      addressed document. */
  function Handle(store: Store, id: PostId, op: Interaction): (out: (Result<Post, Failure>, Store))
    ensures out.0 == Transition(FindById(store, id), op)
    ensures out.0.Failure? ==> out.1 == store
    ensures FindById(store, id).None? ==> out.0.Failure?
    ensures out.0.Success? ==>
              && out.0.value.id == id
              && |out.1| == |store|
              && (forall i :: 0 <= i < |store| && store[i].id != id ==> out.1[i] == store[i])
              && (forall i :: 0 <= i < |store| && store[i].id == id ==> out.1[i] == out.0.value)
  {
    var r := Transition(FindById(store, id), op);
    if r.Success? then (r, Save(store, r.value)) else (r, store)
  }

  /** Every interaction keeps the collection's invariant. */
  lemma HandleKeepsValid(store: Store, id: PostId, op: Interaction)
    requires Valid(store)
    ensures Valid(Handle(store, id, op).1)
  {
    var (r, store') := Handle(store, id, op);
    if r.Success? {
      var p := FindById(store, id).value;
      var q := r.value;
      match op {
        case Liking(user) => PostProperties.LikeKeepsLikesUnique(p, user);
        case Unliking(user) => PostProperties.UnlikeKeepsLikesUnique(p, user);
        case Commenting(_, _, _, _) =>
        case Uncommenting(_) =>
      }
      assert UniqueLikes(q.likes);
      forall i | 0 <= i < |store'|
        ensures UniqueLikes(store'[i].likes)
      {
        if store[i].id != id { assert store'[i] == store[i]; }
      }
      assert UniqueIds(store') by {
        forall i, j | 0 <= i < j < |store'|
          ensures store'[i].id != store'[j].id
        {
          assert store'[i].id == store[i].id && store'[j].id == store[j].id;
        }
      }
    }
  }

  /** POST /: validate, build the post, and add it to the collection. */
  function CreatePost(store: Store, request: PostRequest, user: UserId, id: PostId, now: int)
    : (out: (Result<Post, Failure>, Store))
    ensures out.0 == Create(request, user, id, now)
    ensures out.0.Failure? ==> out.1 == store
    ensures out.0.Success? ==> out.1 == store + [out.0.value]
    ensures out.0.Success? && Valid(store) && FindById(store, id).None? ==>
              Valid(out.1) && FindById(out.1, id) == Some(out.0.value)
  {
    var r := Create(request, user, id, now);
    if r.Success? then
      assert Valid(store) && FindById(store, id).None? ==>
               Valid(store + [r.value]) && FindById(store + [r.value], id) == Some(r.value) by {
        if Valid(store) && FindById(store, id).None? { AppendFresh(store, r.value); }
      }
      (r, store + [r.value])
    else (r, store)
  }

  /** Appending a post with an unused id and no likes keeps the invariant, and
      the post is then what a lookup of its id finds. */
  lemma AppendFresh(store: Store, p: Post)
    requires p.likes == []
    requires Valid(store) && FindById(store, p.id).None?
    ensures Valid(store + [p]) && FindById(store + [p], p.id) == Some(p)
  {
    var store' := store + [p];
    assert store'[|store|] == p;
    forall i, j | 0 <= i < j < |store'|
      ensures store'[i].id != store'[j].id
    {
      if j < |store| { assert store'[i] == store[i] && store'[j] == store[j]; }
      else { assert store'[i] == store[i]; }
    }
    assert forall i :: 0 <= i < |store'| ==> UniqueLikes(store'[i].likes) by {
      forall i | 0 <= i < |store'|
        ensures UniqueLikes(store'[i].likes)
      {
        if i < |store| { assert store'[i] == store[i]; }
      }
    }
  }
}
