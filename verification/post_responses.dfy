/** How each route answers an engine outcome: status code and JSON body. */
module PostResponses {
  import opened Outcomes
  import opened Posts
  import PostStore
  import PostValidation

  datatype Body = PostBody(post: Post) | ErrorBody(errors: ErrorMap)
  datatype Response = Response(status: int, body: Body)

  /** The one-key body a refusal other than a validation failure carries. */
  function FailureBody(f: Failure): (body: ErrorMap)
    ensures f.ValidationFailed? ==> body == f.errors
    ensures f.NotFound? ==> body.Keys == {"nopostfound"} && body["nopostfound"] == "No post found with that id"
    ensures f.AlreadyLiked? ==> body.Keys == {"alreadyliked"} && body["alreadyliked"] == "the news is already liked"
    ensures f.NotLiked? ==> body.Keys == {"notliked"} && body["notliked"] == "not liked before"
    ensures f.CommentNotExist? ==>
              body.Keys == {"commentnotexist"} && body["commentnotexist"] == "Comment does not exist"
  {
    match f
    case ValidationFailed(errors) => errors
    case NotFound => map["nopostfound" := "No post found with that id"]
    case AlreadyLiked => map["alreadyliked" := "the news is already liked"]
    case NotLiked => map["notliked" := "not liked before"]
    case CommentNotExist => map["commentnotexist" := "Comment does not exist"]
  }

  /** Success answers 200 with the saved post; refusals of the request answer
      400; a missing post or comment answers 404. */
  function Respond(r: Result<Post, Failure>): (resp: Response)
    ensures resp.status == 200 <==> r.Success?
    ensures r.Success? ==> resp.body == PostBody(r.value)
    ensures r.Failure? ==> resp.body == ErrorBody(FailureBody(r.error)) && resp.status in {400, 404}
    ensures resp.status == 404 <==> r.Failure? && (r.error.NotFound? || r.error.CommentNotExist?)
    ensures r.Failure? && !r.error.ValidationFailed? ==> |resp.body.errors| == 1
  {
    match r
    case Success(post) => Response(200, PostBody(post))
    case Failure(f) =>
      var status := if f.NotFound? || f.CommentNotExist? then 404 else 400;
      Response(status, ErrorBody(FailureBody(f)))
  }

  /** Every refusal a route produces names at least one field or reason. */
  lemma RefusalsExplainThemselves(store: PostStore.Store, id: PostId, op: PostStore.Interaction)
    ensures var resp := Respond(PostStore.Handle(store, id, op).0);
            resp.status != 200 ==> |resp.body.errors| > 0
  {
    var r := PostStore.Handle(store, id, op).0;
    if r.Failure? && r.error.ValidationFailed? {
      assert op.Commenting?;
    }
  }

  lemma CreateRefusalsExplainThemselves(request: PostRequest, user: UserId, id: PostId, now: int)
    ensures var resp := Respond(Create(request, user, id, now));
            resp.status != 200 ==>
              && resp.status == 400
              && resp.body.errors == PostValidation.Validate(request.text).errors
              && resp.body.errors.Keys == {"text"}
  {
  }
}
