# Post interactions, request validation and the error reducer

A Dafny model of the core of a news/social-feed backend built on Express and
Mongoose, plus one reducer of its Redux client:

- the post routes (`routes/api/posts.js`): creating a post, liking and
  unliking it, adding and removing comments, and the two list queries, each
  modelled as a pure transition on an immutable `Post` document that answers
  the updated post or a typed `Failure`;
- the read-modify-write each mutating route performs on the post collection
  (`findById`, transition, `save`), modelled as one atomic step on a sequence
  of documents;
- the status code and JSON body each route answers with;
- `validatePostInput` and `validateLoginInput`, the request validators;
- the client's error reducer.

Files, one module each: `outcomes.dfy` (Option, Result, error objects),
`sequences.dfy` (`filter().length`, `indexOf`, `splice(start, 1)`),
`validation.dfy`, `post_validation.dfy`, `login_validation.dfy`, `posts.dfy`
(documents and transitions), `post_properties.dfy` (round trips and
invariants), `post_store.dfy`, `post_queries.dfy`, `post_responses.dfy`,
`error_reducer.dfy`.

Modelling choices:

- A transition receives what `findById` resolved to, as `Option<Post>`. When no
  document is found, the handler dereferences `null`, the promise's `catch`
  runs and the route answers 404 `nopostfound`: that is `Failure(NotFound)`.
- The guards `likes.filter(...).length > 0` and the removals
  `splice(indexOf(...), 1)` are modelled as written, including JavaScript's
  `splice(-1, 1)` removing the last element. `Sequences.CountPositiveIff`
  shows the guard is a membership test, and the transitions prove that the
  guard keeps `indexOf` from being -1 when the splice runs.
- The authenticated user id, the new post or comment id and the timestamp are
  parameters. The schema assigns the ids and dates, and the authentication
  middleware supplies the user.
- Text length is the number of characters (`|s|`). An absent field is `None`
  and is normalised to `""`.
- Whether an e-mail address is well formed is decided by an external
  library. `LoginValidation.Validate` takes that decision as a function
  parameter `isEmail` and assumes nothing about it.
- Ties in `sort({ date: -1 })` are ordered however the database likes.
  `PostQueries.IsNewestPage` states what every admissible answer satisfies.
  `PostQueries.Newest` is one such answer: it keeps equal dates in collection
  order.

Two route behaviours worth noting:

- The remove-comment route is authenticated (posts.js line 201), but it
  checks no ownership. The model has no ownership check either, and the user
  identity plays no part in the transition.
- The single-post GET answers `null` with status 200 when a well-formed id
  matches nothing (posts.js lines 60-61). It is not a guaranteed 404.
  `PostStore.FindById` returns `None` in that case.

## Model

| member | source | states |
|---|---|---|
| Sequences.Count | Independent/routes/api/posts.js:109-110 | the `filter(...).length` of matches equals the number of occurrences of the id, its multiplicity in the sequence |
| Sequences.CountPositiveIff | Independent/routes/api/posts.js:108-111 | a `filter(...).length` is positive exactly when the id occurs in the sequence |
| Sequences.IndexOf | Independent/routes/api/posts.js:147-149 | `indexOf` is -1 exactly when the value is absent; otherwise it is the first position holding it |
| Sequences.Splice1 | Independent/routes/api/posts.js:150 | `splice(start, 1)` removes position `start` when it is in range, removes the last element for -1, and removes nothing past the end |
| Validation.Normalize | Independent/validation/post.js:8 | an absent field becomes `""`; a present string is kept, so the result is empty iff the field is absent or empty (the same normalisation of email and password at login.js:8-9) |
| Validation.Conclude | Independent/validation/post.js:15-18 | the verdict carries the errors, and `isValid` holds iff there are none (the same verdict at login.js:22-25) |
| PostValidation.IsLength | Independent/validation/post.js:9 | the length lies between `min` and `max` inclusive, counting characters (see the `isLength` line under Left out): it can only hold when `min <= max`, and the empty string fails any positive minimum |
| PostValidation.Validate | Independent/validation/post.js:8-18 | only `text` can be a key; valid iff no errors iff text is present with 10..300 characters; empty or absent text gives only the required message, overriding the length message; other out-of-range text gives the length message |
| PostValidation.LengthBoundaries | Independent/validation/post.js:9 | lengths 10 and 300 pass; 9 and 301 fail with the length message |
| LoginValidation.Validate | Independent/validation/login.js:8-25 | keys are within {email, password}; the password error appears iff the password is empty or absent; an empty email gives "Email field is required" over the invalid message; a non-empty email rejected by `isEmail` gives "Email is invalid"; valid iff no errors |
| LoginValidation.EntriesAreIndependent | Independent/validation/login.js:11-20 | the password entry does not depend on the email, and the email entry does not depend on the password |
| Posts.Users | Independent/routes/api/posts.js:147-148 | the mapped sequence has one entry per like, and entry `i` is the user of like `i` |
| Posts.CommentIds | Independent/routes/api/posts.js:217-218 | the mapped sequence has one entry per comment, and entry `i` is the id of comment `i` |
| Posts.LikeGuard | Independent/routes/api/posts.js:108-111 | the like routes' filter guard holds exactly when the user has a like on the post |
| Posts.CommentGuard | Independent/routes/api/posts.js:206-209 | the remove-comment guard holds exactly when a comment has that id |
| Posts.Create | Independent/routes/api/posts.js:24-36 | invalid text gives the validator's errors; otherwise the post carries the request's text, name and type, the author, and no likes or comments |
| Posts.LikePost | Independent/routes/api/posts.js:105-124 | missing post gives NotFound; a user who already liked gets AlreadyLiked; otherwise likes become `[Like(user)] + likes` and nothing else changes |
| Posts.UnlikePost | Independent/routes/api/posts.js:135-157 | missing post gives NotFound; a user with no like gets NotLiked; otherwise the user's first like is removed, the rest keep their order, and nothing else changes |
| Posts.AddComment | Independent/routes/api/posts.js:168-192 | validation failure wins even when the post is missing; then a missing post gives NotFound; otherwise the new comment, with the request's text, name and avatar and the user, is put first and nothing else changes |
| Posts.RemoveComment | Independent/routes/api/posts.js:203-230 | missing post gives NotFound; an unknown id gives CommentNotExist; otherwise the first comment with the id is removed, the rest keep their order, and likes are unchanged |
| Posts.SpliceFirstLike | Independent/routes/api/posts.js:147-150 | splicing at the `indexOf` of a present user removes exactly that user's first like |
| Posts.SpliceFirstComment | Independent/routes/api/posts.js:217-221 | splicing at the `indexOf` of a present id removes exactly the first comment with it |
| PostProperties.UnlikeIndex | Independent/routes/api/posts.js:147-150 | the removed like is the user's first one |
| PostProperties.RemoveCommentIndex | Independent/routes/api/posts.js:217-221 | the removed comment is the first one with the id |
| PostProperties.LikeThenUnlike | Independent/routes/api/posts.js:108-150 | a successful like followed by an unlike restores the original post, likes in the same order |
| PostProperties.LikeTwiceRefused | Independent/routes/api/posts.js:108-117 | a second like by the same user is refused with AlreadyLiked |
| PostProperties.LikeKeepsLikesUnique | Independent/routes/api/posts.js:108-117 | like keeps each user at most once in likes, and the user is then a liker |
| PostProperties.UnlikeKeepsLikesUnique | Independent/routes/api/posts.js:138-150 | unlike keeps likes unique, and under that invariant the user is no longer a liker |
| PostProperties.RemovalKeepsLikesUnique | Independent/routes/api/posts.js:147-150 | removing the first like of a user from unique likes keeps them unique and leaves no like by that user |
| PostProperties.UnlikeRemovesOneLike | Independent/routes/api/posts.js:147-150 | unlike removes exactly one `Like(user)` from the multiset of likes |
| PostProperties.AddThenRemoveComment | Independent/routes/api/posts.js:176-221 | adding a comment and then removing its id restores the original post, even when the id was already in use |
| PostProperties.AddCommentKeepsIdsUnique | Independent/routes/api/posts.js:176-183 | adding a comment under a fresh id keeps comment ids unique |
| PostProperties.RemoveCommentDeletesId | Independent/routes/api/posts.js:206-221 | removal keeps ids unique, leaves no comment with that id, shortens comments by one, and keeps likes |
| PostProperties.RemovalKeepsIdsUnique | Independent/routes/api/posts.js:217-221 | removing the first comment with an id from uniquely identified comments keeps ids unique and leaves no comment with that id |
| PostProperties.CreateThenLikeTwice | Independent/routes/api/posts.js:31-117 | a new post has no likes or comments; the author's like gives exactly one like, and a second like is refused |
| PostStore.FindById | Independent/routes/api/posts.js:60-61 | the lookup finds nothing iff no document has the id; otherwise it finds the document with that id |
| PostStore.Save | Independent/routes/api/posts.js:118 | saving replaces the document with the post's id and leaves the other documents and all ids unchanged |
| PostStore.Transition | Independent/routes/api/posts.js:101-232 | each interaction runs its route's transition, and a success keeps the looked-up post's id |
| PostStore.Handle | Independent/routes/api/posts.js:105-124 | the answer is the transition applied to what the lookup found; a refusal leaves the collection unchanged; a success replaces exactly the addressed document, which keeps its id |
| PostStore.HandleKeepsValid | Independent/routes/api/posts.js:108-150 | every like, unlike and comment route keeps document ids unique and likes unique in every post |
| PostStore.CreatePost | Independent/routes/api/posts.js:31-37 | a created post is appended to the collection; a refusal leaves it unchanged; with a fresh id the invariant holds afterwards and the lookup finds the new post |
| PostStore.AppendFresh | Independent/routes/api/posts.js:37 | appending a like-free post under an unused id keeps the invariant and makes the post findable |
| PostQueries.Insert | Independent/routes/api/posts.js:46 | inserting into a newest-first sequence keeps it newest first and adds exactly the post |
| PostQueries.SortByDate | Independent/routes/api/posts.js:46 | the sort is newest first and a permutation of the collection |
| PostQueries.SortedPrefixIsNewestPage | Independent/routes/api/posts.js:46-47 | the first `limit` posts of any newest-first permutation of the collection form a newest page |
| PostQueries.Newest | Independent/routes/api/posts.js:45-48 | the list holds min(20, size) posts from the collection, newest first, and no left-out post is newer than a listed one |
| PostQueries.OfType | Independent/routes/api/posts.js:73 | a post is selected iff it is in the collection with that type |
| PostQueries.OfTypeKeepsOrder | Independent/routes/api/posts.js:73 | selecting by type keeps collection order: the selection of `a + b` is the selection of `a` followed by that of `b` |
| PostQueries.ByType | Independent/routes/api/posts.js:73-75 | at most 10 posts, all of that type, a prefix of the order-keeping selection; fewer than 10 only when no other post has the type |
| PostResponses.FailureBody | Independent/routes/api/posts.js:112-228 | a validation refusal's body is the validator's errors; the others carry the one key `nopostfound`, `alreadyliked`, `notliked` or `commentnotexist` with the route's message |
| PostResponses.Respond | Independent/routes/api/posts.js:101-232 | status 200 iff success, with the post as body; 404 iff the post or comment is missing; otherwise 400; every refusal answers its `FailureBody`, one key for non-validation refusals |
| PostResponses.RefusalsExplainThemselves | Independent/routes/api/posts.js:164-194 | every refused interaction answers a non-empty error body |
| PostResponses.CreateRefusalsExplainThemselves | Independent/routes/api/posts.js:24-29 | a refused create answers 400 with exactly the validator's errors, whose only key is `text` |
| ErrorReducer.Reduce | Independent/client/src/reducers/errorReducer.js:3-13 | GET_ERRORS gives the payload whatever the state was; any other action keeps the state, or gives the empty initial state when there is none |
| ErrorReducer.GetErrorsIdempotent | Independent/client/src/reducers/errorReducer.js:9-10 | dispatching the same GET_ERRORS action twice equals dispatching it once |
| ErrorReducer.ReduceAllSnoc | Independent/client/src/reducers/errorReducer.js:7-13 | reducing a sequence with one more action equals reducing that action on the earlier state |
| ErrorReducer.ReduceAllIsLastErrors | Independent/client/src/reducers/errorReducer.js:7-13 | after any sequence of actions the state is the payload of the last GET_ERRORS action, or the starting state when there is none |

## Left out

- HTTP routing, JSON serialisation and the `/test` route. Outcomes are `Result` values, and `PostResponses` gives the status code and body.
- Authentication. The passport JWT middleware is replaced by a user id parameter.
- Persistence mechanics, such as the asynchronous `save()` promises and the race between `findById` and `save` when requests run concurrently. Each route call is one atomic transition. Two concurrent likes by one user can therefore duplicate a like in the real system but not in the model.
- The storage layer failing. The list queries' `catch` then answers 404 `nopostfound`, and a malformed id fails in the same way on the single-post GET. Both are storage conditions outside the model.
- The schema's generation of ids and dates. `models/Post.js` is not part of this model, so fresh ids and timestamps are parameters. The schema's other defaults and its required-field rules are not modelled.
- The `is-empty` helper is not part of this model. An absent field becomes `""`, and a present string is kept as is. Whitespace-only strings and non-string values are not treated specially.
- The library's exact character counting in `Validator.isLength` (surrogate pairs, and in some versions variation selectors) is not modelled. The model counts the characters of a `string` as `|s|`.
- The commented-out delete route.
- The `GET_ERRORS` constant is defined in `action/types`, which is not part of this model. The model assumes its conventional value `"GET_ERRORS"`; no property depends on that value, since the reducer only compares action types against it.
