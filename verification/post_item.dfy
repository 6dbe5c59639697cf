/** One post in a list or on its own page: the two vote arrows, the delete
    control and what a delete click does. */
module PostItem {
  import opened Common
  import opened PostAtom
  import opened DocStore
  import opened UsePosts

  /** The two arrow controls. */
  datatype Arrow = Up | Down

  /** The vote an arrow dispatches: the only values the handler is ever given. */
  function VoteOf(a: Arrow): (v: int)
    ensures v == 1 || v == -1
    ensures v == 1 <==> a == Up
  {
    match a
    case Up => 1
    case Down => -1
  }

  /** Which arrows are drawn filled. */
  datatype ArrowFill = ArrowFill(up: bool, down: bool)

  /** The up arrow is filled exactly for a cached +1, the down arrow exactly
      for a cached -1. */
  function ArrowsFor(userVoteValue: Option<int>): (r: ArrowFill)
    ensures !(r.up && r.down)
    ensures r.up <==> userVoteValue == Some(VoteOf(Up))
    ensures r.down <==> userVoteValue == Some(VoteOf(Down))
    ensures userVoteValue.None? ==> !r.up && !r.down
  {
    ArrowFill(userVoteValue == Some(1), userVoteValue == Some(-1))
  }

  /** What the item shows from its props. */
  datatype ItemView = ItemView(score: int, commentCount: int, arrows: ArrowFill, showsDelete: bool)

  /** The item's rendering: the post's own counters, the arrows for the
      user's vote, and the delete control for the post's creator only. */
  function Render(post: Post, userIsCreator: bool, userVoteValue: Option<int>): (r: ItemView)
    ensures r.score == post.voteStatus && r.commentCount == post.numberOfComments
    ensures r.showsDelete <==> userIsCreator
    ensures r.arrows == ArrowsFor(userVoteValue)
  {
    ItemView(post.voteStatus, post.numberOfComments, ArrowsFor(userVoteValue), userIsCreator)
  }

  /** A click on the item's body: on a community page (where a select
      handler is given) the post is opened; on its own page nothing happens. */
  function OnItemClick(state: PostState, post: Post, singlePostPage: bool): (r: PostState)
    ensures singlePostPage ==> r == state
    ensures !singlePostPage ==> r.selectedPost == Some(post) && r.posts == state.posts && r.postVotes == state.postVotes
  {
    if singlePostPage then state else OnSelectPost(state, post)
  }

  /** The outcome of `handleDelete`. */
  datatype DeleteClick = DeleteClick(result: DeleteResult, error: Option<string>, navigatedTo: Option<string>)

  /** `handleDelete`: run the delete; a failure shows the error, a success on
      the post's own page returns to its community. */
  function HandleDelete(state: PostState, store: Store, post: Post, singlePostPage: bool,
                        imageDeleteOk: bool, docDeleteOk: bool): (r: DeleteClick)
    ensures r.result == OnDeletePost(state, store, post, imageDeleteOk, docDeleteOk)
    ensures r.error.Some? <==> !r.result.success
    ensures r.error.Some? ==> r.error.value == "Failed to delete post"
    ensures r.navigatedTo.Some? <==> r.result.success && singlePostPage
    ensures r.navigatedTo.Some? ==> r.navigatedTo.value == "/r/" + post.communityId
  {
    var res := OnDeletePost(state, store, post, imageDeleteOk, docDeleteOk);
    if !res.success then DeleteClick(res, Some("Failed to delete post"), None)
    else if singlePostPage then DeleteClick(res, None, Some("/r/" + post.communityId))
    else DeleteClick(res, None, None)
  }

  /** The page is left only after the post is gone, from the list and from the store. */
  lemma NavigationFollowsRemoval(state: PostState, store: Store, post: Post, imageDeleteOk: bool, docDeleteOk: bool)
    requires post.id.Some?
    ensures var r := HandleDelete(state, store, post, true, imageDeleteOk, docDeleteOk);
      r.navigatedTo.Some? ==> post !in r.result.state.posts && PostKey(post.id.value) !in r.result.store
  {
  }
}
