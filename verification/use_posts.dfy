/** The post hook: voting, selecting and deleting posts, and loading or
    clearing the cached votes. The vote handler changes the cached state
    before its batch is submitted and never undoes that change; the batch
    writes the new score as an absolute value. */
module UsePosts {
  import opened Common
  import opened PostAtom
  import opened CommunitiesAtom
  import opened DocStore

  /** The three ways a vote request can go, decided from the cached vote alone. */
  datatype VoteAction =
    | Create   // no cached vote for the post
    | Remove   // the cached vote has the requested value: a toggle-off
    | Flip     // the cached vote has another value

  /** The vote state machine: what a request of value `vote` does to the cached vote. */
  function DecideVote(existing: Option<PostVote>, vote: int): VoteAction {
    match existing
    case None => Create
    case Some(v) => if v.voteValue == vote then Remove else Flip
  }

  /** `voteChange`: how far the score moves for an action. */
  function ScoreChange(a: VoteAction, vote: int): int {
    match a
    case Create => vote
    case Remove => -vote
    case Flip => 2 * vote
  }

  /** `posts[posts.findIndex(p => p.id === id)] = updated`; a post that is not in the
      list leaves it as it was. */
  function ReplaceFirst(posts: seq<Post>, id: Option<string>, updated: Post): (r: seq<Post>)
    ensures |r| == |posts|
    ensures forall j :: 0 <= j < |r| && r[j] != posts[j] ==> r[j] == updated && posts[j].id == id
    ensures forall j :: 0 <= j < |posts| && posts[j].id == id ==> exists k :: 0 <= k <= j && r[k] == updated
    // only the first post with the id changes: every changed position has no earlier post with the id
    ensures forall j :: 0 <= j < |r| && r[j] != posts[j] ==> forall i :: 0 <= i < j ==> posts[i].id != id
    ensures forall j :: 0 <= j < |posts| && posts[j].id == id && (forall i :: 0 <= i < j ==> posts[i].id != id) ==>
              r[j] == updated
  {
    match FirstIndex(posts, (p: Post) => p.id == id)
    case None => posts
    case Some(i) => posts[i := updated]
  }

  /** `votes[votes.findIndex(v => v.id === nv.id)] = nv` for a vote that is
      cached: the first cached entry with `nv`'s id is replaced by `nv`. */
  function RewriteFirst(votes: seq<PostVote>, nv: PostVote): (r: seq<PostVote>)
    requires exists j :: 0 <= j < |votes| && votes[j].id == nv.id
    ensures exists j :: 0 <= j < |votes| && votes[j].id == nv.id
              && (forall i :: 0 <= i < j ==> votes[i].id != nv.id)
              && r == votes[j := nv]
  {
    var j := FirstIndex(votes, (v: PostVote) => v.id == nv.id).value;
    votes[j := nv]
  }

  /** The outcome of a vote click. */
  datatype VoteResult =
    | LoginRequired
      // the login view of the auth modal opens; nothing else changes
    | Voted(state: PostState, updatedPost: Post, batch: seq<Write>)
      // the cached state as it is set right away, the post as re-rendered, and the batch then submitted

  /** `onVote`. `newVoteId` is the id the store hands out for a new vote record.
      The post must carry its id: the handler asserts it is there. */
  function OnVote(user: Option<string>, state: PostState, post: Post, vote: int,
                  communityId: string, newVoteId: string): (r: VoteResult)
    requires post.id.Some?
    ensures r.LoginRequired? <==> user.None?
    ensures r.Voted? ==> |r.batch| == 2
    // the score written to the store is the score shown locally
    ensures r.Voted? ==> r.batch[1] == SetVoteStatus(PostKey(post.id.value), r.updatedPost.voteStatus)
    // only the score of the post changes
    ensures r.Voted? ==> r.updatedPost == post.(voteStatus := r.updatedPost.voteStatus)
    // the post list: the first post with the id is replaced, nothing else
    ensures r.Voted? ==> r.state.posts == ReplaceFirst(state.posts, post.id, r.updatedPost)
    // an open post view shows the voted post, whichever post it showed before
    ensures r.Voted? ==> r.state.selectedPost == (if state.selectedPost.Some? then Some(r.updatedPost) else None)
    // no cached vote: a new record with the requested value is cached, created, and counted
    ensures r.Voted? && VoteIndexFor(state.postVotes, post.id).None? ==>
      var nv := PostVote(newVoteId, post.id.value, communityId, vote);
      && r.state.postVotes == state.postVotes + [nv]
      && r.batch[0] == Set(VoteKey(user.value, newVoteId), VoteDoc(nv))
      && r.updatedPost.voteStatus == post.voteStatus + vote
    // cached vote with the requested value: every cached vote with its id goes, the record is deleted
    ensures r.Voted? && VoteIndexFor(state.postVotes, post.id).Some? ==>
      var ev := state.postVotes[VoteIndexFor(state.postVotes, post.id).value];
      ev.voteValue == vote ==>
        && r.state.postVotes == Filter(state.postVotes, (v: PostVote) => v.id != ev.id)
        && r.batch[0] == Delete(VoteKey(user.value, ev.id))
        && r.updatedPost.voteStatus == post.voteStatus - vote
    // cached vote with another value: the first cached entry with its id is
    // rewritten in place, the record updated
    ensures r.Voted? && VoteIndexFor(state.postVotes, post.id).Some? ==>
      var ev := state.postVotes[VoteIndexFor(state.postVotes, post.id).value];
      ev.voteValue != vote ==>
        && |r.state.postVotes| == |state.postVotes|
        && (exists j :: 0 <= j < |state.postVotes| && state.postVotes[j].id == ev.id
              && (forall i :: 0 <= i < j ==> state.postVotes[i].id != ev.id)
              && r.state.postVotes == state.postVotes[j := ev.(voteValue := vote)])
        && r.batch[0] == SetVoteValue(VoteKey(user.value, ev.id), vote)
        && r.updatedPost.voteStatus == post.voteStatus + 2 * vote
  {
    match user
    case None => LoginRequired
    case Some(uid) =>
      var pid := post.id.value;
      var existing :=
        match VoteIndexFor(state.postVotes, post.id)
        case None => None
        case Some(i) => Some(state.postVotes[i]);
      var action := DecideVote(existing, vote);
      var change := ScoreChange(action, vote);
      var updatedPost := post.(voteStatus := post.voteStatus + change);
      var (votes, recordWrite) :=
        match action
        case Create =>
          var nv := PostVote(newVoteId, pid, communityId, vote);
          (state.postVotes + [nv], Set(VoteKey(uid, newVoteId), VoteDoc(nv)))
        case Remove =>
          var ev := existing.value;
          (Filter(state.postVotes, (v: PostVote) => v.id != ev.id), Delete(VoteKey(uid, ev.id)))
        case Flip =>
          var ev := existing.value;
          (RewriteFirst(state.postVotes, ev.(voteValue := vote)), SetVoteValue(VoteKey(uid, ev.id), vote));
      var selected := if state.selectedPost.Some? then Some(updatedPost) else None;
      Voted(PostState(selected, ReplaceFirst(state.posts, post.id, updatedPost), votes),
            updatedPost,
            [recordWrite, SetVoteStatus(PostKey(pid), post.voteStatus + change)])
  }

  /** `onSelectPost`: the chosen post becomes the one shown on its own page. */
  function OnSelectPost(state: PostState, post: Post): (r: PostState)
    ensures r.selectedPost == Some(post)
    ensures r.posts == state.posts && r.postVotes == state.postVotes
  {
    state.(selectedPost := Some(post))
  }

  /** The outcome of `onDeletePost`: its boolean answer, the cached state, the
      store, and whether the post's stored image was removed. */
  datatype DeleteResult = DeleteResult(success: bool, state: PostState, store: Store, imageRemoved: bool)

  /** Does the post carry an image (`if (post.imageURL)`: present and not empty)? */
  predicate HasImageURL(post: Post) {
    post.imageURL.Some? && post.imageURL.value != ""
  }

  /** `onDeletePost`. The image (if the post has one) is removed first and the
      document second, as two separate requests; `imageDeleteOk` and
      `docDeleteOk` are their outcomes. A post without an id cannot name its
      document, so the handler fails before deleting one. */
  function OnDeletePost(state: PostState, store: Store, post: Post,
                        imageDeleteOk: bool, docDeleteOk: bool): (r: DeleteResult)
    ensures r.success <==> post.id.Some? && (!HasImageURL(post) || imageDeleteOk) && docDeleteOk
    ensures r.imageRemoved <==> post.id.Some? && HasImageURL(post) && imageDeleteOk
    // on success exactly the posts with that id leave the list, in order
    ensures r.success ==> forall p :: p in r.state.posts <==> p in state.posts && p.id != post.id
    ensures r.success ==> r.state.posts == Filter(state.posts, (p: Post) => p.id != post.id)
    ensures r.success ==> post.id.Some? && Get(r.store, PostKey(post.id.value)).None?
    ensures r.success ==> forall k :: k != PostKey(post.id.value) ==> Get(r.store, k) == Get(store, k)
    // on failure the list and the store are as before
    ensures !r.success ==> r.state.posts == state.posts && r.store == store
    ensures r.state.selectedPost == state.selectedPost && r.state.postVotes == state.postVotes
  {
    var imageRemoved := HasImageURL(post) && imageDeleteOk;
    if post.id.None? then
      DeleteResult(false, state, store, false)
    else if HasImageURL(post) && !imageDeleteOk then
      DeleteResult(false, state, store, false)
    else if !docDeleteOk then
      DeleteResult(false, state, store, imageRemoved)
    else
      var s' := ApplyWrite(store, Delete(PostKey(post.id.value))).value;
      DeleteResult(true, state.(posts := Filter(state.posts, (p: Post) => p.id != post.id)), s', imageRemoved)
  }

  /** `getCommunityPostVotes`, as triggered on entering a community: with a
      signed-in user and a current community with a non-empty id, the cached
      votes become the fetched ones. `fetched` is absent when the query fails;
      the handler has no catch, so the votes then stay as they were. */
  function LoadCommunityVotes(state: PostState, user: Option<string>,
                              current: Option<Community>, fetched: Option<seq<PostVote>>): (r: PostState)
    ensures user.Some? && current.Some? && current.value.id != "" && fetched.Some? ==> r.postVotes == fetched.value
    ensures !(user.Some? && current.Some? && current.value.id != "" && fetched.Some?) ==> r.postVotes == state.postVotes
    ensures r.posts == state.posts && r.selectedPost == state.selectedPost
  {
    if user.Some? && current.Some? && current.value.id != "" && fetched.Some? then state.(postVotes := fetched.value)
    else state
  }

  /** Signing out clears the cached votes and nothing else. */
  function ClearVotesOnSignOut(state: PostState, user: Option<string>): (r: PostState)
    ensures user.None? ==> |r.postVotes| == 0
    ensures user.Some? ==> r.postVotes == state.postVotes
    ensures r.posts == state.posts && r.selectedPost == state.selectedPost
  {
    if user.None? then state.(postVotes := []) else state
  }
}
