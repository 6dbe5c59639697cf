/** The post list of a community page: one item per cached post, each told
    whether the user wrote it and how the user voted on it. */
module PostsList {
  import opened Common
  import opened PostAtom
  import opened UsePosts
  import opened VoteLaws

  /** What each list item is given. */
  datatype ItemProps = ItemProps(post: Post, userIsCreator: bool, userVoteValue: Option<int>)

  /** The props of one item: the user wrote the post when the signed-in id is
      its creator's; the vote is the first cached vote for the post. */
  function PropsFor(user: Option<string>, votes: seq<PostVote>, post: Post): (r: ItemProps)
    ensures r.post == post
    ensures r.userIsCreator <==> user.Some? && user.value == post.creatorId
    ensures r.userVoteValue.Some? <==> exists j :: 0 <= j < |votes| && VoteIsFor(votes[j], post.id)
    ensures r.userVoteValue == UserVoteValue(votes, post.id)
    ensures r.userVoteValue.Some? ==> r.userVoteValue.value == votes[VoteIndexFor(votes, post.id).value].voteValue
  {
    ItemProps(post, user == Some(post.creatorId), UserVoteValue(votes, post.id))
  }

  /** The list: exactly one item per cached post, in the cached order. */
  function RenderPosts(user: Option<string>, state: PostState): (r: seq<ItemProps>)
    ensures |r| == |state.posts|
    ensures forall k :: 0 <= k < |r| ==> r[k].post == state.posts[k]
    ensures forall k :: 0 <= k < |r| ==> r[k] == PropsFor(user, state.postVotes, state.posts[k])
    ensures user.None? ==> forall k :: 0 <= k < |r| ==> !r[k].userIsCreator
  {
    seq(|state.posts|, k requires 0 <= k < |state.posts| => PropsFor(user, state.postVotes, state.posts[k]))
  }

  /** `getPosts`: the fetched posts replace the list, nothing else changes. */
  function SetPosts(state: PostState, fetched: seq<Post>): (r: PostState)
    ensures r.posts == fetched
    ensures r.selectedPost == state.selectedPost && r.postVotes == state.postVotes
  {
    state.(posts := fetched)
  }

  /** How a list re-renders when only the items for one post id may change. */
  lemma RenderChangesOnlyOnePost(user: Option<string>, s: PostState, s': PostState,
                                 pid: Option<string>, updated: Post, newValue: Option<int>)
    requires |s'.posts| == |s.posts| && updated.id == pid
    requires forall k :: 0 <= k < |s.posts| && s'.posts[k] != s.posts[k] ==> s'.posts[k] == updated && s.posts[k].id == pid
    requires forall k :: 0 <= k < |s.posts| && s.posts[k].id != pid ==>
               UserVoteValue(s'.postVotes, s.posts[k].id) == UserVoteValue(s.postVotes, s.posts[k].id)
    requires UserVoteValue(s'.postVotes, pid) == newValue
    ensures var before := RenderPosts(user, s);
      var after := RenderPosts(user, s');
      && |after| == |before|
      && (forall k :: 0 <= k < |after| && s.posts[k].id != pid ==> after[k] == before[k])
      && (forall k :: 0 <= k < |after| && s.posts[k].id == pid ==>
            && after[k].userVoteValue == newValue
            && (after[k].post == before[k].post || after[k].post == updated))
  {
    var before := RenderPosts(user, s);
    var after := RenderPosts(user, s');
    forall k | 0 <= k < |after| && s.posts[k].id == pid
      ensures after[k].userVoteValue == newValue
    {
      assert s'.posts[k].id == pid;
    }
  }

  /** After a vote, the list re-renders: every item for the voted post shows
      the toggled vote (and the first of them the new score), and every item
      for another post is exactly as before. */
  lemma VoteRerendersOneItem(uid: string, state: PostState, post: Post, vote: int,
                             communityId: string, newVoteId: string)
    requires post.id.Some?
    requires WellFormedVotes(state.postVotes)
    requires newVoteId !in VoteIds(state.postVotes)
    ensures OnVote(Some(uid), state, post, vote, communityId, newVoteId).Voted?
    ensures var r := OnVote(Some(uid), state, post, vote, communityId, newVoteId);
      var before := RenderPosts(Some(uid), state);
      var after := RenderPosts(Some(uid), r.state);
      && |after| == |before|
      && (forall k :: 0 <= k < |after| && state.posts[k].id != post.id ==> after[k] == before[k])
      && (forall k :: 0 <= k < |after| && state.posts[k].id == post.id ==>
            && after[k].userVoteValue == (if UserVoteValue(state.postVotes, post.id) == Some(vote) then None else Some(vote))
            && (after[k].post == before[k].post || after[k].post == r.updatedPost))
  {
    var r := OnVote(Some(uid), state, post, vote, communityId, newVoteId);
    OnVoteTogglesUserVote(uid, state, post, vote, communityId, newVoteId);
    forall k | 0 <= k < |state.posts| && state.posts[k].id != post.id
      ensures UserVoteValue(r.state.postVotes, state.posts[k].id) == UserVoteValue(state.postVotes, state.posts[k].id)
    {
      OnVoteLeavesOtherPosts(uid, state, post, vote, communityId, newVoteId, state.posts[k].id);
    }
    RenderChangesOnlyOnePost(Some(uid), state, r.state, post.id, r.updatedPost,
                             if UserVoteValue(state.postVotes, post.id) == Some(vote) then None else Some(vote));
  }
}
