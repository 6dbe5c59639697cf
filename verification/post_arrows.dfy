/** The arrows a post shows after a click on one of them. */
module PostArrows {
  import opened Common
  import opened PostAtom
  import opened UsePosts
  import opened VoteLaws
  import opened PostItem

  /** Clicking an arrow fills that arrow alone, unless it was already filled,
      in which case neither arrow is filled any more. */
  lemma ArrowClickToggles(uid: string, state: PostState, post: Post, arrow: Arrow,
                          communityId: string, newVoteId: string)
    requires post.id.Some?
    requires WellFormedVotes(state.postVotes)
    ensures var before := ArrowsFor(UserVoteValue(state.postVotes, post.id));
      var r := OnVote(Some(uid), state, post, VoteOf(arrow), communityId, newVoteId);
      var after := ArrowsFor(UserVoteValue(r.state.postVotes, post.id));
      && (arrow == Up && before.up ==> !after.up && !after.down)
      && (arrow == Up && !before.up ==> after.up && !after.down)
      && (arrow == Down && before.down ==> !after.up && !after.down)
      && (arrow == Down && !before.down ==> !after.up && after.down)
  {
    OnVoteTogglesUserVote(uid, state, post, VoteOf(arrow), communityId, newVoteId);
  }
}
