/** The post-side shapes the client keeps in its global `postState`:
    posts, the signed-in user's vote records, and the lookups every view
    uses to read them. */
module PostAtom {
  import opened Common

  /** A post. `id` is absent until the document has been written (the client
      builds new posts without one); the two counters are plain numbers.
      The creation timestamp is not modelled. */
  datatype Post = Post(
    id: Option<string>,
    communityId: string,
    creatorId: string,
    creatorDisplayName: string,
    title: string,
    body: string,
    numberOfComments: int,
    voteStatus: int,
    imageURL: Option<string>,
    communityImageURL: Option<string>)

  /** One of the user's vote records. `voteValue` is any number as far as
      the type goes; only the callers restrict it to +1 and -1. */
  datatype PostVote = PostVote(id: string, postId: string, communityId: string, voteValue: int)

  /** The cached post state: the post shown on its own page, the list on the
      community page, and the user's votes for that community. */
  datatype PostState = PostState(selectedPost: Option<Post>, posts: seq<Post>, postVotes: seq<PostVote>)

  /** The state before anything is fetched. */
  function DefaultPostState(): (s: PostState)
    ensures s.selectedPost.None? && |s.posts| == 0 && |s.postVotes| == 0
  {
    PostState(None, [], [])
  }

  /** Does vote `v` belong to the post whose (optional) id is `postId`?
      A post without an id matches no vote (`vote.postId === undefined` is false). */
  predicate VoteIsFor(v: PostVote, postId: Option<string>) {
    postId == Some(v.postId)
  }

  /** Position of the first cached vote for the post: `postVotes.find(v => v.postId === id)`. */
  function VoteIndexFor(votes: seq<PostVote>, postId: Option<string>): (r: Option<nat>)
    ensures r.Some? ==> r.value < |votes| && VoteIsFor(votes[r.value], postId)
    ensures r.Some? ==> forall j :: 0 <= j < r.value ==> !VoteIsFor(votes[j], postId)
    ensures r.None? <==> forall j :: 0 <= j < |votes| ==> !VoteIsFor(votes[j], postId)
  {
    FirstIndex(votes, v => VoteIsFor(v, postId))
  }

  /** The user's vote on a post as the views read it: the `voteValue` of the
      first cached vote for that post, or absent when there is none. */
  function UserVoteValue(votes: seq<PostVote>, postId: Option<string>): (r: Option<int>)
    ensures r.None? <==> forall j :: 0 <= j < |votes| ==> !VoteIsFor(votes[j], postId)
    ensures r.Some? ==> exists j :: 0 <= j < |votes| && VoteIsFor(votes[j], postId) && votes[j].voteValue == r.value
    // the value is the first matching vote's, as `find` returns
    ensures r.Some? ==> VoteIndexFor(votes, postId).Some? && r.value == votes[VoteIndexFor(votes, postId).value].voteValue
  {
    match VoteIndexFor(votes, postId)
    case None => None
    case Some(i) => Some(votes[i].voteValue)
  }

  /** No two cached votes share a record id. */
  ghost predicate DistinctVoteIds(votes: seq<PostVote>) {
    forall i, j :: 0 <= i < j < |votes| ==> votes[i].id != votes[j].id
  }

  /** No two cached votes are for the same post: at most one vote per post. */
  ghost predicate OneVotePerPost(votes: seq<PostVote>) {
    forall i, j :: 0 <= i < j < |votes| ==> votes[i].postId != votes[j].postId
  }

  /** The shape the vote cache is meant to keep. */
  ghost predicate WellFormedVotes(votes: seq<PostVote>) {
    DistinctVoteIds(votes) && OneVotePerPost(votes)
  }

  /** Every cached vote is an upvote or a downvote. */
  ghost predicate UnitVotes(votes: seq<PostVote>) {
    forall j :: 0 <= j < |votes| ==> votes[j].voteValue == 1 || votes[j].voteValue == -1
  }

  /** With at most one vote per post, a vote in the cache is the one the lookup finds. */
  lemma LookupFindsTheVote(votes: seq<PostVote>, k: nat)
    requires OneVotePerPost(votes)
    requires k < |votes|
    ensures VoteIndexFor(votes, Some(votes[k].postId)) == Some(k)
    ensures UserVoteValue(votes, Some(votes[k].postId)) == Some(votes[k].voteValue)
  {
    var r := VoteIndexFor(votes, Some(votes[k].postId));
    assert VoteIsFor(votes[k], Some(votes[k].postId));
  }
}
