/** Laws of the vote handler over one call and over a sequence of calls:
    the vote cache keeps at most one vote per post, the lookup the views use
    sees the toggled vote, and a single user's score is always that user's
    current vote. */
module VoteLaws {
  import opened Common
  import opened PostAtom
  import opened DocStore
  import opened UsePosts

  /** The record ids present in the vote cache. */
  function VoteIds(votes: seq<PostVote>): set<string> {
    set v | v in votes :: v.id
  }

  /** Filtering a well-formed vote cache keeps it well formed. */
  lemma {:induction false} FilterKeepsWellFormed(votes: seq<PostVote>, keep: PostVote -> bool)
    requires WellFormedVotes(votes)
    ensures WellFormedVotes(Filter(votes, keep))
  {
    if |votes| > 0 {
      var tail := votes[1..];
      assert WellFormedVotes(tail) by {
        forall i, j | 0 <= i < j < |tail| ensures tail[i].id != tail[j].id && tail[i].postId != tail[j].postId {
          assert tail[i] == votes[i + 1] && tail[j] == votes[j + 1];
        }
      }
      FilterKeepsWellFormed(tail, keep);
      if keep(votes[0]) {
        var f := Filter(tail, keep);
        var r := [votes[0]] + f;
        forall j | 0 < j < |r| ensures r[0].id != r[j].id && r[0].postId != r[j].postId {
          assert r[j] in f;
          assert r[j] in tail;
          var m :| 0 <= m < |tail| && tail[m] == r[j];
          assert votes[m + 1] == r[j];
        }
        forall i, j | 0 < i < j < |r| ensures r[i].id != r[j].id && r[i].postId != r[j].postId {
          assert r[i] == f[i - 1] && r[j] == f[j - 1];
        }
      }
    }
  }

  /** Appending a vote for a post with no cached vote, under a new id, keeps the cache well formed. */
  lemma AppendKeepsWellFormed(votes: seq<PostVote>, nv: PostVote)
    requires WellFormedVotes(votes)
    requires nv.id !in VoteIds(votes)
    requires forall j :: 0 <= j < |votes| ==> votes[j].postId != nv.postId
    ensures WellFormedVotes(votes + [nv])
    ensures VoteIds(votes + [nv]) == VoteIds(votes) + {nv.id}
  {
    var after := votes + [nv];
    forall i, j | 0 <= i < j < |after| ensures after[i].id != after[j].id && after[i].postId != after[j].postId {
      if j == |votes| {
        assert after[i] == votes[i];
        assert votes[i] in votes;
      }
    }
  }

  /** Rewriting an entry in place, with the same id and post, keeps the cache well formed. */
  lemma RewriteKeepsWellFormed(votes: seq<PostVote>, i: nat, x: PostVote)
    requires WellFormedVotes(votes)
    requires i < |votes| && x.id == votes[i].id && x.postId == votes[i].postId
    ensures WellFormedVotes(votes[i := x])
    ensures VoteIds(votes[i := x]) == VoteIds(votes)
  {
    var after := votes[i := x];
    assert forall k :: 0 <= k < |after| ==> after[k].id == votes[k].id && after[k].postId == votes[k].postId;
    forall id | id in VoteIds(votes) ensures id in VoteIds(after) {
      var v :| v in votes && v.id == id;
      var k :| 0 <= k < |votes| && votes[k] == v;
      assert after[k] in after;
    }
  }

  /** One vote keeps the cache well formed and made of upvotes and downvotes,
      and brings in no record id other than the store's new one. */
  lemma OnVoteKeepsWellFormed(uid: string, state: PostState, post: Post, vote: int,
                              communityId: string, newVoteId: string)
    requires post.id.Some?
    requires WellFormedVotes(state.postVotes)
    requires newVoteId !in VoteIds(state.postVotes)
    ensures OnVote(Some(uid), state, post, vote, communityId, newVoteId).Voted?
    ensures var after := OnVote(Some(uid), state, post, vote, communityId, newVoteId).state.postVotes;
      && WellFormedVotes(after)
      && VoteIds(after) <= VoteIds(state.postVotes) + {newVoteId}
      && (UnitVotes(state.postVotes) && (vote == 1 || vote == -1) ==> UnitVotes(after))
  {
    var votes := state.postVotes;
    var after := OnVote(Some(uid), state, post, vote, communityId, newVoteId).state.postVotes;
    match VoteIndexFor(votes, post.id)
    case None =>
      AppendKeepsWellFormed(votes, PostVote(newVoteId, post.id.value, communityId, vote));
    case Some(i) =>
      var ev := votes[i];
      if ev.voteValue == vote {
        FilterKeepsWellFormed(votes, (v: PostVote) => v.id != ev.id);
      } else {
        var j :| 0 <= j < |votes| && votes[j].id == ev.id && after == votes[j := ev.(voteValue := vote)];
        assert j == i;
        RewriteKeepsWellFormed(votes, i, ev.(voteValue := vote));
      }
  }

  /** What the views read back after a vote: the requested value, or nothing
      when the request repeats the vote already cast. */
  lemma OnVoteTogglesUserVote(uid: string, state: PostState, post: Post, vote: int,
                              communityId: string, newVoteId: string)
    requires post.id.Some?
    requires WellFormedVotes(state.postVotes)
    ensures OnVote(Some(uid), state, post, vote, communityId, newVoteId).Voted?
    ensures UserVoteValue(OnVote(Some(uid), state, post, vote, communityId, newVoteId).state.postVotes, post.id)
         == (if UserVoteValue(state.postVotes, post.id) == Some(vote) then None else Some(vote))
  {
    var votes := state.postVotes;
    var r := OnVote(Some(uid), state, post, vote, communityId, newVoteId);
    var after := r.state.postVotes;
    match VoteIndexFor(votes, post.id)
    case None =>
      assert VoteIsFor(after[|votes|], post.id);
      assert VoteIndexFor(after, post.id) == Some(|votes|);
    case Some(i) =>
      var ev := votes[i];
      if ev.voteValue == vote {
        forall j | 0 <= j < |after| ensures !VoteIsFor(after[j], post.id) {
          assert after[j] in votes;
          var m :| 0 <= m < |votes| && votes[m] == after[j];
          assert after[j].id != ev.id;
          assert VoteIsFor(after[j], post.id) ==> m == i;
        }
      } else {
        var j :| 0 <= j < |votes| && votes[j].id == ev.id && after == votes[j := ev.(voteValue := vote)];
        assert VoteIsFor(after[j], post.id);
        assert j == i;
        assert forall k :: 0 <= k < |after| && k != j ==> after[k] == votes[k];
        assert VoteIndexFor(after, post.id) == Some(i);
      }
  }

  /** The score moves by exactly the change in the user's vote, provided the
      cached votes and the request are upvotes or downvotes. */
  lemma OnVoteScoreFollowsVote(uid: string, state: PostState, post: Post, vote: int,
                               communityId: string, newVoteId: string)
    requires post.id.Some?
    requires WellFormedVotes(state.postVotes) && UnitVotes(state.postVotes)
    requires vote == 1 || vote == -1
    ensures OnVote(Some(uid), state, post, vote, communityId, newVoteId).Voted?
    ensures var r := OnVote(Some(uid), state, post, vote, communityId, newVoteId);
      r.updatedPost.voteStatus - post.voteStatus
        == UserVoteValue(r.state.postVotes, post.id).GetOr(0) - UserVoteValue(state.postVotes, post.id).GetOr(0)
  {
    OnVoteTogglesUserVote(uid, state, post, vote, communityId, newVoteId);
  }

  /** Record ids the store hands out: pairwise different and not already cached. */
  ghost predicate FreshIds(votes: seq<PostVote>, ids: seq<string>) {
    && (forall i, j :: 0 <= i < j < |ids| ==> ids[i] != ids[j])
    && (forall i :: 0 <= i < |ids| ==> ids[i] !in VoteIds(votes))
  }

  /** One user clicking on one post again and again: each click passes the
      post as re-rendered after the previous click. */
  function ReplayClicks(uid: string, state: PostState, post: Post, communityId: string,
                        dirs: seq<int>, ids: seq<string>): (r: (PostState, Post))
    requires post.id.Some? && |ids| == |dirs|
    ensures r.1.id == post.id
    decreases |dirs|
  {
    if |dirs| == 0 then (state, post)
    else
      var v := OnVote(Some(uid), state, post, dirs[0], communityId, ids[0]);
      ReplayClicks(uid, v.state, v.updatedPost, communityId, dirs[1..], ids[1..])
  }

  /** Score reconstruction for a single voter: whatever the clicks, the score
      is the score without this user plus this user's current vote (0 when none). */
  lemma {:induction false} ScoreIsBasePlusUserVote(uid: string, state: PostState, post: Post, communityId: string,
                                                   dirs: seq<int>, ids: seq<string>, base: int)
    requires post.id.Some? && |ids| == |dirs|
    requires forall i :: 0 <= i < |dirs| ==> dirs[i] == 1 || dirs[i] == -1
    requires WellFormedVotes(state.postVotes) && UnitVotes(state.postVotes)
    requires FreshIds(state.postVotes, ids)
    requires post.voteStatus == base + UserVoteValue(state.postVotes, post.id).GetOr(0)
    ensures var (s, p) := ReplayClicks(uid, state, post, communityId, dirs, ids);
      p.voteStatus == base + UserVoteValue(s.postVotes, post.id).GetOr(0)
    ensures WellFormedVotes(ReplayClicks(uid, state, post, communityId, dirs, ids).0.postVotes)
    decreases |dirs|
  {
    if |dirs| > 0 {
      var v := OnVote(Some(uid), state, post, dirs[0], communityId, ids[0]);
      OnVoteKeepsWellFormed(uid, state, post, dirs[0], communityId, ids[0]);
      OnVoteScoreFollowsVote(uid, state, post, dirs[0], communityId, ids[0]);
      assert FreshIds(v.state.postVotes, ids[1..]) by {
        forall i | 0 <= i < |ids[1..]| ensures ids[1..][i] !in VoteIds(v.state.postVotes) {
          assert ids[1..][i] == ids[i + 1] && ids[i + 1] != ids[0];
        }
      }
      ScoreIsBasePlusUserVote(uid, v.state, v.updatedPost, communityId, dirs[1..], ids[1..], base);
    }
  }

  /** The property as usually stated: a post at score 0 that this user has not
      voted on always shows this user's current vote as its score, or 0. */
  lemma FromZeroScoreIsUserVote(uid: string, state: PostState, post: Post, communityId: string,
                                dirs: seq<int>, ids: seq<string>)
    requires post.id.Some? && |ids| == |dirs|
    requires forall i :: 0 <= i < |dirs| ==> dirs[i] == 1 || dirs[i] == -1
    requires WellFormedVotes(state.postVotes) && UnitVotes(state.postVotes)
    requires FreshIds(state.postVotes, ids)
    requires post.voteStatus == 0 && UserVoteValue(state.postVotes, post.id).None?
    ensures var (s, p) := ReplayClicks(uid, state, post, communityId, dirs, ids);
      p.voteStatus == UserVoteValue(s.postVotes, post.id).GetOr(0)
  {
    ScoreIsBasePlusUserVote(uid, state, post, communityId, dirs, ids, 0);
  }

  /** One click of a session: the post clicked, the direction, and the record
      id the store would hand out. */
  datatype Click = Click(post: Post, vote: int, communityId: string, newVoteId: string)

  /** A session of clicks on any posts, by one signed-in user. */
  function ReplaySession(uid: string, state: PostState, clicks: seq<Click>): PostState
    requires forall i :: 0 <= i < |clicks| ==> clicks[i].post.id.Some?
    decreases |clicks|
  {
    if |clicks| == 0 then state
    else
      var c := clicks[0];
      ReplaySession(uid, OnVote(Some(uid), state, c.post, c.vote, c.communityId, c.newVoteId).state, clicks[1..])
  }

  /** Across any session the cache holds at most one vote per post. */
  lemma {:induction false} SessionKeepsOneVotePerPost(uid: string, state: PostState, clicks: seq<Click>)
    requires forall i :: 0 <= i < |clicks| ==> clicks[i].post.id.Some?
    requires WellFormedVotes(state.postVotes)
    requires forall i :: 0 <= i < |clicks| ==> clicks[i].newVoteId !in VoteIds(state.postVotes)
    requires forall i, j :: 0 <= i < j < |clicks| ==> clicks[i].newVoteId != clicks[j].newVoteId
    ensures OneVotePerPost(ReplaySession(uid, state, clicks).postVotes)
    decreases |clicks|
  {
    if |clicks| > 0 {
      var c := clicks[0];
      var s' := OnVote(Some(uid), state, c.post, c.vote, c.communityId, c.newVoteId).state;
      OnVoteKeepsWellFormed(uid, state, c.post, c.vote, c.communityId, c.newVoteId);
      forall i | 0 <= i < |clicks[1..]| ensures clicks[1..][i].newVoteId !in VoteIds(s'.postVotes) {
        assert clicks[1..][i] == clicks[i + 1];
      }
      SessionKeepsOneVotePerPost(uid, s', clicks[1..]);
    }
  }

  /** With at most one vote per post on each side, two caches that hold the
      same votes for a post show the same vote for it. */
  lemma SameVotesSameValue(a: seq<PostVote>, b: seq<PostVote>, q: Option<string>)
    requires OneVotePerPost(a) && OneVotePerPost(b)
    requires forall v :: v in a && VoteIsFor(v, q) ==> v in b
    requires forall v :: v in b && VoteIsFor(v, q) ==> v in a
    ensures UserVoteValue(a, q) == UserVoteValue(b, q)
  {
    match VoteIndexFor(a, q)
    case None =>
      assert forall k :: 0 <= k < |b| ==> b[k] in b;
    case Some(i) =>
      assert a[i] in b;
      var k :| 0 <= k < |b| && b[k] == a[i];
      LookupFindsTheVote(a, i);
      LookupFindsTheVote(b, k);
  }

  /** A vote on one post leaves what the views show for every other post. */
  lemma OnVoteLeavesOtherPosts(uid: string, state: PostState, post: Post, vote: int,
                               communityId: string, newVoteId: string, q: Option<string>)
    requires post.id.Some? && q != post.id
    requires WellFormedVotes(state.postVotes)
    requires newVoteId !in VoteIds(state.postVotes)
    ensures OnVote(Some(uid), state, post, vote, communityId, newVoteId).Voted?
    ensures UserVoteValue(OnVote(Some(uid), state, post, vote, communityId, newVoteId).state.postVotes, q)
         == UserVoteValue(state.postVotes, q)
  {
    var votes := state.postVotes;
    var after := OnVote(Some(uid), state, post, vote, communityId, newVoteId).state.postVotes;
    OnVoteKeepsWellFormed(uid, state, post, vote, communityId, newVoteId);
    match VoteIndexFor(votes, post.id)
    case None =>
      assert after == votes + [PostVote(newVoteId, post.id.value, communityId, vote)];
      SameVotesSameValue(votes, after, q);
    case Some(i) =>
      var ev := votes[i];
      if ev.voteValue == vote {
        assert after == Filter(votes, (v: PostVote) => v.id != ev.id);
        forall v | v in votes && VoteIsFor(v, q) ensures v in after {
          var m :| 0 <= m < |votes| && votes[m] == v;
          assert m != i;
          assert v.id != ev.id;
        }
        SameVotesSameValue(votes, after, q);
      } else {
        var j :| 0 <= j < |votes| && votes[j].id == ev.id && after == votes[j := ev.(voteValue := vote)];
        assert j == i;
        forall v | v in votes && VoteIsFor(v, q) ensures v in after {
          var m :| 0 <= m < |votes| && votes[m] == v;
          assert m != i && after[m] == v;
        }
        forall v | v in after && VoteIsFor(v, q) ensures v in votes {
          var m :| 0 <= m < |after| && after[m] == v;
          assert m != i && votes[m] == v;
        }
        SameVotesSameValue(votes, after, q);
      }
  }

  /** The worked example of the vote state machine: on a post at score 0 that
      the user has not voted on, up, up, down, up give scores 1, 0, -1, 1. */
  lemma UpUpDownUpScores(uid: string, post: Post, communityId: string)
    requires post.id.Some? && post.voteStatus == 0
    ensures var s0 := DefaultPostState();
      var r1 := OnVote(Some(uid), s0, post, 1, communityId, "v1");
      var r2 := OnVote(Some(uid), r1.state, r1.updatedPost, 1, communityId, "v2");
      var r3 := OnVote(Some(uid), r2.state, r2.updatedPost, -1, communityId, "v3");
      var r4 := OnVote(Some(uid), r3.state, r3.updatedPost, 1, communityId, "v4");
      && r1.updatedPost.voteStatus == 1 && UserVoteValue(r1.state.postVotes, post.id) == Some(1)
      && r2.updatedPost.voteStatus == 0 && UserVoteValue(r2.state.postVotes, post.id).None?
      && r3.updatedPost.voteStatus == -1 && UserVoteValue(r3.state.postVotes, post.id) == Some(-1)
      && r4.updatedPost.voteStatus == 1 && UserVoteValue(r4.state.postVotes, post.id) == Some(1)
  {
    var s0 := DefaultPostState();
    var r1 := OnVote(Some(uid), s0, post, 1, communityId, "v1");
    OnVoteTogglesUserVote(uid, s0, post, 1, communityId, "v1");
    OnVoteKeepsWellFormed(uid, s0, post, 1, communityId, "v1");
    var r2 := OnVote(Some(uid), r1.state, r1.updatedPost, 1, communityId, "v2");
    OnVoteTogglesUserVote(uid, r1.state, r1.updatedPost, 1, communityId, "v2");
    OnVoteKeepsWellFormed(uid, r1.state, r1.updatedPost, 1, communityId, "v2");
    var r3 := OnVote(Some(uid), r2.state, r2.updatedPost, -1, communityId, "v3");
    OnVoteTogglesUserVote(uid, r2.state, r2.updatedPost, -1, communityId, "v3");
    OnVoteKeepsWellFormed(uid, r2.state, r2.updatedPost, -1, communityId, "v3");
    var r4 := OnVote(Some(uid), r3.state, r3.updatedPost, 1, communityId, "v4");
    OnVoteTogglesUserVote(uid, r3.state, r3.updatedPost, 1, communityId, "v4");
  }

  /** Not a property of the handler: voting in the list while another post is
      open on its own page replaces the open post with the voted one. */
  lemma VoteReplacesOtherOpenPost(uid: string, state: PostState, post: Post, vote: int,
                                  communityId: string, newVoteId: string)
    requires post.id.Some?
    requires state.selectedPost.Some? && state.selectedPost.value.id != post.id
    ensures var r := OnVote(Some(uid), state, post, vote, communityId, newVoteId);
      && r.Voted?
      && r.state.selectedPost.Some? && r.state.selectedPost.value.id == post.id
      && r.state.selectedPost != state.selectedPost
  {
  }
}
