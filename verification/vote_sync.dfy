/** How the vote handler's cached state relates to the store. When its batch
    commits, the store ends up holding exactly the cached vote for the post
    and the cached score. When the batch does not commit, the cached state has
    already moved on and the store has not. */
module VoteSync {
  import opened Common
  import opened PostAtom
  import opened DocStore
  import opened UsePosts

  /** Is there a vote record of `uid` for post `pid` stored under `vid`? */
  predicate StoredVoteFor(s: Store, uid: string, vid: string, pid: string) {
    var d := Get(s, VoteKey(uid, vid));
    d.Some? && d.value.VoteDoc? && d.value.vote.postId == pid
  }

  /** The store and the vote cache agree about post `pid`: every cached vote
      for it is stored under its id, and every stored vote for it is cached. */
  ghost predicate StoreMirrorsVotes(s: Store, uid: string, votes: seq<PostVote>, pid: string) {
    && (forall j :: 0 <= j < |votes| && votes[j].postId == pid ==>
          Get(s, VoteKey(uid, votes[j].id)) == Some(VoteDoc(votes[j])))
    && (forall vid :: StoredVoteFor(s, uid, vid, pid) ==>
          exists j :: 0 <= j < |votes| && votes[j].id == vid && Get(s, VoteKey(uid, vid)) == Some(VoteDoc(votes[j])))
  }

  /** The score stored for post `pid`, if the post document exists. */
  function StoredScore(s: Store, pid: string): Option<int> {
    match Get(s, PostKey(pid))
    case Some(PostDoc(p)) => Some(p.voteStatus)
    case _ => None
  }

  /** Setting a post's score leaves every vote record as it was. */
  lemma ScoreWriteKeepsMirror(s: Store, uid: string, votes: seq<PostVote>, pid: string, p: Post)
    requires StoreMirrorsVotes(s, uid, votes, pid)
    ensures StoreMirrorsVotes(s[PostKey(pid) := PostDoc(p)], uid, votes, pid)
  {
    var s2 := s[PostKey(pid) := PostDoc(p)];
    assert forall vid :: Get(s2, VoteKey(uid, vid)) == Get(s, VoteKey(uid, vid));
    forall vid | StoredVoteFor(s2, uid, vid, pid)
      ensures exists j :: 0 <= j < |votes| && votes[j].id == vid && Get(s2, VoteKey(uid, vid)) == Some(VoteDoc(votes[j]))
    {
      assert StoredVoteFor(s, uid, vid, pid);
    }
  }

  /** New vote: the record stored is the record cached. */
  lemma MirrorAfterCreate(s: Store, uid: string, votes: seq<PostVote>, pid: string, nv: PostVote)
    requires nv.postId == pid
    requires forall j :: 0 <= j < |votes| ==> votes[j].postId != pid
    requires StoreMirrorsVotes(s, uid, votes, pid)
    ensures StoreMirrorsVotes(s[VoteKey(uid, nv.id) := VoteDoc(nv)], uid, votes + [nv], pid)
  {
    var s1 := s[VoteKey(uid, nv.id) := VoteDoc(nv)];
    var after := votes + [nv];
    assert forall vid :: !StoredVoteFor(s, uid, vid, pid);
    forall vid | StoredVoteFor(s1, uid, vid, pid)
      ensures exists j :: 0 <= j < |after| && after[j].id == vid && Get(s1, VoteKey(uid, vid)) == Some(VoteDoc(after[j]))
    {
      assert vid == nv.id;
      assert after[|votes|] == nv;
    }
  }

  /** Toggle-off: the record is gone from both. */
  lemma MirrorAfterRemove(s: Store, uid: string, votes: seq<PostVote>, pid: string, i: nat)
    requires OneVotePerPost(votes)
    requires i < |votes| && votes[i].postId == pid
    requires StoreMirrorsVotes(s, uid, votes, pid)
    ensures StoreMirrorsVotes(s - {VoteKey(uid, votes[i].id)}, uid,
                              Filter(votes, (v: PostVote) => v.id != votes[i].id), pid)
  {
    var ev := votes[i];
    var s1 := s - {VoteKey(uid, ev.id)};
    var after := Filter(votes, (v: PostVote) => v.id != ev.id);
    forall j | 0 <= j < |after| ensures after[j].postId != pid {
      assert after[j] in votes;
      var m :| 0 <= m < |votes| && votes[m] == after[j];
      assert after[j].id != ev.id;
      assert votes[m].postId == pid ==> m == i;
    }
    forall vid | StoredVoteFor(s, uid, vid, pid) ensures vid == ev.id {
      var j :| 0 <= j < |votes| && votes[j].id == vid && Get(s, VoteKey(uid, vid)) == Some(VoteDoc(votes[j]));
      assert votes[j].postId == pid;
      assert j == i;
    }
    forall vid ensures !StoredVoteFor(s1, uid, vid, pid) {
      if vid == ev.id {
        assert VoteKey(uid, vid) !in s1;
      } else {
        assert Get(s1, VoteKey(uid, vid)) == Get(s, VoteKey(uid, vid));
      }
    }
  }

  /** Flip: the stored record and the cached entry carry the new value. */
  lemma MirrorAfterFlip(s: Store, uid: string, votes: seq<PostVote>, pid: string, i: nat, vote: int)
    requires OneVotePerPost(votes)
    requires i < |votes| && votes[i].postId == pid
    requires StoreMirrorsVotes(s, uid, votes, pid)
    ensures Get(s, VoteKey(uid, votes[i].id)) == Some(VoteDoc(votes[i]))
    ensures StoreMirrorsVotes(s[VoteKey(uid, votes[i].id) := VoteDoc(votes[i].(voteValue := vote))], uid,
                              votes[i := votes[i].(voteValue := vote)], pid)
  {
    var ev := votes[i];
    var nv := ev.(voteValue := vote);
    var s1 := s[VoteKey(uid, ev.id) := VoteDoc(nv)];
    var after := votes[i := nv];
    forall j | 0 <= j < |after| && after[j].postId == pid
      ensures Get(s1, VoteKey(uid, after[j].id)) == Some(VoteDoc(after[j]))
    {
      assert j == i;
    }
    forall vid | StoredVoteFor(s, uid, vid, pid) ensures vid == ev.id {
      var j :| 0 <= j < |votes| && votes[j].id == vid && Get(s, VoteKey(uid, vid)) == Some(VoteDoc(votes[j]));
      assert votes[j].postId == pid;
      assert j == i;
    }
    forall vid | StoredVoteFor(s1, uid, vid, pid)
      ensures exists j :: 0 <= j < |after| && after[j].id == vid && Get(s1, VoteKey(uid, vid)) == Some(VoteDoc(after[j]))
    {
      assert vid == ev.id;
      assert after[i] == nv;
    }
  }

  /** When the vote batch commits, the store holds exactly the cached vote for
      the post, and the stored score is the score shown. */
  lemma CommittedVoteMirrorsCache(uid: string, state: PostState, post: Post, vote: int,
                                  communityId: string, newVoteId: string, s: Store, delivered: bool)
    requires post.id.Some?
    requires WellFormedVotes(state.postVotes)
    requires StoreMirrorsVotes(s, uid, state.postVotes, post.id.value)
    ensures OnVote(Some(uid), state, post, vote, communityId, newVoteId).Voted?
    ensures var r := OnVote(Some(uid), state, post, vote, communityId, newVoteId);
      var c := Commit(s, r.batch, delivered);
      c.ok ==> && StoreMirrorsVotes(c.store, uid, r.state.postVotes, post.id.value)
               && StoredScore(c.store, post.id.value) == Some(r.updatedPost.voteStatus)
  {
    var pid := post.id.value;
    var votes := state.postVotes;
    var r := OnVote(Some(uid), state, post, vote, communityId, newVoteId);
    var c := Commit(s, r.batch, delivered);
    assert r.batch == [r.batch[0], r.batch[1]];
    ApplyPair(s, r.batch[0], r.batch[1]);
    if c.ok {
      var s1 := ApplyWrite(s, r.batch[0]).value;
      assert ApplyWrite(s1, r.batch[1]) == Some(c.store);
      var d := s1[PostKey(pid)];
      assert d.PostDoc?;
      assert c.store == s1[PostKey(pid) := PostDoc(d.post.(voteStatus := r.updatedPost.voteStatus))];
      match VoteIndexFor(votes, post.id)
      case None =>
        var nv := PostVote(newVoteId, pid, communityId, vote);
        MirrorAfterCreate(s, uid, votes, pid, nv);
        ScoreWriteKeepsMirror(s1, uid, r.state.postVotes, pid, d.post.(voteStatus := r.updatedPost.voteStatus));
      case Some(i) =>
        var ev := votes[i];
        if ev.voteValue == vote {
          MirrorAfterRemove(s, uid, votes, pid, i);
          ScoreWriteKeepsMirror(s1, uid, r.state.postVotes, pid, d.post.(voteStatus := r.updatedPost.voteStatus));
        } else {
          var j :| 0 <= j < |votes| && votes[j].id == ev.id && r.state.postVotes == votes[j := ev.(voteValue := vote)];
          assert j == i;
          MirrorAfterFlip(s, uid, votes, pid, i, vote);
          ScoreWriteKeepsMirror(s1, uid, r.state.postVotes, pid, d.post.(voteStatus := r.updatedPost.voteStatus));
        }
    }
  }

  /** Not a property of the handler: when a new vote's batch does not commit,
      the cache shows a vote the store does not hold, and it stays that way
      (the cached state is set before the batch is submitted and not restored). */
  lemma FailedVoteLeavesCacheAhead(uid: string, state: PostState, post: Post, vote: int,
                                   communityId: string, newVoteId: string, s: Store)
    requires post.id.Some?
    requires UserVoteValue(state.postVotes, post.id).None?
    requires Get(s, VoteKey(uid, newVoteId)).None?
    ensures OnVote(Some(uid), state, post, vote, communityId, newVoteId).Voted?
    ensures var r := OnVote(Some(uid), state, post, vote, communityId, newVoteId);
      var c := Commit(s, r.batch, false);
      && !c.ok && c.store == s
      && UserVoteValue(r.state.postVotes, post.id) == Some(vote)
      && !StoreMirrorsVotes(c.store, uid, r.state.postVotes, post.id.value)
  {
    var r := OnVote(Some(uid), state, post, vote, communityId, newVoteId);
    var k := |state.postVotes|;
    assert r.state.postVotes[k] == PostVote(newVoteId, post.id.value, communityId, vote);
    assert VoteIsFor(r.state.postVotes[k], post.id);
    assert VoteIndexFor(r.state.postVotes, post.id) == Some(k);
  }
}
