/** How the member counter relates to the stored snippets and the cached ones.
    Through the header button (which decides join or leave from the cached
    snippets) the three stay in step; calling join or leave directly, without
    that check, lets the counter drift. */
module MembershipLaws {
  import opened Common
  import opened CommunitiesAtom
  import opened DocStore
  import opened UseCommunityData
  import opened Header
  import opened CreateCommunityModal

  /** 1 when the user's snippet for the community is stored, else 0. */
  function Stored(s: Store, uid: string, communityId: string): int {
    if SnippetKey(uid, communityId) in s then 1 else 0
  }

  /** The cache says "joined" exactly when the snippet is stored, and the
      counter is `others` (the members besides this user) plus this user's
      stored membership. */
  ghost predicate MembershipConsistent(s: Store, uid: string, snippets: seq<CommunitySnippet>,
                                       communityId: string, others: int) {
    && (IsMember(snippets, communityId) <==> SnippetKey(uid, communityId) in s)
    && MemberCount(s, communityId) == Some(others + Stored(s, uid, communityId))
  }

  /** Every header click keeps the cache, the snippet and the counter in step,
      whether its batch commits or not. */
  lemma ClickKeepsMembershipConsistent(uid: string, state: CommunityState, community: Community,
                                       s: Store, delivered: bool, others: int)
    requires MembershipConsistent(s, uid, state.mySnippets, community.id, others)
    ensures var r := OnClick(Some(uid), state, community, s, delivered);
      MembershipConsistent(r.store, uid, r.state.mySnippets, community.id, others)
  {
    var r := OnClick(Some(uid), state, community, s, delivered);
    var key := SnippetKey(uid, community.id);
    if r.ok {
      if IsMember(state.mySnippets, community.id) {
        assert r == LeaveCommunity(uid, state, community.id, s, delivered);
        assert key !in r.store;
      } else {
        assert r == JoinCommunity(uid, state, community, s, delivered);
        assert key in r.store;
      }
    }
  }

  /** Dropping the community's snippets from `snippets + [joined]` gives back
      `snippets` when none of them was for it. */
  lemma DropJoinedSnippet(snippets: seq<CommunitySnippet>, community: Community)
    requires !IsMember(snippets, community.id)
    ensures Filter(snippets + [JoinSnippet(community)], (x: CommunitySnippet) => x.communityId != community.id) == snippets
  {
    var keep := (x: CommunitySnippet) => x.communityId != community.id;
    assert forall x :: x in snippets ==> keep(x);
    FilterKeepsAll(snippets, keep);
    FilterAppend(snippets, [JoinSnippet(community)], keep);
    assert [JoinSnippet(community)][1..] == [];
  }

  /** Adding the snippet and a member, then removing both, restores a store
      that held no such snippet. */
  lemma UndoJoinWrites(s: Store, sk: DocKey, sd: Doc, ck: DocKey, s1: Store, s2: Store)
    requires sk != ck && sk !in s && ck in s && s[ck].CommunityDoc?
    requires s1 == s[sk := sd][ck := CommunityDoc(s[ck].community.(numberOfMembers := s[ck].community.numberOfMembers + 1))]
    requires s2 == (s1 - {sk})[ck := CommunityDoc(s1[ck].community.(numberOfMembers := s1[ck].community.numberOfMembers - 1))]
    ensures s2 == s
  {
    assert s2[ck] == s[ck];
    assert s2.Keys == s.Keys;
  }

  /** Join then leave, both committed, from a community the user is not in:
      the cached snippets and the whole store are back where they started. */
  lemma JoinThenLeaveRestores(uid: string, state: CommunityState, community: Community, s: Store)
    requires !IsMember(state.mySnippets, community.id)
    requires SnippetKey(uid, community.id) !in s
    requires MemberCount(s, community.id).Some?
    ensures var j := JoinCommunity(uid, state, community, s, true);
      var l := LeaveCommunity(uid, j.state, community.id, j.store, true);
      && j.ok && l.ok
      && l.state == state
      && l.store == s
  {
    var j := JoinCommunity(uid, state, community, s, true);
    var l := LeaveCommunity(uid, j.state, community.id, j.store, true);
    DropJoinedSnippet(state.mySnippets, community);
    var sk := SnippetKey(uid, community.id);
    var ck := CommunityKey(community.id);
    ApplyPair(s, j.batch[0], j.batch[1]);
    ApplyPair(j.store, l.batch[0], l.batch[1]);
    UndoJoinWrites(s, sk, SnippetDoc(JoinSnippet(community)), ck, j.store, l.store);
  }

  /** Not a property of the hook: leaving a community the user is not in still
      takes one off the counter, which then falls short of the members. */
  lemma LeaveWithoutMembershipUndercounts(uid: string, state: CommunityState, communityId: string,
                                          s: Store, others: int)
    requires MembershipConsistent(s, uid, state.mySnippets, communityId, others)
    requires !IsMember(state.mySnippets, communityId)
    ensures var r := LeaveCommunity(uid, state, communityId, s, true);
      && r.ok
      && MemberCount(r.store, communityId) == Some(others - 1)
      && !MembershipConsistent(r.store, uid, r.state.mySnippets, communityId, others)
  {
    var r := LeaveCommunity(uid, state, communityId, s, true);
    assert SnippetKey(uid, communityId) !in r.store;
  }

  /** Not a property of the hook: joining twice without leaving commits twice,
      so the counter counts the user twice while one snippet is stored and the
      cache holds two. */
  lemma JoinTwiceCountsTwice(uid: string, state: CommunityState, community: Community, s: Store)
    requires MemberCount(s, community.id).Some?
    ensures var j1 := JoinCommunity(uid, state, community, s, true);
      var j2 := JoinCommunity(uid, j1.state, community, j1.store, true);
      && j1.ok && j2.ok
      && MemberCount(j2.store, community.id) == Some(MemberCount(s, community.id).value + 2)
      && Stored(j2.store, uid, community.id) == 1
      && |j2.state.mySnippets| == |state.mySnippets| + 2
  {
  }

  /** Creating a community stores its counter at one together with the
      creator's snippet, so the store is in step with no other members. */
  lemma CreationCountsCreator(m: ModalState, uid: string, s: Store)
    requires ValidName(m.communityName) && CommunityKey(m.communityName) !in s
    ensures var r := HandleCreateCommunity(m, Some(uid), s, true);
      && MemberCount(r.store, m.communityName) == Some(1)
      && Stored(r.store, uid, m.communityName) == 1
      && MemberCount(r.store, m.communityName) == Some(0 + Stored(r.store, uid, m.communityName))
  {
    var r := HandleCreateCommunity(m, Some(uid), s, true);
    assert r.store != s by {
      assert CommunityKey(m.communityName) in r.store;
    }
  }

  /** Not a property of the client: the dialog does not add the creator's
      snippet to the cached ones. Until the snippets are fetched again (the
      user effect of the community page's header does so on mount; a failed
      fetch, or a header that stays mounted across the route change, never
      does), the header offers "Join" to the creator, and a click on it counts
      the creator a second time. */
  lemma CreatorJoinsTwice(m: ModalState, uid: string, s: Store, state: CommunityState)
    requires ValidName(m.communityName) && CommunityKey(m.communityName) !in s
    requires !IsMember(state.mySnippets, m.communityName)
    ensures var r := HandleCreateCommunity(m, Some(uid), s, true);
      var c := OnClick(Some(uid), state, NewCommunity(m.communityName, uid, m.communityType), r.store, true);
      && !MembershipConsistent(r.store, uid, state.mySnippets, m.communityName, 0)
      && ButtonFor(IsMember(state.mySnippets, m.communityName)).caption == "Join"
      && c.ok
      && MemberCount(c.store, m.communityName) == Some(2)
      && Stored(c.store, uid, m.communityName) == 1
  {
    CreationCountsCreator(m, uid, s);
  }

  /** Once the header's user effect has fetched the creator's snippets again,
      the cache holds the stored creator snippet: the header reads "Joined"
      and the cache, the store and the counter are in step. */
  lemma CreatorRefetchShowsJoined(m: ModalState, uid: string, s: Store, state: CommunityState,
                                  fetched: seq<CommunitySnippet>)
    requires ValidName(m.communityName) && CommunityKey(m.communityName) !in s
    requires CreatorSnippet(m.communityName) in fetched
    ensures var r := HandleCreateCommunity(m, Some(uid), s, true);
      var after := OnUserChange(state, Some(uid), Some(fetched));
      && Get(r.store, SnippetKey(uid, m.communityName)) == Some(SnippetDoc(CreatorSnippet(m.communityName)))
      && ButtonFor(IsMember(after.mySnippets, m.communityName)).caption == "Joined"
      && MembershipConsistent(r.store, uid, after.mySnippets, m.communityName, 0)
  {
    CreationCountsCreator(m, uid, s);
    var j :| 0 <= j < |fetched| && fetched[j] == CreatorSnippet(m.communityName);
    assert fetched[j].communityId == m.communityName;
  }
}
