/** The community hook: joining and leaving a community. Each is one batch
    of two writes (the user's snippet and the community's member counter);
    the cached snippets change only once the batch has committed. */
module UseCommunityData {
  import opened Common
  import opened CommunitiesAtom
  import opened DocStore

  /** The stored member counter of a community, if its document exists. */
  function MemberCount(s: Store, communityId: string): Option<int> {
    match Get(s, CommunityKey(communityId))
    case Some(CommunityDoc(c)) => Some(c.numberOfMembers)
    case _ => None
  }

  /** The outcome of a join or leave request. */
  datatype MembershipOutcome =
    | LoginRequired
      // the login view of the auth modal opens; nothing else happens
    | Submitted(batch: seq<Write>, ok: bool, state: CommunityState, store: Store)
      // the batch submitted, whether it committed (otherwise the error is set),
      // the cached state and the store afterwards

  /** The snippet a join records: the community's id and its image, or "" when it has none. */
  function JoinSnippet(community: Community): (r: CommunitySnippet)
    ensures r.communityId == community.id && r.isModerator.None?
    ensures r.imageURL.Some? && (community.imageURL.Some? ==> r.imageURL == community.imageURL)
    ensures community.imageURL.None? ==> r.imageURL == Some("")
  {
    CommunitySnippet(community.id, None, Some(community.imageURL.GetOr("")))
  }

  /** `joinCommunity`: set the snippet and add one member, in one batch; on
      commit, append the snippet to the cached list. */
  function JoinCommunity(uid: string, state: CommunityState, community: Community,
                         store: Store, delivered: bool): (r: MembershipOutcome)
    ensures r.Submitted?
    ensures r.batch == [Set(SnippetKey(uid, community.id), SnippetDoc(JoinSnippet(community))),
                        AddMembers(CommunityKey(community.id), 1)]
    // the batch commits exactly when it is delivered and the community document exists
    ensures r.ok <==> delivered && MemberCount(store, community.id).Some?
    ensures r.ok ==> && Get(r.store, SnippetKey(uid, community.id)) == Some(SnippetDoc(JoinSnippet(community)))
                     && MemberCount(r.store, community.id) == Some(MemberCount(store, community.id).value + 1)
                     && (forall k :: k != SnippetKey(uid, community.id) && k != CommunityKey(community.id) ==>
                           Get(r.store, k) == Get(store, k))
                     && r.state.mySnippets == state.mySnippets + [JoinSnippet(community)]
    ensures !r.ok ==> r.store == store && r.state == state
    ensures r.state.currentCommunity == state.currentCommunity
  {
    var batch := [Set(SnippetKey(uid, community.id), SnippetDoc(JoinSnippet(community))),
                  AddMembers(CommunityKey(community.id), 1)];
    ApplyPair(store, batch[0], batch[1]);
    var c := Commit(store, batch, delivered);
    var s1 := store[SnippetKey(uid, community.id) := SnippetDoc(JoinSnippet(community))];
    assert Get(s1, CommunityKey(community.id)) == Get(store, CommunityKey(community.id));
    var state' := if c.ok then state.(mySnippets := state.mySnippets + [JoinSnippet(community)]) else state;
    Submitted(batch, c.ok, state', c.store)
  }

  /** `leaveCommunity`: delete the snippet and remove one member, in one
      batch, whether or not the user was a member; on commit, drop every
      cached snippet of the community. */
  function LeaveCommunity(uid: string, state: CommunityState, communityId: string,
                          store: Store, delivered: bool): (r: MembershipOutcome)
    ensures r.Submitted?
    ensures r.batch == [Delete(SnippetKey(uid, communityId)), AddMembers(CommunityKey(communityId), -1)]
    ensures r.ok <==> delivered && MemberCount(store, communityId).Some?
    ensures r.ok ==> && Get(r.store, SnippetKey(uid, communityId)).None?
                     && MemberCount(r.store, communityId) == Some(MemberCount(store, communityId).value - 1)
                     && (forall k :: k != SnippetKey(uid, communityId) && k != CommunityKey(communityId) ==>
                           Get(r.store, k) == Get(store, k))
                     && (forall x :: x in r.state.mySnippets <==> x in state.mySnippets && x.communityId != communityId)
                     && r.state.mySnippets == Filter(state.mySnippets, (x: CommunitySnippet) => x.communityId != communityId)
                     && !IsMember(r.state.mySnippets, communityId)
    ensures !r.ok ==> r.store == store && r.state == state
    ensures r.state.currentCommunity == state.currentCommunity
  {
    var batch := [Delete(SnippetKey(uid, communityId)), AddMembers(CommunityKey(communityId), -1)];
    ApplyPair(store, batch[0], batch[1]);
    var c := Commit(store, batch, delivered);
    var s1 := store - {SnippetKey(uid, communityId)};
    assert Get(s1, CommunityKey(communityId)) == Get(store, CommunityKey(communityId));
    var kept := Filter(state.mySnippets, (x: CommunitySnippet) => x.communityId != communityId);
    assert forall j :: 0 <= j < |kept| ==> kept[j] in kept;
    var state' := if c.ok then state.(mySnippets := kept) else state;
    Submitted(batch, c.ok, state', c.store)
  }

  /** `onJoinOrLeaveCommunity`: without a user the login view opens; a joined
      user leaves, anyone else joins. */
  function OnJoinOrLeaveCommunity(user: Option<string>, state: CommunityState, community: Community,
                                  isJoined: bool, store: Store, delivered: bool): (r: MembershipOutcome)
    ensures r.LoginRequired? <==> user.None?
    ensures user.Some? && isJoined ==> r == LeaveCommunity(user.value, state, community.id, store, delivered)
    ensures user.Some? && !isJoined ==> r == JoinCommunity(user.value, state, community, store, delivered)
  {
    match user
    case None => LoginRequired
    case Some(uid) =>
      if isJoined then LeaveCommunity(uid, state, community.id, store, delivered)
      else JoinCommunity(uid, state, community, store, delivered)
  }

  /** The reaction to a change of signed-in user: without a user the cached
      snippets are emptied; with one they are fetched again (`getMySnippets`),
      and a failed fetch (`fetched` absent) leaves them as they were. */
  function OnUserChange(state: CommunityState, user: Option<string>,
                        fetched: Option<seq<CommunitySnippet>>): (r: CommunityState)
    ensures user.None? ==> |r.mySnippets| == 0
    ensures user.Some? && fetched.Some? ==> r.mySnippets == fetched.value
    ensures user.Some? && fetched.None? ==> r.mySnippets == state.mySnippets
    ensures r.currentCommunity == state.currentCommunity && r.visitedCommunities == state.visitedCommunities
  {
    if user.None? then state.(mySnippets := [])
    else if fetched.Some? then state.(mySnippets := fetched.value)
    else state
  }

  /** `getCommunityData` as triggered by the route: when the route names a
      community and none is current, the fetched one (`fetched`, absent when the
      read fails) becomes current; otherwise nothing changes. */
  function LoadCurrentCommunity(state: CommunityState, routeId: Option<string>,
                                fetched: Option<Community>): (r: CommunityState)
    ensures routeId.Some? && routeId.value != "" && state.currentCommunity.None? && fetched.Some? ==>
              r.currentCommunity == fetched
    ensures !(routeId.Some? && routeId.value != "" && state.currentCommunity.None?) ==> r == state
    // a failed read is caught and sets nothing
    ensures fetched.None? ==> r == state
    ensures r.mySnippets == state.mySnippets && r.visitedCommunities == state.visitedCommunities
  {
    if routeId.Some? && routeId.value != "" && state.currentCommunity.None? && fetched.Some? then
      state.(currentCommunity := fetched)
    else state
  }
}
