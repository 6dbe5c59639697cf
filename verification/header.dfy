/** The community page header: whether the user has joined, the button it
    shows, and what a click on that button does. */
module Header {
  import opened Common
  import opened CommunitiesAtom
  import opened DocStore
  import opened UseCommunityData

  /** The join button's caption and style. */
  datatype JoinButton = JoinButton(caption: string, variant: string)

  /** A joined user sees an outlined "Joined"; anyone else a solid "Join". */
  function ButtonFor(isJoined: bool): (r: JoinButton)
    ensures r.caption == "Joined" <==> isJoined
    ensures r.variant == "outline" <==> isJoined
    ensures !isJoined ==> r == JoinButton("Join", "solid")
  {
    if isJoined then JoinButton("Joined", "outline") else JoinButton("Join", "solid")
  }

  /** The community image shown: the current community's, when it has a
      non-empty one; otherwise the default icon (absent). */
  function HeaderImage(state: CommunityState): (r: Option<string>)
    ensures r.Some? <==> state.currentCommunity.Some? && state.currentCommunity.value.imageURL.Some?
                         && state.currentCommunity.value.imageURL.value != ""
    ensures r.Some? ==> r == state.currentCommunity.value.imageURL
  {
    match state.currentCommunity
    case Some(Community(_, _, _, _, Some(url))) => if url != "" then Some(url) else None
    case _ => None
  }

  /** A click on the button: join or leave according to the cached snippets. */
  function OnClick(user: Option<string>, state: CommunityState, community: Community,
                   store: Store, delivered: bool): (r: MembershipOutcome)
    ensures r.LoginRequired? <==> user.None?
    // a committed click flips the button; a failed one leaves it
    ensures r.Submitted? && r.ok ==> IsMember(r.state.mySnippets, community.id) == !IsMember(state.mySnippets, community.id)
    ensures r.Submitted? && !r.ok ==> r.state == state && r.store == store
    // a click writes only the user's snippet of this community and its counter
    ensures r.Submitted? ==> forall k :: k != SnippetKey(user.value, community.id) && k != CommunityKey(community.id) ==>
                               Get(r.store, k) == Get(store, k)
  {
    var joined := IsMember(state.mySnippets, community.id);
    var r := OnJoinOrLeaveCommunity(user, state, community, joined, store, delivered);
    if r.Submitted? && r.ok && !joined then
      var n := |state.mySnippets|;
      assert r.state.mySnippets[n].communityId == community.id;
      r
    else r
  }
}
