/** The community-side shapes of the global `communityState`: communities,
    the user's membership snippets, and the default values the client starts from. */
module CommunitiesAtom {
  import opened Common

  /** A community. `privacyType` holds whatever text was stored; the declared
      choices are those of `KnownPrivacyType`. The creation timestamp is not modelled. */
  datatype Community = Community(
    id: string,
    creatorId: string,
    numberOfMembers: int,
    privacyType: string,
    imageURL: Option<string>)

  /** The three privacy types the community shape declares, spelled as declared
      (the middle one is "restrictied"). */
  predicate KnownPrivacyType(t: string) {
    t == "public" || t == "restrictied" || t == "private"
  }

  /** The user's record of belonging to a community. Only `communityId` is required. */
  datatype CommunitySnippet = CommunitySnippet(
    communityId: string,
    isModerator: Option<bool>,
    imageURL: Option<string>)

  /** The cached community state. Membership is the presence of a snippet in `mySnippets`. */
  datatype CommunityState = CommunityState(
    mySnippets: seq<CommunitySnippet>,
    initSnippetsFetched: bool,
    visitedCommunities: map<string, Community>,
    currentCommunity: Option<Community>)

  /** The placeholder community: no id, no creator, no members, public. */
  function DefaultCommunity(): (c: Community)
    ensures c.id == "" && c.creatorId == ""
    ensures c.numberOfMembers == 0
    ensures c.privacyType == "public" && KnownPrivacyType(c.privacyType)
  {
    Community("", "", 0, "public", None)
  }

  /** The state before anything is fetched: no memberships, nothing visited,
      and the placeholder community as the current one. */
  function DefaultCommunityState(): (s: CommunityState)
    ensures |s.mySnippets| == 0 && !s.initSnippetsFetched
    ensures s.visitedCommunities == map[]
    ensures s.currentCommunity == Some(DefaultCommunity())
  {
    CommunityState([], false, map[], Some(DefaultCommunity()))
  }

  /** Does some snippet name this community? The sole notion of "joined". */
  predicate IsMember(snippets: seq<CommunitySnippet>, communityId: string) {
    exists j :: 0 <= j < |snippets| && snippets[j].communityId == communityId
  }
}
