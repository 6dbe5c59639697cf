/** The "Create a community" dialog: the name field with its 21-character cap,
    the privacy type checkboxes, the name validator and the creation
    transaction that writes the community and its creator's snippet. */
module CreateCommunityModal {
  import opened Common
  import opened CommunitiesAtom
  import opened DocStore

  /** The longest name the field accepts. */
  const MaxNameLength: nat := 21
  /** The shortest name the validator accepts. */
  const MinNameLength: nat := 3

  /** The characters the validator's pattern rejects. */
  const Forbidden: set<char> := {
    ' ', '`', '!', '@', '#', '$', '%', '^', '&', '*', '(', ')', '+', '-', '=',
    '[', ']', '{', '}', ';', '\'', ':', '"', '\\', '|', ',', '.', '<', '>', '/', '?', '~'
  }

  /** The names of the three privacy checkboxes, which become the community type. */
  const CheckboxNames: seq<string> := ["public", "restricted", "private"]

  /** What the dialog reports under the name field. */
  datatype CreateError =
    | NoError
    | InvalidName        // "Community names must be between 3-21 characters, ..."
    | NameTaken          // "Sorry, r/<name> is taken. Try another."
    | WriteFailed        // any other failure of the transaction

  datatype ModalState = ModalState(
    communityName: string,
    charsRemaining: int,
    communityType: string,
    error: CreateError,
    loading: bool)

  /** The dialog as it opens: an empty name, 21 characters left, public. */
  function InitialModal(): (m: ModalState)
    ensures m.communityName == "" && m.charsRemaining == MaxNameLength
    ensures m.communityType == CheckboxNames[0] && m.error == NoError && !m.loading
  {
    ModalState("", MaxNameLength, "public", NoError, false)
  }

  /** The counter under the field shows how many characters are left. */
  predicate CounterMatchesName(m: ModalState) {
    |m.communityName| <= MaxNameLength && m.charsRemaining == MaxNameLength - |m.communityName|
  }

  /** `handleChange`: an input longer than 21 characters is ignored;
      otherwise it becomes the name and the counter follows it. */
  function HandleChange(m: ModalState, value: string): (r: ModalState)
    ensures |value| > MaxNameLength ==> r == m
    ensures |value| <= MaxNameLength ==> r.communityName == value && CounterMatchesName(r)
    ensures CounterMatchesName(m) ==> CounterMatchesName(r) && 0 <= r.charsRemaining <= MaxNameLength
    ensures r.communityType == m.communityType && r.error == m.error
  {
    if |value| > MaxNameLength then m
    else m.(communityName := value, charsRemaining := MaxNameLength - |value|)
  }

  /** `onCommunityTypeChange`: the type becomes the clicked checkbox's name,
      and exactly that checkbox shows as checked. */
  function OnCommunityTypeChange(m: ModalState, checkbox: string): (r: ModalState)
    ensures forall i :: 0 <= i < |CheckboxNames| ==> (r.communityType == CheckboxNames[i] <==> checkbox == CheckboxNames[i])
    ensures r.communityName == m.communityName && r.charsRemaining == m.charsRemaining
  {
    m.(communityType := checkbox)
  }

  /** The validator: at least three characters, none of them forbidden. It
      does not check the upper bound; the field enforces that. */
  predicate ValidName(name: string) {
    |name| >= MinNameLength && forall i :: 0 <= i < |name| ==> name[i] !in Forbidden
  }

  /** The outcome of `handleCreateCommunity`. */
  datatype CreateOutcome = CreateOutcome(
    modal: ModalState,
    store: Store,
    closed: bool,              // the dialog was closed
    navigatedTo: Option<string>)

  /** The community the transaction writes: the name as id, the creator, one
      member, the selected type. */
  function NewCommunity(name: string, uid: string, communityType: string): (c: Community)
    ensures c.id == name && c.creatorId == uid && c.numberOfMembers == 1 && c.privacyType == communityType
  {
    Community(name, uid, 1, communityType, None)
  }

  /** The creator's snippet: a moderator of the new community. */
  function CreatorSnippet(name: string): (s: CommunitySnippet)
    ensures s.communityId == name && s.isModerator == Some(true)
  {
    CommunitySnippet(name, Some(true), None)
  }

  /** `handleCreateCommunity`. `user` is the signed-in user's id; without one
      the community record cannot be written and the transaction fails.
      `delivered` is whether the transaction reaches the store. */
  function HandleCreateCommunity(m: ModalState, user: Option<string>, store: Store,
                                 delivered: bool): (r: CreateOutcome)
    // a rejected name: the error shows, nothing is written, the dialog stays open
    ensures !ValidName(m.communityName) ==>
              r.modal == m.(error := InvalidName) && r.store == store && !r.closed && r.navigatedTo.None?
    // an accepted name: the dialog closes and the browser moves to the community, whatever the outcome
    ensures ValidName(m.communityName) ==>
              r.closed && r.navigatedTo == Some("r/" + m.communityName) && !r.modal.loading
    // a taken name: nothing is written
    ensures ValidName(m.communityName) && CommunityKey(m.communityName) in store ==>
              r.store == store && r.modal.error == NameTaken
    // the two records are written together, or neither
    ensures r.store != store <==>
              ValidName(m.communityName) && CommunityKey(m.communityName) !in store && user.Some? && delivered
    ensures r.store != store ==>
      && r.store == store[CommunityKey(m.communityName) := CommunityDoc(NewCommunity(m.communityName, user.value, m.communityType))]
                         [SnippetKey(user.value, m.communityName) := SnippetDoc(CreatorSnippet(m.communityName))]
      && r.modal.error == NoError
    ensures r.modal.communityName == m.communityName && r.modal.communityType == m.communityType
  {
    var name := m.communityName;
    var cleared := m.(error := NoError);
    if !ValidName(name) then
      CreateOutcome(cleared.(error := InvalidName), store, false, None)
    else
      var done := cleared.(loading := false);
      var nav := Some("r/" + name);
      var ck := CommunityKey(name);
      if ck in store then
        CreateOutcome(done.(error := NameTaken), store, true, nav)
      else if user.None? || !delivered then
        CreateOutcome(done.(error := WriteFailed), store, true, nav)
      else
        var uid := user.value;
        var s1 := store[ck := CommunityDoc(NewCommunity(name, uid, m.communityType))];
        var s2 := s1[SnippetKey(uid, name) := SnippetDoc(CreatorSnippet(name))];
        assert ck in s2 && ck !in store;
        CreateOutcome(done, s2, true, nav)
  }
}
