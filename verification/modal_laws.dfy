/** What the community-name validator and the type checkboxes accept. */
module ModalLaws {
  import opened Common
  import opened CommunitiesAtom
  import opened DocStore
  import opened CreateCommunityModal

  /** A letter, digit or underscore: what the validator's message promises. */
  predicate WordChar(c: char) {
    ('a' <= c <= 'z') || ('A' <= c <= 'Z') || ('0' <= c <= '9') || c == '_'
  }

  /** No word character is forbidden. */
  lemma WordCharsAllowed(c: char)
    requires WordChar(c)
    ensures c !in Forbidden
  {
  }

  /** A name of 3 to 21 letters, digits and underscores passes the validator,
      and once typed into the field is what the dialog submits. */
  lemma WordNamesPass(m: ModalState, name: string)
    requires MinNameLength <= |name| <= MaxNameLength
    requires forall i :: 0 <= i < |name| ==> WordChar(name[i])
    ensures ValidName(name)
    ensures HandleChange(m, name).communityName == name
    ensures HandleCreateCommunity(HandleChange(m, name), None, map[], true).modal.error != InvalidName
  {
    forall i | 0 <= i < |name| ensures name[i] !in Forbidden {
      WordCharsAllowed(name[i]);
    }
  }

  /** Any name with a forbidden character, or with fewer than three, is
      rejected before anything is written. */
  lemma ForbiddenNamesRejected(m: ModalState, user: Option<string>, store: Store, delivered: bool, i: nat)
    requires |m.communityName| < MinNameLength || (i < |m.communityName| && m.communityName[i] in Forbidden)
    ensures var r := HandleCreateCommunity(m, user, store, delivered);
      r.modal.error == InvalidName && r.store == store && !r.closed
  {
  }

  /** Not what the message promises: the validator lists what it rejects, so
      characters outside that list and outside letters, digits and '_' pass. */
  lemma ValidatorIsABlacklist()
    ensures ValidName("ab§") && !WordChar('§')
    ensures ValidName("a\tb") && !WordChar('\t')
  {
    assert '§' !in Forbidden;
    assert '\t' !in Forbidden;
  }

  /** Not one of the declared privacy types: the middle checkbox is named
      "restricted" while the community shape spells it "restrictied", so a
      restricted community is stored with a type outside the declared three. */
  lemma RestrictedCheckboxIsUndeclared(m: ModalState, uid: string, store: Store)
    requires ValidName(m.communityName) && CommunityKey(m.communityName) !in store
    ensures var m' := OnCommunityTypeChange(m, CheckboxNames[1]);
      var r := HandleCreateCommunity(m', Some(uid), store, true);
      && r.store[CommunityKey(m.communityName)].community.privacyType == "restricted"
      && !KnownPrivacyType(r.store[CommunityKey(m.communityName)].community.privacyType)
  {
    var m' := OnCommunityTypeChange(m, CheckboxNames[1]);
    var r := HandleCreateCommunity(m', Some(uid), store, true);
    assert r.store != store by {
      assert CommunityKey(m.communityName) in r.store;
    }
    assert "restricted"[8] != "restrictied"[8];
  }
}
