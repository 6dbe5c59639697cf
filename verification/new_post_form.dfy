/** The new-post form: the two text fields and `handleCreatePost`, which adds
    the post document and then, when an image was chosen, uploads it and
    attaches its address to the post in a second, separate write. */
module NewPostForm {
  import opened Common
  import opened PostAtom
  import opened DocStore

  /** The form's text fields. */
  datatype TextInputs = TextInputs(title: string, body: string)

  /** The input fields, by their `name` attribute ("title" and "body"). */
  datatype Field = Title | Body

  /** `onTextChange`: the named field takes the new value, the other keeps its own. */
  function OnTextChange(inputs: TextInputs, field: Field, value: string): (r: TextInputs)
    ensures field == Title ==> r.title == value && r.body == inputs.body
    ensures field == Body ==> r.body == value && r.title == inputs.title
  {
    match field
    case Title => inputs.(title := value)
    case Body => inputs.(body := value)
  }

  /** The post `handleCreatePost` builds: no id yet, no image, both counters
      at zero, and the author's display name taken from the e-mail address
      up to its first '@'. */
  function NewPost(uid: string, email: string, communityId: string, inputs: TextInputs): (p: Post)
    ensures p.id.None? && p.imageURL.None?
    ensures p.voteStatus == 0 && p.numberOfComments == 0
    ensures p.communityId == communityId && p.creatorId == uid
    ensures p.title == inputs.title && p.body == inputs.body
    ensures p.creatorDisplayName <= email && '@' !in p.creatorDisplayName
    ensures |p.creatorDisplayName| < |email| ==> email[|p.creatorDisplayName|] == '@'
  {
    Post(None, communityId, uid, BeforeFirst(email, '@'), inputs.title, inputs.body, 0, 0, None, None)
  }

  /** Is an image chosen? (`if (selectedFile)`: present and not empty.) */
  predicate HasImage(selectedFile: Option<string>) {
    selectedFile.Some? && selectedFile.value != ""
  }

  /** The outcome of `handleCreatePost`. */
  datatype CreatePostOutcome = CreatePostOutcome(store: Store, error: bool, navigatedBack: bool)

  /** `handleCreatePost`. `newId` is the id the store gives the added document;
      `addOk`, `uploadOk` and `updateOk` are the outcomes of adding the post,
      uploading the image and attaching its address `url`. Without an e-mail
      address the handler throws before doing anything. */
  function HandleCreatePost(uid: string, email: Option<string>, communityId: string, inputs: TextInputs,
                            selectedFile: Option<string>, store: Store, newId: string,
                            addOk: bool, uploadOk: bool, url: string, updateOk: bool): (r: CreatePostOutcome)
    ensures email.None? ==> r == CreatePostOutcome(store, false, false)
    ensures email.Some? && !addOk ==> r == CreatePostOutcome(store, true, false)
    ensures email.Some? && addOk ==>
      var p := NewPost(uid, email.value, communityId, inputs);
      && (forall k :: k != PostKey(newId) ==> Get(r.store, k) == Get(store, k))
      // the image is attached only when one was chosen, uploaded and recorded
      && (if HasImage(selectedFile) && uploadOk && updateOk
          then Get(r.store, PostKey(newId)) == Some(PostDoc(p.(imageURL := Some(url))))
          else Get(r.store, PostKey(newId)) == Some(PostDoc(p)))
      // the form goes back exactly when every step succeeded
      && (r.navigatedBack <==> !HasImage(selectedFile) || (uploadOk && updateOk))
      && (r.error <==> !r.navigatedBack)
  {
    match email
    case None => CreatePostOutcome(store, false, false)
    case Some(e) =>
      if !addOk then CreatePostOutcome(store, true, false)
      else
        var p := NewPost(uid, e, communityId, inputs);
        var s1 := ApplyWrite(store, Set(PostKey(newId), PostDoc(p))).value;
        if !HasImage(selectedFile) then CreatePostOutcome(s1, false, true)
        else if !uploadOk then CreatePostOutcome(s1, true, false)
        else
          match ApplyWrite(s1, SetImageURL(PostKey(newId), url))
          case Some(s2) => if updateOk then CreatePostOutcome(s2, false, true) else CreatePostOutcome(s1, true, false)
          case None => CreatePostOutcome(s1, true, false)
  }

  /** Not all or nothing: when the image upload fails, the post is stored
      without its image, and the form reports an error and stays open. */
  lemma FailedUploadLeavesPostWithoutImage(uid: string, email: string, communityId: string, inputs: TextInputs,
                                           file: string, store: Store, newId: string, url: string, updateOk: bool)
    requires file != ""
    ensures var r := HandleCreatePost(uid, Some(email), communityId, inputs, Some(file), store, newId,
                                      true, false, url, updateOk);
      && r.error && !r.navigatedBack
      && PostKey(newId) in r.store && r.store[PostKey(newId)].post.imageURL.None?
  {
  }

  /** For an address `local@domain`, the display name is `local`, whatever
      `domain` holds (a second '@' included). */
  lemma DisplayNameIsLocalPart(uid: string, communityId: string, inputs: TextInputs, local: string, domain: string)
    requires '@' !in local
    ensures NewPost(uid, local + "@" + domain, communityId, inputs).creatorDisplayName == local
  {
    var email := local + "@" + domain;
    assert local <= email;
    assert email[|local|] == '@';
    BeforeFirstUnique(email, '@', local);
  }
}
