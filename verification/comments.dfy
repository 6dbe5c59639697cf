/** The comment section of a post page: creating and deleting comments. Each
    is one batch of the comment record and the post's comment counter; the
    list, the counter on the open post and the input change only once the
    batch has committed. */
module Comments {
  import opened Common
  import opened PostAtom
  import opened CommentItem
  import opened DocStore

  /** The section's own state. */
  datatype CommentsView = CommentsView(
    commentText: string,
    comments: seq<Comment>,
    loadingDeleteId: string,   // the id of the comment being deleted, "" when none
    createLoading: bool)

  /** The comment counter stored for post `pid`, if the post document exists. */
  function StoredCommentCount(s: Store, pid: string): Option<int> {
    match Get(s, PostKey(pid))
    case Some(PostDoc(p)) => Some(p.numberOfComments)
    case _ => None
  }

  /** The comment `onCreateComment` builds: the author's display text is the
      part of the e-mail address before its first '@'. */
  function NewComment(id: string, uid: string, email: string, communityId: string,
                      post: Post, text: string): (c: Comment)
    requires post.id.Some?
    ensures c.id == id && c.creatorId == uid && c.text == text
    ensures c.postId == post.id.value && c.postTitle == post.title && c.communityId == communityId
    ensures c.creatorDisplayText <= email && '@' !in c.creatorDisplayText
    ensures |c.creatorDisplayText| < |email| ==> email[|c.creatorDisplayText|] == '@'
  {
    Comment(id, uid, BeforeFirst(email, '@'), communityId, post.id.value, post.title, text)
  }

  /** The outcome of a create or delete: whether a batch committed, the batch
      submitted (empty when the handler gave up before writing), the section
      and post state afterwards, and the store. */
  datatype CommentOutcome = CommentOutcome(
    committed: bool,
    batch: seq<Write>,
    view: CommentsView,
    postState: PostState,
    store: Store)

  /** Can a comment be created? The handler needs the user's e-mail address and
      an open post that carries its id; otherwise building the comment throws
      and the handler gives up. */
  predicate CanComment(email: Option<string>, postState: PostState) {
    email.Some? && postState.selectedPost.Some? && postState.selectedPost.value.id.Some?
  }

  /** `onCreateComment`. `newId` is the id the store hands out for the new record. */
  function CreateComment(uid: string, email: Option<string>, view: CommentsView, postState: PostState,
                         communityId: string, newId: string, store: Store, delivered: bool): (r: CommentOutcome)
    ensures !CanComment(email, postState) ==> r.batch == [] && !r.committed
    ensures CanComment(email, postState) ==>
      var post := postState.selectedPost.value;
      var c := NewComment(newId, uid, email.value, communityId, post, view.commentText);
      && r.batch == [Set(CommentKey(newId), CommentDoc(c)), AddComments(PostKey(post.id.value), 1)]
      // the batch commits when it is delivered and the post document exists
      && (r.committed <==> delivered && StoredCommentCount(store, post.id.value).Some?)
      && (r.committed ==>
            && r.view.comments == [c] + view.comments
            && r.view.commentText == ""
            && r.postState.selectedPost == Some(post.(numberOfComments := post.numberOfComments + 1))
            && Get(r.store, CommentKey(newId)) == Some(CommentDoc(c))
            && StoredCommentCount(r.store, post.id.value) == Some(StoredCommentCount(store, post.id.value).value + 1)
            && (forall k :: k != CommentKey(newId) && k != PostKey(post.id.value) ==> Get(r.store, k) == Get(store, k)))
    // nothing but the spinner changes unless the batch commits
    ensures !r.committed ==> r.view == view.(createLoading := false) && r.postState == postState && r.store == store
    ensures r.postState.posts == postState.posts && r.postState.postVotes == postState.postVotes
    ensures !r.view.createLoading && r.view.loadingDeleteId == view.loadingDeleteId
  {
    var done := view.(createLoading := false);
    if !CanComment(email, postState) then CommentOutcome(false, [], done, postState, store)
    else
      var post := postState.selectedPost.value;
      var pid := post.id.value;
      var c := NewComment(newId, uid, email.value, communityId, post, view.commentText);
      var batch := [Set(CommentKey(newId), CommentDoc(c)), AddComments(PostKey(pid), 1)];
      ApplyPair(store, batch[0], batch[1]);
      var s1 := store[CommentKey(newId) := CommentDoc(c)];
      assert Get(s1, PostKey(pid)) == Get(store, PostKey(pid));
      var cr := Commit(store, batch, delivered);
      if cr.ok then
        CommentOutcome(true, batch,
                       done.(commentText := "", comments := [c] + view.comments),
                       postState.(selectedPost := Some(post.(numberOfComments := post.numberOfComments + 1))),
                       cr.store)
      else CommentOutcome(false, batch, done, postState, store)
  }

  /** The section while a delete is pending: the spinner shows on that comment. */
  function DeletePending(view: CommentsView, comment: Comment): (r: CommentsView)
    ensures forall x :: x in view.comments ==> (r.loadingDeleteId == x.id <==> x.id == comment.id)
    ensures r.comments == view.comments && r.commentText == view.commentText
  {
    view.(loadingDeleteId := comment.id)
  }

  /** `onDeleteComment`: the section after the delete has finished. A comment
      without an id, or a section with no open post carrying an id, gives up
      before writing. */
  function DeleteComment(view: CommentsView, postState: PostState, comment: Comment,
                         store: Store, delivered: bool): (r: CommentOutcome)
    ensures (comment.id == "" || postState.selectedPost.None? || postState.selectedPost.value.id.None?) ==>
              r.batch == [] && !r.committed
    ensures comment.id != "" && postState.selectedPost.Some? && postState.selectedPost.value.id.Some? ==>
      var post := postState.selectedPost.value;
      && r.batch == [Delete(CommentKey(comment.id)), AddComments(PostKey(post.id.value), -1)]
      && (r.committed <==> delivered && StoredCommentCount(store, post.id.value).Some?)
      && (r.committed ==>
            && (forall x :: x in r.view.comments <==> x in view.comments && x.id != comment.id)
            && r.view.comments == Filter(view.comments, (x: Comment) => x.id != comment.id)
            && r.postState.selectedPost == Some(post.(numberOfComments := post.numberOfComments - 1))
            && Get(r.store, CommentKey(comment.id)).None?
            && StoredCommentCount(r.store, post.id.value) == Some(StoredCommentCount(store, post.id.value).value - 1)
            && (forall k :: k != CommentKey(comment.id) && k != PostKey(post.id.value) ==> Get(r.store, k) == Get(store, k)))
    ensures !r.committed ==> r.view == view.(loadingDeleteId := "") && r.postState == postState && r.store == store
    // the spinner is off again once the handler is done, whatever happened
    ensures r.view.loadingDeleteId == ""
    ensures r.view.commentText == view.commentText && r.view.createLoading == view.createLoading
    ensures r.postState.posts == postState.posts && r.postState.postVotes == postState.postVotes
  {
    var done := DeletePending(view, comment).(loadingDeleteId := "");
    if comment.id == "" || postState.selectedPost.None? || postState.selectedPost.value.id.None? then
      CommentOutcome(false, [], done, postState, store)
    else
      var post := postState.selectedPost.value;
      var pid := post.id.value;
      var batch := [Delete(CommentKey(comment.id)), AddComments(PostKey(pid), -1)];
      ApplyPair(store, batch[0], batch[1]);
      var s1 := store - {CommentKey(comment.id)};
      assert Get(s1, PostKey(pid)) == Get(store, PostKey(pid));
      var cr := Commit(store, batch, delivered);
      if cr.ok then
        var kept := Filter(view.comments, (x: Comment) => x.id != comment.id);
        CommentOutcome(true, batch, done.(comments := kept),
                       postState.(selectedPost := Some(post.(numberOfComments := post.numberOfComments - 1))),
                       cr.store)
      else CommentOutcome(false, batch, done, postState, store)
  }
}
