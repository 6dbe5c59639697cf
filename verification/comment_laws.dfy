/** How the comment counter relates to the listed comments: the stored counter,
    the counter on the open post and the length of the list move together
    through every create and every delete of a listed comment. */
module CommentLaws {
  import opened Common
  import opened PostAtom
  import opened CommentItem
  import opened DocStore
  import opened Comments

  /** No two listed comments share an id. */
  ghost predicate DistinctCommentIds(comments: seq<Comment>) {
    forall i, j :: 0 <= i < j < |comments| ==> comments[i].id != comments[j].id
  }

  /** The open post is `pid`; its counter equals the stored one and is `base`
      (the comments not listed) plus the length of the list. */
  ghost predicate CountsAgree(s: Store, ps: PostState, view: CommentsView, pid: string, base: int) {
    && ps.selectedPost.Some? && ps.selectedPost.value.id == Some(pid)
    && StoredCommentCount(s, pid) == Some(ps.selectedPost.value.numberOfComments)
    && ps.selectedPost.value.numberOfComments == base + |view.comments|
  }

  /** Creating a comment keeps the counters in step, committed or not. */
  lemma CreateKeepsCountsAgree(uid: string, email: Option<string>, view: CommentsView, ps: PostState,
                               communityId: string, newId: string, s: Store, delivered: bool,
                               pid: string, base: int)
    requires CountsAgree(s, ps, view, pid, base)
    ensures var r := CreateComment(uid, email, view, ps, communityId, newId, s, delivered);
      CountsAgree(r.store, r.postState, r.view, pid, base)
  {
  }

  /** A fresh id keeps the listed ids distinct. */
  lemma CreateKeepsIdsDistinct(uid: string, email: Option<string>, view: CommentsView, ps: PostState,
                               communityId: string, newId: string, s: Store, delivered: bool)
    requires DistinctCommentIds(view.comments)
    requires forall j :: 0 <= j < |view.comments| ==> view.comments[j].id != newId
    ensures DistinctCommentIds(CreateComment(uid, email, view, ps, communityId, newId, s, delivered).view.comments)
  {
    var r := CreateComment(uid, email, view, ps, communityId, newId, s, delivered);
    if r.committed {
      var c := r.view.comments[0];
      assert r.view.comments == [c] + view.comments;
      forall i, j | 0 <= i < j < |r.view.comments| ensures r.view.comments[i].id != r.view.comments[j].id {
        assert r.view.comments[j] == view.comments[j - 1];
        if i > 0 {
          assert r.view.comments[i] == view.comments[i - 1];
        }
      }
    }
  }

  /** With distinct ids, removing the listed comment with id `id` drops
      exactly one element. */
  lemma FilterDistinctDropsOne(comments: seq<Comment>, k: nat)
    requires DistinctCommentIds(comments)
    requires k < |comments|
    ensures |Filter(comments, (x: Comment) => x.id != comments[k].id)| == |comments| - 1
    ensures DistinctCommentIds(Filter(comments, (x: Comment) => x.id != comments[k].id))
  {
    var keep := (x: Comment) => x.id != comments[k].id;
    assert forall j :: 0 <= j < |comments| && j != k ==> keep(comments[j]);
    FilterDropsOne(comments, keep, k);
    RemoveAtKeepsDistinct(comments, k);
  }

  /** Removing one position keeps the ids distinct. */
  lemma RemoveAtKeepsDistinct(comments: seq<Comment>, k: nat)
    requires DistinctCommentIds(comments)
    requires k < |comments|
    ensures DistinctCommentIds(comments[..k] + comments[k + 1..])
  {
    var r := comments[..k] + comments[k + 1..];
    forall i, j | 0 <= i < j < |r| ensures r[i].id != r[j].id {
      var i' := if i < k then i else i + 1;
      var j' := if j < k then j else j + 1;
      assert r[i] == comments[i'] && r[j] == comments[j'];
    }
  }

  /** Deleting a listed comment keeps the counters in step and the ids
      distinct, committed or not. */
  lemma DeleteKeepsCountsAgree(view: CommentsView, ps: PostState, k: nat, s: Store, delivered: bool,
                               pid: string, base: int)
    requires CountsAgree(s, ps, view, pid, base)
    requires DistinctCommentIds(view.comments)
    requires k < |view.comments|
    ensures var r := DeleteComment(view, ps, view.comments[k], s, delivered);
      && CountsAgree(r.store, r.postState, r.view, pid, base)
      && DistinctCommentIds(r.view.comments)
  {
    FilterDistinctDropsOne(view.comments, k);
  }

  /** Creating a comment and then deleting it, both committed, restores the
      list, the open post and the store. */
  lemma CreateThenDeleteRestores(uid: string, email: string, view: CommentsView, ps: PostState,
                                 communityId: string, newId: string, s: Store)
    requires CanComment(Some(email), ps)
    requires StoredCommentCount(s, ps.selectedPost.value.id.value).Some?
    requires newId != "" && CommentKey(newId) !in s
    requires forall j :: 0 <= j < |view.comments| ==> view.comments[j].id != newId
    ensures var c := CreateComment(uid, Some(email), view, ps, communityId, newId, s, true);
      var d := DeleteComment(c.view, c.postState, c.view.comments[0], c.store, true);
      && c.committed && d.committed
      && d.view.comments == view.comments
      && d.postState == ps
      && d.store == s
  {
    var c := CreateComment(uid, Some(email), view, ps, communityId, newId, s, true);
    var nc := c.view.comments[0];
    var d := DeleteComment(c.view, c.postState, nc, c.store, true);
    assert c.view.comments == [nc] + view.comments;
    DropNewComment(nc, view.comments);
    var post := ps.selectedPost.value;
    var pk := PostKey(post.id.value);
    ApplyPair(s, c.batch[0], c.batch[1]);
    ApplyPair(c.store, d.batch[0], d.batch[1]);
    var p := s[pk].post;
    assert c.store[pk] == PostDoc(p.(numberOfComments := p.numberOfComments + 1));
    assert d.store[pk] == PostDoc(p.(numberOfComments := p.numberOfComments + 1 - 1));
    assert post.(numberOfComments := post.numberOfComments + 1 - 1) == post;
    UndoCommentWrites(s, CommentKey(newId), CommentDoc(nc), PostKey(post.id.value), c.store, d.store);
  }

  /** Removing a comment put in front of a list without its id gives back the list. */
  lemma DropNewComment(nc: Comment, comments: seq<Comment>)
    requires forall j :: 0 <= j < |comments| ==> comments[j].id != nc.id
    ensures Filter([nc] + comments, (x: Comment) => x.id != nc.id) == comments
  {
    var keep := (x: Comment) => x.id != nc.id;
    assert forall x :: x in comments ==> keep(x);
    FilterKeepsAll(comments, keep);
    assert Filter([nc], keep) == [] by {
      assert [nc][1..] == [];
    }
    FilterAppend([nc], comments, keep);
  }

  /** Adding a record and one to the post's counter, then removing both,
      restores a store that held no such record. */
  lemma UndoCommentWrites(s: Store, ck: DocKey, cd: Doc, pk: DocKey, s1: Store, s2: Store)
    requires ck != pk && ck !in s && pk in s && s[pk].PostDoc?
    requires forall k :: k != ck && k != pk ==> Get(s1, k) == Get(s, k)
    requires forall k :: k != ck && k != pk ==> Get(s2, k) == Get(s1, k)
    requires ck !in s2 && pk in s2 && s2[pk].PostDoc?
    requires s2[pk] == s[pk]
    ensures s2 == s
  {
    forall k | k in s ensures k in s2 && s2[k] == s[k] {
      if k != pk {
        assert Get(s2, k) == Get(s1, k) == Get(s, k);
      }
    }
    forall k | k in s2 ensures k in s {
      if k != pk {
        assert Get(s2, k) == Get(s1, k) == Get(s, k);
      }
    }
    assert s2.Keys == s.Keys;
  }
}
