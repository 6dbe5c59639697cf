/** The hosted document store, reduced to what the client relies on: a map
    from document paths to documents, and batches of writes that are applied
    all together or not at all. Reads, queries and the wire protocol are not
    modelled; a transport failure is an input (`delivered`). */
module DocStore {
  import opened Common
  import opened PostAtom
  import opened CommunitiesAtom
  import opened CommentItem

  /** The document paths the client writes. */
  datatype DocKey =
    | PostKey(postId: string)                        // posts/{postId}
    | VoteKey(uid: string, voteId: string)           // users/{uid}/postVotes/{voteId}
    | CommunityKey(communityId: string)              // communities/{communityId}
    | SnippetKey(uid: string, communityId: string)   // users/{uid}/communitySnippets/{communityId}
    | CommentKey(commentId: string)                  // comments/{commentId}

  datatype Doc =
    | PostDoc(post: Post)
    | VoteDoc(vote: PostVote)
    | CommunityDoc(community: Community)
    | SnippetDoc(snippet: CommunitySnippet)
    | CommentDoc(comment: Comment)

  type Store = map<DocKey, Doc>

  /** One write of a batch. `Set` creates or overwrites a document, `Delete`
      removes it (a missing document is no error); the other writes change one
      field of an existing document and fail when it does not exist. */
  datatype Write =
    | Set(key: DocKey, doc: Doc)
    | Delete(key: DocKey)
    | SetVoteValue(key: DocKey, value: int)     // update {voteValue}
    | SetVoteStatus(key: DocKey, value: int)    // update {voteStatus}
    | AddMembers(key: DocKey, delta: int)       // update {numberOfMembers: increment(delta)}
    | AddComments(key: DocKey, delta: int)      // update {numberOfComments: increment(delta)}
    | SetImageURL(key: DocKey, url: string)     // update {imageURL}

  /** The document at `k`, if any. */
  function Get(s: Store, k: DocKey): Option<Doc> {
    if k in s then Some(s[k]) else None
  }

  /** Does the batch write to `k`? */
  predicate Touches(ws: seq<Write>, k: DocKey) {
    exists i :: 0 <= i < |ws| && ws[i].key == k
  }

  /** Is `w` a field update, which needs its target to exist? */
  predicate IsUpdate(w: Write) {
    !w.Set? && !w.Delete?
  }

  /** The document a field update produces, or absent when the target is
      missing or is not a document that has the field. */
  function Updated(d: Doc, w: Write): Option<Doc>
    requires IsUpdate(w)
  {
    match w
    case SetVoteValue(_, v) =>
      if d.VoteDoc? then Some(VoteDoc(d.vote.(voteValue := v))) else None
    case SetVoteStatus(_, v) =>
      if d.PostDoc? then Some(PostDoc(d.post.(voteStatus := v))) else None
    case AddMembers(_, n) =>
      if d.CommunityDoc? then Some(CommunityDoc(d.community.(numberOfMembers := d.community.numberOfMembers + n))) else None
    case AddComments(_, n) =>
      if d.PostDoc? then Some(PostDoc(d.post.(numberOfComments := d.post.numberOfComments + n))) else None
    case SetImageURL(_, u) =>
      if d.PostDoc? then Some(PostDoc(d.post.(imageURL := Some(u)))) else None
  }

  /** Applies one write; absent when the write fails. */
  function ApplyWrite(s: Store, w: Write): (r: Option<Store>)
    ensures r.Some? ==> forall k :: k != w.key ==> Get(r.value, k) == Get(s, k)
    ensures !IsUpdate(w) ==> r.Some?
    ensures IsUpdate(w) && w.key !in s ==> r.None?
    ensures r.Some? && w.Delete? ==> Get(r.value, w.key).None?
    ensures r.Some? && !w.Delete? ==> w.key in r.value
  {
    match w
    case Set(k, d) => Some(s[k := d])
    case Delete(k) => Some(s - {k})
    case _ =>
      if w.key !in s then None
      else
        match Updated(s[w.key], w)
        case None => None
        case Some(d) => Some(s[w.key := d])
  }

  /** Applies the writes in order; absent as soon as one of them fails, and
      then none of them takes effect. */
  function ApplyBatch(s: Store, ws: seq<Write>): (r: Option<Store>)
    ensures r.Some? ==> forall k :: !Touches(ws, k) ==> Get(r.value, k) == Get(s, k)
    ensures (forall i :: 0 <= i < |ws| ==> !IsUpdate(ws[i])) ==> r.Some?
    decreases |ws|
  {
    if |ws| == 0 then Some(s)
    else
      match ApplyWrite(s, ws[0])
      case None => None
      case Some(s1) =>
        var r := ApplyBatch(s1, ws[1..]);
        assert forall k :: Touches(ws[1..], k) ==> Touches(ws, k) by {
          forall k | Touches(ws[1..], k) ensures Touches(ws, k) {
            var i :| 0 <= i < |ws[1..]| && ws[1..][i].key == k;
            assert ws[i + 1].key == k;
          }
        }
        r
  }

  /** A batch of two writes applies the first, then the second. */
  lemma ApplyPair(s: Store, w0: Write, w1: Write)
    ensures ApplyBatch(s, [w0, w1]) ==
      (match ApplyWrite(s, w0)
       case None => None
       case Some(s1) => ApplyWrite(s1, w1))
  {
    assert [w0, w1][1..] == [w1];
    assert [w1][1..] == [];
    match ApplyWrite(s, w0)
    case None =>
    case Some(s1) =>
      assert ApplyBatch(s, [w0, w1]) == ApplyBatch(s1, [w1]);
      match ApplyWrite(s1, w1)
      case None =>
      case Some(s2) =>
        assert ApplyBatch(s1, [w1]) == ApplyBatch(s2, []);
  }

  /** The outcome of submitting a batch: the store afterwards and whether it committed. */
  datatype CommitResult = CommitResult(store: Store, ok: bool)

  /** Submits a batch. It commits only when it reaches the store and every
      write succeeds; otherwise the store is exactly as before. */
  function Commit(s: Store, ws: seq<Write>, delivered: bool): (r: CommitResult)
    ensures r.ok <==> delivered && ApplyBatch(s, ws).Some?
    ensures r.ok ==> Some(r.store) == ApplyBatch(s, ws)
    ensures !r.ok ==> r.store == s
  {
    match ApplyBatch(s, ws)
    case Some(s') => if delivered then CommitResult(s', true) else CommitResult(s, false)
    case None => CommitResult(s, false)
  }

  /** All or nothing: when a later write of a batch fails, an earlier write
      that on its own would have succeeded leaves no trace. */
  lemma {:induction false} NoPartialBatch(s: Store, w: Write, rest: seq<Write>)
    requires ApplyWrite(s, w).Some?
    requires ApplyBatch(ApplyWrite(s, w).value, rest).None?
    ensures ApplyBatch(s, [w] + rest).None?
    ensures Commit(s, [w] + rest, true) == CommitResult(s, false)
  {
    assert ([w] + rest)[0] == w;
    assert ([w] + rest)[1..] == rest;
  }
}
