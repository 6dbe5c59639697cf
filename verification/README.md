# Vote and membership bookkeeping of a discussion-board client

This Dafny project models the client-side bookkeeping of a Reddit-style
discussion board written in TypeScript on a hosted document store. Users vote
on posts, join and leave communities, and add and remove comments. Each of
these changes one per-user record (a vote, a membership snippet, a comment)
and one counter (a post's score, a community's member count, a post's comment
count). The client submits both writes as one atomic batch and keeps a local
cache of what it believes the store holds.

The document store is abstracted as a map from document paths to documents
(`DocStore`). Its semantics are these:

- A batch applies all of its writes or none of them.
- A `set` creates or overwrites a document.
- A `delete` of a missing document succeeds.
- A field update or an increment on a missing document fails, and so fails the whole batch.
- Whether a request reaches the store at all is an input (`delivered`, `addOk`, …).

Every handler is a pure function from the cached state, the store and those
outcomes to the new cached state, the new store and the batch it submitted.

The model follows the code as written. Three behaviours of the code are easy
to miss, and each is stated as a lemma:

- **The vote cache is updated before the vote batch commits, and is never restored.**
  A client that wrote the cache only after the store accepted the batch could
  not run ahead of the store; this one can.
  `VoteSync.FailedVoteLeavesCacheAhead` shows the cache running ahead of the store.
- **The score is written as an absolute value.** The stored score becomes the
  cached score plus the change, rather than being incremented.
  `VoteSync.CommittedVoteMirrorsCache` shows this agrees with the cache only when the batch commits.
- **The membership counter can drift.** Leave does not check membership and join
  is not idempotent (`MembershipLaws.LeaveWithoutMembershipUndercounts`,
  `MembershipLaws.JoinTwiceCountsTwice`). The creation dialog also does not put
  the creator's snippet into the cache. The community page's header normally
  fetches the snippets again when it mounts, and then reads "Joined"
  (`MembershipLaws.CreatorRefetchShowsJoined`). Until that fetch returns, or
  when it fails, or when the header stays mounted across the route change, it
  offers "Join" to the creator, and a click counts them twice
  (`MembershipLaws.CreatorJoinsTwice`).

Other behaviour of the code that the lemmas make explicit:

- The name validator is a blacklist (`ModalLaws.ValidatorIsABlacklist`).
- The "restricted" checkbox stores a privacy type outside the three the community shape declares, which spells it "restrictied" (`ModalLaws.RestrictedCheckboxIsUndeclared`).
- A vote from the list replaces whatever post is open on its own page (`VoteLaws.VoteReplacesOtherOpenPost`).
- A failed image upload leaves a stored post without its image (`NewPostForm.FailedUploadLeavesPostWithoutImage`).

Modules follow the source files:

| Module | Models |
|---|---|
| `Common` | Option, `findIndex`, `filter`, `split(c)[0]` |
| `PostAtom`, `CommunitiesAtom`, `CommentItem` | the data shapes |
| `DocStore` | the store |
| `UsePosts`, `UseCommunityData` | the two hooks |
| `Comments`, `CreateCommunityModal`, `PostItem`, `PostsList`, `Header`, `NewPostForm` | the components |

The lemmas are collected in `VoteLaws`, `VoteSync`, `MembershipLaws`,
`CommentLaws`, `ModalLaws` and `PostArrows`.

## Model

| member | source | states |
|---|---|---|
| Common.FirstIndex | hooks/usePosts.tsx:181 | the index found satisfies the predicate and no earlier element does; none exactly when no element does |
| Common.Filter | hooks/usePosts.tsx:139-141 | an element is kept exactly when it was in the list and satisfies the predicate; never longer than the input |
| Common.FilterDropsOne | components/Posts/Comments/Comments.tsx:143 | filtering out the one element that fails the predicate removes exactly that position |
| Common.BeforeFirst | components/Posts/Comments/Comments.tsx:53 | the result is a prefix of the text without the separator, ending where the first separator stands or at the end |
| Common.BeforeFirstUnique | components/Posts/NewPostForm.tsx:100 | those three properties determine `split(c)[0]` uniquely |
| PostAtom.DefaultPostState | atoms/postAtom.ts:36-40 | no open post, no posts, no votes |
| PostAtom.VoteIndexFor | hooks/usePosts.tsx:73 | the first cached vote whose post id equals the post's; none when there is none, and always none for a post without an id |
| PostAtom.UserVoteValue | components/Posts/Posts/Posts.tsx:98 | absent exactly when no cached vote is for the post; otherwise the value of the first cached vote for it |
| PostAtom.LookupFindsTheVote | hooks/usePosts.tsx:73 | with at most one vote per post, the lookup finds that vote and its value |
| CommunitiesAtom.DefaultCommunity | atoms/communitiesAtom.ts:40-45 | empty id and creator, no members, public, a declared privacy type |
| CommunitiesAtom.DefaultCommunityState | atoms/communitiesAtom.ts:48-53 | no snippets, not fetched, nothing visited, the default community current |
| DocStore.ApplyWrite | hooks/useCommunityData.tsx:87-100 | a write changes only its own path; set and delete always apply; an update of a missing document fails |
| DocStore.ApplyBatch | hooks/useCommunityData.tsx:77-103 | paths no write of the batch names are unchanged; a batch of sets and deletes always applies |
| DocStore.ApplyPair | hooks/useCommunityData.tsx:87-103 | a two-write batch is the first write followed by the second, failing if either fails |
| DocStore.Commit | hooks/useCommunityData.tsx:103 | commits exactly when delivered and every write applies; otherwise the store is exactly as before |
| DocStore.NoPartialBatch | components/Posts/Comments/Comments.tsx:45-75 | when a later write fails, an earlier write that would succeed leaves no trace |
| UsePosts.ReplaceFirst | hooks/usePosts.tsx:181-182 | same length; a changed position holds the updated post, has the id and has no earlier post with the id; the first post with the id is replaced |
| UsePosts.RewriteFirst | hooks/usePosts.tsx:158-167 | the first cached entry with the vote's id, and no other, is replaced by the rewritten vote |
| UsePosts.OnVote | hooks/usePosts.tsx:35-219 | login iff no user; per branch (new: appended; toggle-off: every entry with its id filtered out; flip: the first entry with its id rewritten) the cached votes, the record write and score change ±vote or 2·vote; the score written equals the score shown; only the score changes; open post replaced whenever one is open |
| UsePosts.OnSelectPost | hooks/usePosts.tsx:227-236 | the chosen post is open; list and votes unchanged |
| UsePosts.OnDeletePost | hooks/usePosts.tsx:241-280 | succeeds iff the post has an id, its image (if any) and its document were deleted; then exactly the posts with that id leave the list and only its document leaves the store; otherwise list and store unchanged |
| UsePosts.LoadCommunityVotes | hooks/usePosts.tsx:285-316 | with a user, a current community with an id and a successful query the votes become the fetched ones; otherwise, including a failed query, unchanged |
| UsePosts.ClearVotesOnSignOut | hooks/usePosts.tsx:319-327 | without a user the cached votes are empty; with one unchanged; posts untouched |
| VoteLaws.FilterKeepsWellFormed | hooks/usePosts.tsx:139-141 | removing votes keeps ids distinct and one vote per post |
| VoteLaws.AppendKeepsWellFormed | hooks/usePosts.tsx:88-115 | appending a fresh vote for an unvoted post keeps the cache well formed and adds exactly its id |
| VoteLaws.RewriteKeepsWellFormed | hooks/usePosts.tsx:158-167 | rewriting an entry with the same id and post keeps the cache well formed and its ids |
| VoteLaws.OnVoteKeepsWellFormed | hooks/usePosts.tsx:73-175 | one vote keeps at most one vote per post and distinct ids, adds no id but the new one, keeps votes at ±1 |
| VoteLaws.OnVoteTogglesUserVote | hooks/usePosts.tsx:88-175 | the views then read the requested value, or nothing when it repeats the cast vote |
| VoteLaws.OnVoteScoreFollowsVote | hooks/usePosts.tsx:83-175 | the score moves by exactly the change in the user's vote |
| VoteLaws.ScoreIsBasePlusUserVote | hooks/usePosts.tsx:83-208 | over any run of ±1 clicks, the score is the base plus the user's current vote (0 for none) |
| VoteLaws.FromZeroScoreIsUserVote | hooks/usePosts.tsx:83-208 | from score 0 with no vote, the score is always the user's current vote or 0 |
| VoteLaws.SessionKeepsOneVotePerPost | hooks/usePosts.tsx:73-175 | over any session of clicks on any posts, the cache holds at most one vote per post |
| VoteLaws.SameVotesSameValue | components/Posts/Posts/Posts.tsx:98 | two caches with the same votes for a post show the same vote for it |
| VoteLaws.OnVoteLeavesOtherPosts | hooks/usePosts.tsx:130-175 | a vote leaves the vote shown for every other post |
| VoteLaws.UpUpDownUpScores | hooks/usePosts.tsx:83-175 | up, up, down, up from score 0 gives scores 1, 0, -1, 1 and votes +1, none, -1, +1 |
| VoteLaws.VoteReplacesOtherOpenPost | hooks/usePosts.tsx:195-200 | a vote replaces an open post of another id with the voted post |
| VoteSync.ScoreWriteKeepsMirror | hooks/usePosts.tsx:206-208 | writing the score leaves every vote record as it was |
| VoteSync.MirrorAfterCreate | hooks/usePosts.tsx:88-115 | after a new vote the stored record is the cached one |
| VoteSync.MirrorAfterRemove | hooks/usePosts.tsx:130-147 | after a toggle-off neither store nor cache holds a vote for the post |
| VoteSync.MirrorAfterFlip | hooks/usePosts.tsx:151-174 | after a flip store and cache hold the same rewritten vote |
| VoteSync.CommittedVoteMirrorsCache | hooks/usePosts.tsx:187-212 | when the batch commits the store holds exactly the cached vote for the post and the shown score |
| VoteSync.FailedVoteLeavesCacheAhead | hooks/usePosts.tsx:187-217 | when a new vote's batch is not delivered the store is unchanged while the cache shows the vote |
| UseCommunityData.JoinSnippet | hooks/useCommunityData.tsx:79-82 | the snippet names the community and carries its image or "" |
| UseCommunityData.JoinCommunity | hooks/useCommunityData.tsx:72-123 | one batch of snippet set and +1; commits iff delivered and the community exists; then the snippet is stored, the counter is one higher, nothing else changes, the snippet is appended to the cache; otherwise nothing changes |
| UseCommunityData.LeaveCommunity | hooks/useCommunityData.tsx:126-163 | one batch of snippet delete and -1 with no membership check; on commit the snippet is gone, the counter one lower, every cached snippet of the community dropped and the others kept in order |
| UseCommunityData.OnJoinOrLeaveCommunity | hooks/useCommunityData.tsx:28-47 | login iff no user; joined leaves, not joined joins |
| UseCommunityData.OnUserChange | hooks/useCommunityData.tsx:202-212 | without a user the snippets are empty; with one they become the fetched ones, or stay as they were when the fetch fails |
| UseCommunityData.LoadCurrentCommunity | hooks/useCommunityData.tsx:165-198 | with a community in the route, none current and a successful read, the fetched one becomes current; otherwise, including a failed read, nothing changes |
| Header.ButtonFor | components/Community/Header.tsx:72-79 | "Joined" and outline exactly when joined, else "Join" and solid |
| Header.HeaderImage | components/Community/Header.tsx:33-57 | the current community's image exactly when it has a non-empty one |
| Header.OnClick | components/Community/Header.tsx:20-76 | a committed click flips membership in the cache; a failed one changes nothing; only the user's snippet and the counter are written |
| MembershipLaws.ClickKeepsMembershipConsistent | hooks/useCommunityData.tsx:28-163 | through header clicks, cached membership matches the stored snippet and the counter is the others plus the user's stored membership |
| MembershipLaws.DropJoinedSnippet | hooks/useCommunityData.tsx:147-151 | leaving drops the just-appended snippet and returns the earlier cache |
| MembershipLaws.UndoJoinWrites | hooks/useCommunityData.tsx:87-141 | the leave batch undoes the join batch on a store without the snippet |
| MembershipLaws.JoinThenLeaveRestores | hooks/useCommunityData.tsx:72-163 | join then leave, both committed, restores the cache and the whole store |
| MembershipLaws.LeaveWithoutMembershipUndercounts | hooks/useCommunityData.tsx:126-163 | leaving without membership commits and leaves the counter one short |
| MembershipLaws.JoinTwiceCountsTwice | hooks/useCommunityData.tsx:72-123 | joining twice adds two to the counter with one snippet stored and two cached |
| MembershipLaws.CreationCountsCreator | components/Modal/Auth/CreateCommunityModal/CreateCommunityModal.tsx:95-111 | creation stores a counter of one together with the creator's snippet |
| MembershipLaws.CreatorJoinsTwice | components/Modal/Auth/CreateCommunityModal/CreateCommunityModal.tsx:84-123 | after creation, while the cache still lacks the creator's snippet (no re-fetch yet, or a failed one), the header says "Join" and a click makes the counter two |
| MembershipLaws.CreatorRefetchShowsJoined | hooks/useCommunityData.tsx:202-212 | once the snippets are fetched again after creation, the creator's stored snippet is cached, the header says "Joined" and cache, store and counter are in step |
| Comments.NewComment | components/Posts/Comments/Comments.tsx:50-59 | the comment's fields, with the display text the e-mail's part before the first '@' |
| Comments.CreateComment | components/Posts/Comments/Comments.tsx:36-104 | without e-mail or open post with id nothing is written; else one batch of record and +1, committing iff delivered and the post exists; then the comment is first in the list, the input empty, the open post's count one higher, stored count one higher; otherwise nothing changes |
| Comments.DeletePending | components/Posts/Comments/Comments.tsx:117 | while pending the spinner shows on exactly the comment being deleted |
| Comments.DeleteComment | components/Posts/Comments/Comments.tsx:107-152 | an empty id or no open post aborts with no write; else one batch of delete and -1; on commit exactly the comments with that id leave the list and both counts drop by one; the spinner is off afterwards |
| CommentLaws.CreateKeepsCountsAgree | components/Posts/Comments/Comments.tsx:62-93 | the stored count, the open post's count and the list length stay in step through a create |
| CommentLaws.CreateKeepsIdsDistinct | components/Posts/Comments/Comments.tsx:82-84 | a fresh id keeps the listed ids distinct |
| CommentLaws.FilterDistinctDropsOne | components/Posts/Comments/Comments.tsx:143 | with distinct ids the delete filter removes exactly one comment |
| CommentLaws.RemoveAtKeepsDistinct | components/Posts/Comments/Comments.tsx:143 | removing one comment keeps the ids distinct |
| CommentLaws.DeleteKeepsCountsAgree | components/Posts/Comments/Comments.tsx:121-143 | the counts stay in step through the delete of a listed comment |
| CommentLaws.DropNewComment | components/Posts/Comments/Comments.tsx:143 | deleting the just-added comment gives back the earlier list |
| CommentLaws.UndoCommentWrites | components/Posts/Comments/Comments.tsx:62-129 | the delete batch undoes the create batch on a store without the record |
| CommentLaws.CreateThenDeleteRestores | components/Posts/Comments/Comments.tsx:36-152 | create then delete, both committed, restores the list, the open post and the store |
| CreateCommunityModal.InitialModal | components/Modal/Auth/CreateCommunityModal/CreateCommunityModal.tsx:40-44 | empty name, 21 left, public, no error |
| CreateCommunityModal.HandleChange | components/Modal/Auth/CreateCommunityModal/CreateCommunityModal.tsx:47-52 | input over 21 ignored; else it becomes the name and the counter is 21 minus its length, within 0..21 |
| CreateCommunityModal.OnCommunityTypeChange | components/Modal/Auth/CreateCommunityModal/CreateCommunityModal.tsx:54-58 | exactly the clicked checkbox shows as checked |
| CreateCommunityModal.NewCommunity | components/Modal/Auth/CreateCommunityModal/CreateCommunityModal.tsx:95-101 | the name as id, the creator, one member, the chosen type |
| CreateCommunityModal.CreatorSnippet | components/Modal/Auth/CreateCommunityModal/CreateCommunityModal.tsx:108-111 | the creator is a moderator of the new community |
| CreateCommunityModal.HandleCreateCommunity | components/Modal/Auth/CreateCommunityModal/CreateCommunityModal.tsx:62-126 | an invalid name shows the error and writes nothing; a valid one always closes and navigates; a taken name writes nothing; the community and snippet are written together exactly when the name is free, a user is signed in and the transaction is delivered |
| ModalLaws.WordCharsAllowed | components/Modal/Auth/CreateCommunityModal/CreateCommunityModal.tsx:66 | no letter, digit or '_' is forbidden |
| ModalLaws.WordNamesPass | components/Modal/Auth/CreateCommunityModal/CreateCommunityModal.tsx:66-70 | a 3-21 character name of letters, digits and '_' passes and is submitted as typed |
| ModalLaws.ForbiddenNamesRejected | components/Modal/Auth/CreateCommunityModal/CreateCommunityModal.tsx:66-70 | a short name or one with a forbidden character is rejected with nothing written |
| ModalLaws.ValidatorIsABlacklist | components/Modal/Auth/CreateCommunityModal/CreateCommunityModal.tsx:66-67 | names with '§' or a tab pass although they are not letters, digits or '_' |
| ModalLaws.RestrictedCheckboxIsUndeclared | components/Modal/Auth/CreateCommunityModal/CreateCommunityModal.tsx:199-200 | a restricted community is stored as "restricted", not a declared privacy type |
| PostItem.VoteOf | components/Posts/PostItem.tsx:121-133 | the up arrow dispatches +1, the down arrow -1, nothing else |
| PostItem.ArrowsFor | components/Posts/PostItem.tsx:117-135 | up filled iff +1, down filled iff -1, never both, neither without a vote |
| PostItem.Render | components/Posts/PostItem.tsx:117-243 | score and comment count are the post's own; delete shown iff the user is the creator |
| PostItem.OnItemClick | components/Posts/PostItem.tsx:45-103 | on its own page a click does nothing; in a list it opens the post |
| PostItem.HandleDelete | components/Posts/PostItem.tsx:59-90 | error exactly when the delete fails; navigation back to the community exactly on success on the post's own page |
| PostItem.NavigationFollowsRemoval | components/Posts/PostItem.tsx:71-82 | the page is left only after the post is gone from the list and the store |
| PostArrows.ArrowClickToggles | components/Posts/PostItem.tsx:117-135 | clicking an arrow fills it alone unless it was filled, when neither is filled afterwards |
| PostsList.PropsFor | components/Posts/Posts/Posts.tsx:97-98 | creator iff the signed-in id is the post's creator; a vote shown iff a cached vote is for the post, and then the value of the first such vote |
| PostsList.RenderPosts | components/Posts/Posts/Posts.tsx:92-104 | one item per cached post, in order; no item is the creator's without a user |
| PostsList.SetPosts | components/Posts/Posts/Posts.tsx:56-59 | the fetched posts replace the list; nothing else changes |
| PostsList.RenderChangesOnlyOnePost | components/Posts/Posts/Posts.tsx:92-104 | when only one post id's data changes, only its items change |
| PostsList.VoteRerendersOneItem | components/Posts/Posts/Posts.tsx:92-104 | after a vote, items of other posts are unchanged and the voted post's items show the toggled vote |
| NewPostForm.OnTextChange | components/Posts/NewPostForm.tsx:173-181 | the named field takes the value; the other is unchanged |
| NewPostForm.NewPost | components/Posts/NewPostForm.tsx:97-106 | no id or image, counters at zero, route community, creator, copied text, display name from the e-mail |
| NewPostForm.HandleCreatePost | components/Posts/NewPostForm.tsx:90-149 | no e-mail: nothing; failed add: error and nothing stored; else the post is stored, with the image only when chosen, uploaded and recorded; back exactly when every step succeeded |
| NewPostForm.FailedUploadLeavesPostWithoutImage | components/Posts/NewPostForm.tsx:110-144 | a failed upload leaves the post stored without image and the form open with an error |
| NewPostForm.DisplayNameIsLocalPart | components/Posts/NewPostForm.tsx:100 | for `local@domain` the display name is `local` |

## Left out

- Reads and queries of the store (`getDocs`, `getDoc`) are left out: their results are inputs (`fetched`). The same holds for the ids the store hands out (`newVoteId`, `newId`) and for each request's outcome (`delivered`, `addOk`, `uploadOk`, …), because network I/O is outside a pure model.
- Timestamps (`serverTimestamp`, `Date.now()`, `moment`) and the `createdAt` fields are left out: they are clock values and play no part in the bookkeeping.
- Image upload and storage deletion are reduced to their success flags. `getDownloadURL` is reduced to its result `url`.
- Loading flags that only drive spinners are left out, except where a contract speaks of them: `createLoading`, `loadingDeleteId` and the dialog's `loading`.
- Races are left out: two devices, double clicks, and updates interleaving with `await`. Each handler runs to completion against the state it started from.
- UsePosts.OnVote: requires the post to carry its id, which every fetched post does, since it is the document id. An id-less post has no cached vote, so the handler builds a new vote with an undefined post id. The store is opened without `ignoreUndefinedProperties`, so `batch.set` rejects that record inside the handler's try, before any state is set, and nothing changes. That path is not modelled.
- Numbers are unbounded integers. JavaScript's floating-point precision limit on very large counters is not modelled.
- Text lengths are lengths of Dafny character sequences, not UTF-16 code units. The 21-character cap and the 3-character minimum therefore count characters outside the Basic Multilingual Plane once, not twice.
- NewPostForm.OnTextChange: the field is one of the two named inputs ("title", "body"). An arbitrary `name` would add a new key to the text inputs, which the record cannot hold.
- CreateCommunityModal.HandleCreateCommunity: the error texts are reduced to their kinds. The message of a failed transaction is not modelled.
- Routing is left out beyond the target path where a contract names it. `onSelectPost` also navigates to the post's page; that navigation is not modelled.
- The Header's icon fallback and all other presentation are not modelled.
- The authentication views and the modal that opens on `LoginRequired` are not modelled.
- The directory menu, the community "About" panel with its image upload, the server function and the client configuration are not part of this model.
