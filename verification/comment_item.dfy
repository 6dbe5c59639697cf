/** The shape of a comment as stored and listed (its timestamp is not modelled). */
module CommentItem {

  datatype Comment = Comment(
    id: string,
    creatorId: string,
    creatorDisplayText: string,
    communityId: string,
    postId: string,
    postTitle: string,
    text: string)
}
