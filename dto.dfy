/** The response shape the service returns for a post (dto/PostResponseDto.java). */
module Dto {
  import opened Wrappers
  import opened Entity

  datatype PostResponse = PostResponse(
    id: Option<int>,
    title: string,
    content: string,
    createdAt: Option<Timestamp>,
    modifiedAt: Option<Timestamp>,
    username: string)

  /** `PostResponseDto(Post)`: a projection of the post in which the owner is reduced
      to its username.  A post without an owner cannot be projected (the source
      dereferences null there). */
  function FromPost(post: Post): (r: PostResponse)
    reads post
    requires post.user.Some?
    ensures r.id == post.id && r.title == post.title && r.content == post.content
    ensures r.createdAt == post.createdAt && r.modifiedAt == post.modifiedAt
    ensures r.username == post.user.value.username
  {
    PostResponse(post.id, post.title, post.content, post.createdAt, post.modifiedAt, post.user.value.username)
  }
}
