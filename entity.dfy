/** The persisted entities of the post board (entity/User.java, entity/Post.java). */
module Entity {
  import opened Wrappers

  /** A registered user.  Its equality is structural over all three fields, as the
      generated `equals` of the Java class is. */
  datatype User = User(id: int, username: string, password: string)

  /** The body of a create or update request. */
  datatype PostRequest = PostRequest(title: string, content: string)

  /** An audit timestamp; its value is set by storage and is opaque here. */
  type Timestamp = int

  /** A post.  `id` is null until storage assigns one, and no method of the class
      writes it; `user` is null until `SetUser`. */
  class Post {
    var id: Option<int>
    var title: string
    var content: string
    var user: Option<User>
    var createdAt: Option<Timestamp>
    var modifiedAt: Option<Timestamp>

    /** `Post(PostRequestDto)`: copies title and content and leaves everything else unset. */
    constructor(request: PostRequest)
      ensures title == request.title && content == request.content
      ensures id == None && user == None
      ensures createdAt == None && modifiedAt == None
    {
      id := None;
      title := request.title;
      content := request.content;
      user := None;
      createdAt := None;
      modifiedAt := None;
    }

    method SetUser(user: User)
      modifies this`user
      ensures this.user == Some(user)
    {
      this.user := Some(user);
    }

    method SetTitle(title: string)
      modifies this`title
      ensures this.title == title
    {
      this.title := title;
    }

    method SetContent(content: string)
      modifies this`content
      ensures this.content == content
    {
      this.content := content;
    }
  }
}
