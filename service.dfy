/** The post service (service/PostService.java) over its repository table: create,
    list, read by id, update and delete posts, with the ownership checks on update and
    delete. */
module Service {
  import opened Wrappers
  import opened Entity
  import opened Dto

  /** What the service throws: `NotFound` for the IllegalArgumentException of an absent
      id, `Forbidden` for the RejectedExecutionException of a caller who fails the
      ownership check. */
  datatype Error = NotFound | Forbidden

  /** Everything the service can observe of one stored post, as a value. */
  datatype Row = Row(
    title: string,
    content: string,
    owner: User,
    createdAt: Option<Timestamp>,
    modifiedAt: Option<Timestamp>)

  function RowOf(post: Post): (row: Row)
    reads post
    requires post.user.Some?
  {
    Row(post.title, post.content, post.user.value, post.createdAt, post.modifiedAt)
  }

  /** The response for the row stored under `id`. */
  function ResponseOf(id: int, row: Row): PostResponse {
    PostResponse(Some(id), row.title, row.content, row.createdAt, row.modifiedAt, row.owner.username)
  }

  /** The ownership check of `updatePost`: usernames only, so the owner always passes
      it and so does every record that shares the owner's username. */
  predicate MayUpdate(owner: User, actor: User)
    ensures owner == actor ==> MayUpdate(owner, actor)
    ensures MayUpdate(owner, actor) <==> actor.(id := owner.id, password := owner.password) == owner
  {
    owner.username == actor.username
  }

  /** The ownership check of `deletePost`: the whole user record, field by field. */
  predicate MayDelete(owner: User, actor: User)
    ensures MayDelete(owner, actor) <==>
      owner.id == actor.id && owner.username == actor.username && owner.password == actor.password
  {
    owner == actor
  }

  /** The delete check is the stricter of the two. */
  lemma DeleteCheckStricter(owner: User, actor: User)
    ensures MayDelete(owner, actor) ==> MayUpdate(owner, actor)
    ensures MayDelete(owner, actor) <==>
      owner.id == actor.id && owner.username == actor.username && owner.password == actor.password
  {
  }

  /** A user who shares the owner's username but not the owner's id or password may
      update the owner's post and may not delete it. */
  lemma UpdateDeleteAsymmetry(owner: User, actor: User)
    requires actor.username == owner.username
    requires actor.id != owner.id || actor.password != owner.password
    ensures MayUpdate(owner, actor) && !MayDelete(owner, actor)
  {
  }

  predicate Distinct(s: seq<int>) {
    forall i, j :: 0 <= i < j < |s| ==> s[i] != s[j]
  }

  /** A sequence without repetitions has as many elements as its set of elements. */
  lemma {:induction false} DistinctSize(s: seq<int>)
    requires Distinct(s)
    ensures |set x | x in s| == |s|
  {
    if s != [] {
      assert Distinct(s[1..]) by {
        forall i, j | 0 <= i < j < |s[1..]| ensures s[1..][i] != s[1..][j] {
          assert s[1..][i] == s[i + 1] && s[1..][j] == s[j + 1];
        }
      }
      DistinctSize(s[1..]);
      assert s[0] !in s[1..] by {
        forall j | 0 <= j < |s[1..]| ensures s[1..][j] != s[0] {
          assert s[1..][j] == s[j + 1];
        }
      }
      assert (set x | x in s) == (set x | x in s[1..]) + {s[0]};
    }
  }

  /** The id sequence with `x` removed. */
  function Without(s: seq<int>, x: int): (r: seq<int>)
    ensures forall y :: y in r <==> y in s && y != x
    ensures Distinct(s) ==> Distinct(r)
    ensures x !in s ==> r == s
  {
    if s == [] then []
    else if s[0] == x then Without(s[1..], x)
    else
      assert Distinct(s) ==> s[0] !in s[1..] && Distinct(s[1..]) by {
        if Distinct(s) {
          forall j | 0 <= j < |s[1..]| ensures s[1..][j] != s[0] {
            assert s[1..][j] == s[j + 1];
          }
          forall i, j | 0 <= i < j < |s[1..]| ensures s[1..][i] != s[1..][j] {
            assert s[1..][i] == s[i + 1] && s[1..][j] == s[j + 1];
          }
        }
      }
      [s[0]] + Without(s[1..], x)
  }

  /** The service together with its repository table.  `posts` is the table keyed by
      id, `order` the order in which the repository lists its rows, and `nextId` the
      next identity value storage hands out. */
  class PostService {
    var posts: map<int, Post>
    var order: seq<int>
    var nextId: int

    /** Every stored post carries its own key as id and has an owner; ids are handed
        out below `nextId`; `order` lists each stored id once. */
    ghost predicate Valid()
      reads this, posts.Values
    {
      && 0 < nextId
      && (forall id | id in posts :: 0 < id < nextId && posts[id].id == Some(id) && posts[id].user.Some?)
      && Distinct(order)
      && (forall id :: id in order <==> id in posts)
    }

    /** The table as values. */
    ghost function Rows(): (rows: map<int, Row>)
      reads this, posts.Values
      requires Valid()
      ensures rows.Keys == posts.Keys
    {
      map id | id in posts :: RowOf(posts[id])
    }

    constructor()
      ensures Valid() && Rows() == map[] && order == []
    {
      posts := map[];
      order := [];
      nextId := 1;
    }

    /** `findPost`: the stored post, or not-found. */
    method FindPost(id: int) returns (r: Result<Post, Error>)
      requires Valid()
      ensures r.Success? <==> id in posts
      ensures r.Success? ==> r.value == posts[id] && r.value.id == Some(id)
      ensures r.Failure? ==> r.error == NotFound
    {
      if id in posts {
        r := Success(posts[id]);
      } else {
        r := Failure(NotFound);
      }
    }

    /** `postRepository.save` of a new post: storage assigns the next identity value
        and appends the row. */
    method Save(post: Post)
      requires Valid() && post !in posts.Values && post.user.Some?
      modifies this, post`id
      ensures Valid()
      ensures post.id == Some(old(nextId)) && old(nextId) !in old(posts)
      ensures posts == old(posts)[old(nextId) := post]
      ensures order == old(order) + [old(nextId)] && nextId == old(nextId) + 1
    {
      post.id := Some(nextId);
      posts := posts[nextId := post];
      order := order + [nextId];
      nextId := nextId + 1;
    }

    /** `postRepository.delete` of a stored post. */
    method Delete(post: Post)
      requires Valid() && post.id.Some? && post.id.value in posts && posts[post.id.value] == post
      modifies this
      ensures Valid()
      ensures posts == old(posts) - {old(post.id.value)}
      ensures order == Without(old(order), old(post.id.value)) && nextId == old(nextId)
    {
      var id := post.id.value;
      posts := posts - {id};
      order := Without(order, id);
    }

    /** `createPost`: a new row owned by `user` with the request's title and content,
        under a fresh id, listed last; the response describes it. */
    method CreatePost(request: PostRequest, user: User) returns (response: PostResponse)
      requires Valid()
      modifies this
      ensures Valid()
      ensures old(nextId) !in old(posts)
      ensures Rows() == old(Rows())[old(nextId) := Row(request.title, request.content, user, None, None)]
      ensures order == old(order) + [old(nextId)]
      ensures response == ResponseOf(old(nextId), Rows()[old(nextId)])
    {
      var post := new Post(request);
      post.SetUser(user);
      Save(post);
      response := FromPost(post);
    }

    /** `getPosts`: one response per stored row, in the repository's order. */
    function GetPosts(): (list: seq<PostResponse>)
      reads this, posts.Values
      requires Valid()
      ensures |list| == |posts| == |order|
      ensures forall i :: 0 <= i < |list| ==> list[i] == ResponseOf(order[i], Rows()[order[i]])
    {
      DistinctSize(order);
      assert posts.Keys == set x | x in order by {
        forall x ensures x in posts.Keys <==> x in order {}
      }
      Responses(order)
    }

    /** The responses for the rows stored under `ids`, in that order. */
    function Responses(ids: seq<int>): (list: seq<PostResponse>)
      reads this, posts.Values
      requires Valid() && forall i :: 0 <= i < |ids| ==> ids[i] in posts
      ensures |list| == |ids|
      ensures forall i :: 0 <= i < |ids| ==> list[i] == ResponseOf(ids[i], Rows()[ids[i]])
    {
      if ids == [] then []
      else
        var id := ids[0];
        assert id in posts && posts[id].user.Some?;
        [FromPost(posts[id])] + Responses(ids[1..])
    }

    /** `getPostById`: the response for the stored row, or not-found. */
    method GetPostById(id: int) returns (r: Result<PostResponse, Error>)
      requires Valid()
      ensures r == if id in Rows() then Success(ResponseOf(id, Rows()[id])) else Failure(NotFound)
    {
      var found := FindPost(id);
      if found.Failure? {
        return Failure(found.error);
      }
      r := Success(FromPost(found.value));
    }

    /** `updatePost`: not-found for an absent id, forbidden unless the acting user
        has the owner's username, and otherwise the row's title and content become the
        request's while its owner, its timestamps and every other row stay as they were. */
    method UpdatePost(id: int, request: PostRequest, user: User) returns (r: Result<PostResponse, Error>)
      requires Valid()
      modifies posts.Values
      ensures Valid() && order == old(order) && nextId == old(nextId)
      ensures id !in old(Rows()) ==> r == Failure(NotFound) && Rows() == old(Rows())
      ensures id in old(Rows()) && !MayUpdate(old(Rows())[id].owner, user) ==>
        r == Failure(Forbidden) && Rows() == old(Rows())
      ensures id in old(Rows()) && MayUpdate(old(Rows())[id].owner, user) ==>
        && Rows() == old(Rows())[id := old(Rows())[id].(title := request.title, content := request.content)]
        && r == Success(ResponseOf(id, Rows()[id]))
    {
      var found := FindPost(id);
      if found.Failure? {
        return Failure(found.error);
      }
      var post := found.value;
      if post.user.value.username != user.username {
        return Failure(Forbidden);
      }
      ghost var before := Rows();
      post.SetTitle(request.title);
      post.SetContent(request.content);
      r := Success(FromPost(post));
      forall j | j in posts && j != id ensures posts[j] != post {
        assert posts[j].id == Some(j);
      }
      assert Rows() == before[id := before[id].(title := request.title, content := request.content)];
    }

    /** `deletePost`: not-found for an absent id, forbidden unless the acting user is
        the owner record itself, and otherwise exactly that row leaves the table. */
    method DeletePost(id: int, user: User) returns (r: Outcome<Error>)
      requires Valid()
      modifies this
      ensures Valid() && nextId == old(nextId)
      ensures id !in old(Rows()) ==>
        r == Fail(NotFound) && Rows() == old(Rows()) && order == old(order)
      ensures id in old(Rows()) && !MayDelete(old(Rows())[id].owner, user) ==>
        r == Fail(Forbidden) && Rows() == old(Rows()) && order == old(order)
      ensures id in old(Rows()) && MayDelete(old(Rows())[id].owner, user) ==>
        r == Pass && Rows() == old(Rows()) - {id} && order == Without(old(order), id)
    {
      var found := FindPost(id);
      if found.Failure? {
        return Fail(found.error);
      }
      var post := found.value;
      if post.user.value != user {
        return Fail(Forbidden);
      }
      Delete(post);
      r := Pass;
    }
  }
}
