/** The post handlers: create, list, get, delete, like, unlike, add comment and
    delete comment. Each takes the store, the verified caller id and the request
    fields, and yields the response together with the store it leaves. */
module Posts {
  import opened Model
  import opened Seqs

  const PostNotFound: Response := Response(404, Msg("Post not found"))
  const NotAuthorized: Response := Response(401, Text("User not authorized"))
  const ServerError: Response := Response(500, Text("Server Error"))
  const TextRequired: Response := Response(400, Errors("error", [FieldError("text", "Text is required")]))
  const AlreadyLiked: Response := Response(400, Msg("Post already liked"))
  const NotLiked: Response := Response(400, Msg("Post has not been liked"))
  const PostRemoved: Response := Response(200, Msg("Post removed"))

  // ---------------------------------------------------------------- likes

  /** The user ids of `likes`, in order. */
  function LikeUsers(likes: seq<Like>): (us: seq<UserId>)
    ensures |us| == |likes|
    ensures forall i :: 0 <= i < |likes| ==> us[i] == likes[i].user
  {
    seq(|likes|, i requires 0 <= i < |likes| => likes[i].user)
  }

  /** The likes left by `u`: the filter the like and unlike handlers run. Its
      length is the number of times `u` occurs among the likers. */
  function LikesBy(likes: seq<Like>, u: UserId): (r: seq<Like>)
    ensures forall l :: l in r ==> l == Like(u)
    ensures |r| == multiset(LikeUsers(likes))[u]
    decreases |likes|
  {
    if |likes| == 0 then []
    else
      assert LikeUsers(likes) == [likes[0].user] + LikeUsers(likes[1..]);
      (if likes[0].user == u then [likes[0]] else []) + LikesBy(likes[1..], u)
  }

  /** The filter finds a like by `u`: `u` is among the likers. */
  predicate LikedBy(likes: seq<Like>, u: UserId): (b: bool)
    ensures b <==> u in LikeUsers(likes)
  {
    |LikesBy(likes, u)| > 0
  }

  /** The store invariant on likes: no user likes a post twice. */
  ghost predicate OneLikePerUser(likes: seq<Like>)
  {
    forall i, j :: 0 <= i < j < |likes| ==> likes[i].user != likes[j].user
  }

  /** `i` is the position of the first like left by `u`. */
  ghost predicate FirstLikeBy(likes: seq<Like>, u: UserId, i: int)
  {
    0 <= i < |likes| && likes[i].user == u && forall j :: 0 <= j < i ==> likes[j].user != u
  }

  lemma LikedByIffSomeLike(likes: seq<Like>, u: UserId)
    ensures LikedBy(likes, u) <==> exists i :: 0 <= i < |likes| && likes[i].user == u
  {
    var us := LikeUsers(likes);
    if LikedBy(likes, u) {
      assert u in us;
      var i :| 0 <= i < |us| && us[i] == u;
      assert likes[i].user == u;
    }
  }

  lemma LikeUsersPrepend(l: Like, likes: seq<Like>)
    ensures LikeUsers([l] + likes) == [l.user] + LikeUsers(likes)
  {
  }

  // ---------------------------------------------------------------- comments

  /** The ids of `comments`, in order. */
  function CommentIds(comments: seq<Comment>): (ids: seq<CommentId>)
    ensures |ids| == |comments|
    ensures forall i :: 0 <= i < |comments| ==> ids[i] == comments[i].id
  {
    seq(|comments|, i requires 0 <= i < |comments| => comments[i].id)
  }

  /** `i` is the position of the first comment whose id is `cid`. */
  ghost predicate FirstWithId(comments: seq<Comment>, cid: CommentId, i: int)
  {
    0 <= i < |comments| && comments[i].id == cid && forall j :: 0 <= j < i ==> comments[j].id != cid
  }

  // ---------------------------------------------------------------- store

  /** Every post is stored under its own id and is liked at most once per user. */
  ghost predicate ValidPosts(posts: map<PostId, Post>)
  {
    forall k :: k in posts ==> posts[k].id == k && OneLikePerUser(posts[k].likes)
  }

  /** `s'` differs from `s` at most in the likes and comments of post `id`. */
  ghost predicate OnlyPostUpdated(s: Store, s': Store, id: PostId)
  {
    && s'.users == s.users
    && s'.posts.Keys == s.posts.Keys
    && id in s.posts && id in s'.posts
    && (forall k :: k in s.posts && k != id ==> k in s'.posts && s'.posts[k] == s.posts[k])
    && s'.posts[id] == s.posts[id].(likes := s'.posts[id].likes, comments := s'.posts[id].comments)
  }

  lemma UpdatePostFrame(s: Store, id: PostId, post: Post)
    requires id in s.posts
    requires post == s.posts[id].(likes := post.likes, comments := post.comments)
    ensures OnlyPostUpdated(s, s.(posts := s.posts[id := post]), id)
  {
  }

  lemma ValidAfterUpdate(posts: map<PostId, Post>, id: PostId, post: Post)
    requires ValidPosts(posts)
    requires post.id == id && OneLikePerUser(post.likes)
    ensures ValidPosts(posts[id := post])
  {
  }

  /** Two updates confined to post `id` that end with its original value leave
      the store as it was. */
  lemma UpdatesCancel(s: Store, s1: Store, s2: Store, id: PostId)
    requires OnlyPostUpdated(s, s1, id) && OnlyPostUpdated(s1, s2, id)
    requires s2.posts[id] == s.posts[id]
    ensures s2 == s
  {
    assert s2.posts.Keys == s.posts.Keys;
    forall k | k in s.posts
      ensures s2.posts[k] == s.posts[k]
    {
      if k != id {
        assert s1.posts[k] == s.posts[k];
      }
    }
    assert s2.posts == s.posts;
  }

  // ---------------------------------------------------------------- handlers

  /** POST /: a non-empty text becomes a new post carrying the caller's current
      name and avatar. */
  function CreatePost(env: Env, s: Store, caller: UserId, text: string, newId: PostId, now: int): (r: Reply)
    ensures text == "" ==> r == Reply(TextRequired, s)
    ensures text != "" && !FindById(env, s.users, caller).Found? ==> r == Reply(ServerError, s)
    ensures r.res.status == 200 <==> text != "" && FindById(env, s.users, caller).Found? && newId !in s.posts
    ensures r.res.status != 200 ==> r.store == s
    ensures r.res.status == 200 ==>
      && r.store.users == s.users
      && r.store.posts.Keys == s.posts.Keys + {newId}
      && (forall k :: k in s.posts ==> r.store.posts[k] == s.posts[k])
      && var p := r.store.posts[newId];
         && p.id == newId && p.user == caller && p.text == text
         && p.name == s.users[caller].name && p.avatar == s.users[caller].avatar
         && p.likes == [] && p.comments == [] && p.date == now
         && r.res.body == PostBody(p)
    ensures ValidPosts(s.posts) ==> ValidPosts(r.store.posts)
  {
    if text == "" then Reply(TextRequired, s)
    else match FindById(env, s.users, caller)
      case Found(user) =>
        if newId in s.posts then Reply(ServerError, s)  // save fails on the duplicate key
        else
          var post := Post(newId, caller, text, user.name, user.avatar, [], [], now);
          Reply(Response(200, PostBody(post)), s.(posts := s.posts[newId := post]))
      case _ => Reply(ServerError, s)  // reading user.name of null throws
  }

  /** Orders by date, newest first. */
  ghost predicate NewestFirst(ps: seq<Post>)
  {
    forall i, j :: 0 <= i < j < |ps| ==> ps[i].date >= ps[j].date
  }

  lemma PrependNewest(x: Post, rest: seq<Post>)
    requires NewestFirst(rest)
    requires forall q :: q in rest ==> q.date <= x.date
    ensures NewestFirst([x] + rest)
  {
    forall i, j | 0 <= i < j < |[x] + rest|
      ensures ([x] + rest)[i].date >= ([x] + rest)[j].date
    {
      if i > 0 {
        assert ([x] + rest)[i] == rest[i - 1];
      }
      assert ([x] + rest)[j] == rest[j - 1];
    }
  }

  /** The members of a sequence whose multiset is that of `ps` plus `p`. */
  lemma MembersAfterInsert(r: seq<Post>, ps: seq<Post>, p: Post)
    requires multiset(r) == multiset(ps) + multiset{p}
    ensures forall q :: q in r <==> q in ps || q == p
  {
    forall q ensures q in r <==> q in ps || q == p {
      assert q in r <==> q in multiset(r);
      assert q in ps <==> q in multiset(ps);
    }
  }

  function InsertByDate(ps: seq<Post>, p: Post): (r: seq<Post>)
    requires NewestFirst(ps)
    ensures NewestFirst(r)
    ensures |r| == |ps| + 1
    ensures multiset(r) == multiset(ps) + multiset{p}
    decreases |ps|
  {
    if |ps| == 0 || p.date >= ps[0].date then [p] + ps
    else
      var rest := InsertByDate(ps[1..], p);
      MembersAfterInsert(rest, ps[1..], p);
      PrependNewest(ps[0], rest);
      assert ps == [ps[0]] + ps[1..];
      [ps[0]] + rest
  }

  /** GET /: every stored post, newest first. */
  method ListPosts(s: Store) returns (r: Response)
    ensures r.status == 200 && r.body.PostsBody?
    ensures NewestFirst(r.body.posts)
    ensures |r.body.posts| == |s.posts|
    ensures forall k :: k in s.posts ==> s.posts[k] in r.body.posts
    ensures forall p :: p in r.body.posts ==> p in s.posts.Values
  {
    var ps: seq<Post> := [];
    var todo := s.posts.Keys;
    ghost var done: set<PostId> := {};
    while todo != {}
      invariant todo !! done && todo + done == s.posts.Keys
      invariant |ps| == |done|
      invariant NewestFirst(ps)
      invariant forall k :: k in done ==> s.posts[k] in ps
      invariant forall p :: p in ps ==> p in s.posts.Values
      decreases todo
    {
      var k :| k in todo;
      assert s.posts[k] in s.posts.Values;
      ghost var before := ps;
      ps := InsertByDate(ps, s.posts[k]);
      MembersAfterInsert(ps, before, s.posts[k]);
      assert |done + {k}| == |done| + 1;
      todo := todo - {k};
      done := done + {k};
    }
    assert done == s.posts.Keys;
    r := Response(200, PostsBody(ps));
  }

  /** GET /:id. */
  function GetPost(env: Env, s: Store, id: PostId): (r: Response)
    ensures r.status == 200 <==> env.isObjectId(id) && id in s.posts
    ensures r.status == 200 ==> r.body == PostBody(s.posts[id])
    ensures r.status != 200 ==> r == PostNotFound
  {
    match FindById(env, s.posts, id)
    case Found(post) => Response(200, PostBody(post))
    case _ => PostNotFound
  }

  /** DELETE /:id: only the author may remove a post. */
  function DeletePost(env: Env, s: Store, caller: UserId, id: PostId): (r: Reply)
    ensures !FindById(env, s.posts, id).Found? ==> r == Reply(PostNotFound, s)
    ensures FindById(env, s.posts, id).Found? && s.posts[id].user != caller ==> r == Reply(NotAuthorized, s)
    ensures r.res.status == 200 <==> FindById(env, s.posts, id).Found? && s.posts[id].user == caller
    ensures r.res.status == 200 ==>
      && r.res == PostRemoved
      && r.store.users == s.users
      && r.store.posts.Keys == s.posts.Keys - {id}
      && |r.store.posts| == |s.posts| - 1
      && (forall k :: k in r.store.posts ==> r.store.posts[k] == s.posts[k])
    ensures ValidPosts(s.posts) ==> ValidPosts(r.store.posts)
  {
    match FindById(env, s.posts, id)
    case Found(post) =>
      if post.user != caller then Reply(NotAuthorized, s)
      else Reply(PostRemoved, s.(posts := s.posts - {id}))
    case _ => Reply(PostNotFound, s)
  }

  /** PUT /like/:id: a caller who has not liked the post yet is put in front.
      A caller id that is not an ObjectId passes the filter, but saving a like
      with that user fails validation, and the handler answers with a server
      error. */
  function LikePost(env: Env, s: Store, caller: UserId, id: PostId): (r: Reply)
    ensures !FindById(env, s.posts, id).Found? ==> r == Reply(PostNotFound, s)
    ensures FindById(env, s.posts, id).Found? && LikedBy(s.posts[id].likes, caller) ==> r == Reply(AlreadyLiked, s)
    ensures FindById(env, s.posts, id).Found? && !LikedBy(s.posts[id].likes, caller) && !env.isObjectId(caller) ==>
      r == Reply(ServerError, s)
    ensures r.res.status == 200 <==>
      FindById(env, s.posts, id).Found? && !LikedBy(s.posts[id].likes, caller) && env.isObjectId(caller)
    ensures r.res.status == 200 ==>
      && OnlyPostUpdated(s, r.store, id)
      && r.store.posts[id].comments == s.posts[id].comments
      && var before, after := s.posts[id].likes, r.store.posts[id].likes;
         && |after| == |before| + 1
         && after[0] == Like(caller) && after[1..] == before
         && |LikesBy(after, caller)| == 1
         && (OneLikePerUser(before) ==> OneLikePerUser(after))
         && r.res.body == LikesBody(after)
    ensures ValidPosts(s.posts) ==> ValidPosts(r.store.posts)
  {
    match FindById(env, s.posts, id)
    case Found(post) =>
      if LikedBy(post.likes, caller) then Reply(AlreadyLiked, s)
      // the new like's user must cast to an ObjectId, or save fails validation
      else if !env.isObjectId(caller) then Reply(ServerError, s)
      else
        var likes := [Like(caller)] + post.likes;
        LikeOutcome(s, id, caller);
        Reply(Response(200, LikesBody(likes)), s.(posts := s.posts[id := post.(likes := likes)]))
    case _ => Reply(PostNotFound, s)
  }

  /** Putting a like by a caller who has none in front. */
  lemma LikeKeepsOneLikePerUser(likes: seq<Like>, u: UserId)
    requires !LikedBy(likes, u)
    ensures |LikesBy([Like(u)] + likes, u)| == 1
    ensures OneLikePerUser(likes) ==> OneLikePerUser([Like(u)] + likes)
  {
    var after := [Like(u)] + likes;
    LikeUsersPrepend(Like(u), likes);
    assert multiset(LikeUsers(after))[u] == multiset(LikeUsers(likes))[u] + 1;
    LikedByIffSomeLike(likes, u);
    if OneLikePerUser(likes) {
      forall i, j | 0 <= i < j < |after| ensures after[i].user != after[j].user {
        assert after[j] == likes[j - 1];
        if i > 0 {
          assert after[i] == likes[i - 1];
        }
      }
    }
  }

  /** The store a like leaves when the caller has not liked post `id` yet. */
  lemma LikeOutcome(s: Store, id: PostId, caller: UserId)
    requires id in s.posts && !LikedBy(s.posts[id].likes, caller)
    ensures var before := s.posts[id].likes;
      var after := [Like(caller)] + before;
      var s' := s.(posts := s.posts[id := s.posts[id].(likes := after)]);
      && OnlyPostUpdated(s, s', id)
      && s'.posts[id].comments == s.posts[id].comments
      && |LikesBy(after, caller)| == 1
      && (OneLikePerUser(before) ==> OneLikePerUser(after))
      && (ValidPosts(s.posts) ==> ValidPosts(s'.posts))
  {
    var post := s.posts[id];
    var post' := post.(likes := [Like(caller)] + post.likes);
    LikeKeepsOneLikePerUser(post.likes, caller);
    UpdatePostFrame(s, id, post');
    if ValidPosts(s.posts) {
      ValidAfterUpdate(s.posts, id, post');
    }
  }

  /** PUT /unlike/:id: the first like left by the caller is taken out. */
  function UnlikePost(env: Env, s: Store, caller: UserId, id: PostId): (r: Reply)
    ensures !FindById(env, s.posts, id).Found? ==> r == Reply(PostNotFound, s)
    ensures FindById(env, s.posts, id).Found? && !LikedBy(s.posts[id].likes, caller) ==> r == Reply(NotLiked, s)
    ensures r.res.status == 200 <==> FindById(env, s.posts, id).Found? && LikedBy(s.posts[id].likes, caller)
    ensures r.res.status == 200 ==>
      && OnlyPostUpdated(s, r.store, id)
      && r.store.posts[id].comments == s.posts[id].comments
      && var before, after := s.posts[id].likes, r.store.posts[id].likes;
         && (exists i :: FirstLikeBy(before, caller, i) && after == RemoveAt(before, i))
         && |after| == |before| - 1
         && |LikesBy(after, caller)| == |LikesBy(before, caller)| - 1
         && (OneLikePerUser(before) ==> OneLikePerUser(after) && !LikedBy(after, caller))
         && r.res.body == LikesBody(after)
    ensures ValidPosts(s.posts) ==> ValidPosts(r.store.posts)
  {
    match FindById(env, s.posts, id)
    case Found(post) =>
      if !LikedBy(post.likes, caller) then Reply(NotLiked, s)
      else
        var i := IndexOf(LikeUsers(post.likes), caller);
        var likes := RemoveAt(post.likes, i);
        assert FirstLikeBy(post.likes, caller, i);
        UnlikeOutcome(s, id, caller, i);
        Reply(Response(200, LikesBody(likes)), s.(posts := s.posts[id := post.(likes := likes)]))
    case _ => Reply(PostNotFound, s)
  }

  /** What removing the caller's first like does to the likes. */
  lemma UnlikeKeepsOneLikePerUser(likes: seq<Like>, u: UserId, i: int)
    requires FirstLikeBy(likes, u, i)
    ensures |LikesBy(RemoveAt(likes, i), u)| == |LikesBy(likes, u)| - 1
    ensures OneLikePerUser(likes) ==> OneLikePerUser(RemoveAt(likes, i)) && !LikedBy(RemoveAt(likes, i), u)
  {
    var after := RemoveAt(likes, i);
    assert LikeUsers(after) == RemoveAt(LikeUsers(likes), i);
    if OneLikePerUser(likes) {
      forall k | 0 <= k < |after| ensures after[k].user != u {
        if k >= i {
          assert after[k] == likes[k + 1];
        }
      }
      LikedByIffSomeLike(after, u);
    }
  }

  /** The store an unlike leaves when `i` is the caller's first like. */
  lemma UnlikeOutcome(s: Store, id: PostId, caller: UserId, i: int)
    requires id in s.posts && FirstLikeBy(s.posts[id].likes, caller, i)
    ensures var before := s.posts[id].likes;
      var after := RemoveAt(before, i);
      var s' := s.(posts := s.posts[id := s.posts[id].(likes := after)]);
      && OnlyPostUpdated(s, s', id)
      && s'.posts[id].comments == s.posts[id].comments
      && (exists j :: FirstLikeBy(before, caller, j) && after == RemoveAt(before, j))
      && |after| == |before| - 1
      && |LikesBy(after, caller)| == |LikesBy(before, caller)| - 1
      && (OneLikePerUser(before) ==> OneLikePerUser(after) && !LikedBy(after, caller))
      && (ValidPosts(s.posts) ==> ValidPosts(s'.posts))
  {
    var post := s.posts[id];
    var post' := post.(likes := RemoveAt(post.likes, i));
    UnlikeKeepsOneLikePerUser(post.likes, caller, i);
    UpdatePostFrame(s, id, post');
    if ValidPosts(s.posts) {
      ValidAfterUpdate(s.posts, id, post');
    }
  }

  /** POST /comment/:id: a non-empty text is put in front of the comments with
      the caller's current name and avatar. The handler never checks that the
      post was found, so a missing or malformed post id ends in a server error. */
  function AddComment(env: Env, s: Store, caller: UserId, id: PostId, text: string, newId: CommentId, now: int): (r: Reply)
    ensures text == "" ==> r == Reply(TextRequired, s)
    ensures text != "" && !(FindById(env, s.users, caller).Found? && FindById(env, s.posts, id).Found?) ==> r == Reply(ServerError, s)
    ensures r.res.status == 200 <==> text != "" && FindById(env, s.users, caller).Found? && FindById(env, s.posts, id).Found?
    ensures r.res.status == 200 ==>
      && OnlyPostUpdated(s, r.store, id)
      && r.store.posts[id].likes == s.posts[id].likes
      && var before, after, author := s.posts[id].comments, r.store.posts[id].comments, s.users[caller];
         && |after| == |before| + 1 && after[1..] == before
         && after[0] == Comment(newId, caller, text, author.name, author.avatar, now)
         && r.res.body == CommentBody(CommentDraft(text, author.name, author.avatar, caller))
    ensures ValidPosts(s.posts) ==> ValidPosts(r.store.posts)
  {
    if text == "" then Reply(TextRequired, s)
    else match (FindById(env, s.users, caller), FindById(env, s.posts, id))
      case (Found(user), Found(post)) =>
        var draft := CommentDraft(text, user.name, user.avatar, caller);
        var comment := Comment(newId, caller, text, user.name, user.avatar, now);
        UpdatePostFrame(s, id, post.(comments := [comment] + post.comments));
        Reply(Response(200, CommentBody(draft)),
              s.(posts := s.posts[id := post.(comments := [comment] + post.comments)]))
      case _ => Reply(ServerError, s)
  }

  /** DELETE /comment/:post_id/:comment_id: only the comment's author may
      remove it. indexOf yields -1, never null, for an unknown comment id, so
      the not-found test cannot fire; reading the author of the element at -1
      throws instead, and the handler answers with a server error. */
  function DeleteComment(env: Env, s: Store, caller: UserId, id: PostId, cid: CommentId): (r: Reply)
    ensures !FindById(env, s.posts, id).Found? ==> r == Reply(PostNotFound, s)
    ensures FindById(env, s.posts, id).Found? && cid !in CommentIds(s.posts[id].comments) ==> r == Reply(ServerError, s)
    ensures FindById(env, s.posts, id).Found? ==>
      forall i :: FirstWithId(s.posts[id].comments, cid, i) && s.posts[id].comments[i].user != caller ==>
        r == Reply(NotAuthorized, s)
    ensures r.res.status == 200 <==>
      FindById(env, s.posts, id).Found? &&
      exists i :: FirstWithId(s.posts[id].comments, cid, i) && s.posts[id].comments[i].user == caller
    ensures r.res.status == 200 ==>
      && OnlyPostUpdated(s, r.store, id)
      && r.store.posts[id].likes == s.posts[id].likes
      && var before, after := s.posts[id].comments, r.store.posts[id].comments;
         && (exists i :: FirstWithId(before, cid, i) && before[i].user == caller && after == RemoveAt(before, i))
         && |after| == |before| - 1
         && r.res.body == CommentsBody(after)
    ensures ValidPosts(s.posts) ==> ValidPosts(r.store.posts)
  {
    match FindById(env, s.posts, id)
    case Found(post) =>
      var i := IndexOf(CommentIds(post.comments), cid);
      // The handler's `comment_index == null` test is always false here.
      if i == -1 then Reply(ServerError, s)
      else
        assert FirstWithId(post.comments, cid, i);
        FirstWithIdUnique(post.comments, cid, i);
        if post.comments[i].user != caller then Reply(NotAuthorized, s)
        else
          var comments := RemoveAt(post.comments, i);
          UpdatePostFrame(s, id, post.(comments := comments));
          Reply(Response(200, CommentsBody(comments)), s.(posts := s.posts[id := post.(comments := comments)]))
    case _ => Reply(PostNotFound, s)
  }

  lemma FirstWithIdUnique(comments: seq<Comment>, cid: CommentId, i: int)
    requires FirstWithId(comments, cid, i)
    ensures forall j :: FirstWithId(comments, cid, j) ==> j == i
  {
  }

  // ---------------------------------------------------------------- round trips

  /** A like followed by an unlike from the same caller restores the store. */
  lemma LikeThenUnlike(env: Env, s: Store, caller: UserId, id: PostId)
    requires env.isObjectId(caller) && env.isObjectId(id) && id in s.posts && !LikedBy(s.posts[id].likes, caller)
    ensures UnlikePost(env, LikePost(env, s, caller, id).store, caller, id)
         == Reply(Response(200, LikesBody(s.posts[id].likes)), s)
  {
    var liked := LikePost(env, s, caller, id).store;
    var r := UnlikePost(env, liked, caller, id);
    var before, after := s.posts[id].likes, liked.posts[id].likes;
    assert FindById(env, liked.posts, id).Found?;
    assert LikedBy(after, caller);
    var i :| FirstLikeBy(after, caller, i) && r.store.posts[id].likes == RemoveAt(after, i);
    assert i == 0;
    assert r.store.posts[id].likes == before;
    assert r.store.posts[id] == s.posts[id];
    UpdatesCancel(s, liked, r.store, id);
  }

  /** A second like from the same caller is refused and changes nothing. */
  lemma LikeTwice(env: Env, s: Store, caller: UserId, id: PostId)
    requires env.isObjectId(caller) && env.isObjectId(id) && id in s.posts && !LikedBy(s.posts[id].likes, caller)
    ensures var liked := LikePost(env, s, caller, id).store;
      LikePost(env, liked, caller, id) == Reply(AlreadyLiked, liked)
  {
  }

  /** Adding a comment and then deleting it by the id it was given restores the store. */
  lemma AddThenDeleteComment(env: Env, s: Store, caller: UserId, id: PostId, text: string, cid: CommentId, now: int)
    requires text != "" && env.isObjectId(caller) && caller in s.users && env.isObjectId(id) && id in s.posts
    ensures DeleteComment(env, AddComment(env, s, caller, id, text, cid, now).store, caller, id, cid)
         == Reply(Response(200, CommentsBody(s.posts[id].comments)), s)
  {
    var added := AddComment(env, s, caller, id, text, cid, now).store;
    var r := DeleteComment(env, added, caller, id, cid);
    var before, after := s.posts[id].comments, added.posts[id].comments;
    assert FindById(env, added.posts, id).Found?;
    assert FirstWithId(after, cid, 0) && after[0].user == caller;
    var i :| FirstWithId(after, cid, i) && after[i].user == caller && r.store.posts[id].comments == RemoveAt(after, i);
    assert i == 0;
    assert r.store.posts[id].comments == before;
    assert r.store.posts[id] == s.posts[id];
    UpdatesCancel(s, added, r.store, id);
  }

  /** Creating a post and then deleting it as its author restores the store. */
  lemma CreateThenDelete(env: Env, s: Store, caller: UserId, text: string, newId: PostId, now: int)
    requires text != "" && env.isObjectId(caller) && caller in s.users
    requires env.isObjectId(newId) && newId !in s.posts
    ensures DeletePost(env, CreatePost(env, s, caller, text, newId, now).store, caller, newId) == Reply(PostRemoved, s)
  {
    var post := Post(newId, caller, text, s.users[caller].name, s.users[caller].avatar, [], [], now);
    var created := CreatePost(env, s, caller, text, newId, now).store;
    assert created == s.(posts := s.posts[newId := post]);
    assert created.posts[newId].user == caller;
    assert s.posts[newId := post] - {newId} == s.posts;
  }

  /** A created post is what a get by its new id returns. */
  lemma CreateThenGet(env: Env, s: Store, caller: UserId, text: string, newId: PostId, now: int)
    requires text != "" && env.isObjectId(caller) && caller in s.users
    requires env.isObjectId(newId) && newId !in s.posts
    ensures var created := CreatePost(env, s, caller, text, newId, now);
      GetPost(env, created.store, newId) == created.res
  {
  }
}
