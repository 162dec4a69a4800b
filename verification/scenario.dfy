/** The walk-through the API is built for: register, post, like, like again,
    unlike, starting from an empty store. */
module Scenario {
  import opened Model
  import Users
  import Posts

  lemma RegisterPostLikeUnlike(env: Env, uid: UserId, pid: PostId, salt: string, now: int)
    requires env.isEmail("a@x.com") && env.isObjectId(uid) && env.isObjectId(pid)
    ensures
      var reg := Users.Register(env, Store(map[], map[]), Users.Registration("A", "a@x.com", "secret1"), uid, salt, now);
      var created := Posts.CreatePost(env, reg.store, uid, "hi", pid, now);
      var liked := Posts.LikePost(env, created.store, uid, pid);
      var again := Posts.LikePost(env, liked.store, uid, pid);
      var unliked := Posts.UnlikePost(env, again.store, uid, pid);
      && reg.res.status == 200
      && created.res.status == 200 && created.res.body.post.name == "A"
      && liked.res == Response(200, LikesBody([Like(uid)]))
      && again == Reply(Posts.AlreadyLiked, liked.store)
      && unliked.res == Response(200, LikesBody([]))
      && unliked.store == created.store
  {
    var reg := Users.Register(env, Store(map[], map[]), Users.Registration("A", "a@x.com", "secret1"), uid, salt, now);
    var created := Posts.CreatePost(env, reg.store, uid, "hi", pid, now);
    var liked := Posts.LikePost(env, created.store, uid, pid);
    assert |"secret1"| >= Users.MinPasswordLength;
    assert reg.res.status == 200;
    assert created.res.status == 200;
    assert liked.res.status == 200;
    Posts.LikeTwice(env, created.store, uid, pid);
    Posts.LikeThenUnlike(env, created.store, uid, pid);
  }
}
