/** Entities of the social-network API, the document store that holds them, the
    HTTP responses the handlers send, and the external services they call. */
module Model {

  type UserId = string
  type PostId = string
  type CommentId = string

  datatype Option<T> = None | Some(value: T)

  /** A registered account; `password` holds the salted hash, never the
      plaintext. */
  datatype User = User(id: UserId, name: string, email: string, avatar: string, password: string)

  /** A user record as selected with the password field excluded. */
  datatype PublicUser = PublicUser(id: UserId, name: string, email: string, avatar: string)

  datatype Like = Like(user: UserId)

  /** A stored comment: its author's name and avatar are copied at comment time. */
  datatype Comment = Comment(id: CommentId, user: UserId, text: string, name: string, avatar: string, date: int)

  /** The plain object the add-comment handler builds and sends back: it carries
      neither the generated id nor the date. */
  datatype CommentDraft = CommentDraft(text: string, name: string, avatar: string, user: UserId)

  /** A post: `user` is its author, `name` and `avatar` are the author's at
      creation time; likes and comments are kept most recent first. */
  datatype Post = Post(
    id: PostId, user: UserId, text: string, name: string, avatar: string,
    likes: seq<Like>, comments: seq<Comment>, date: int)

  /** The two document collections, keyed by document id. */
  datatype Store = Store(users: map<UserId, User>, posts: map<PostId, Post>)

  /** One entry of an `errors` array: a failed field check or a bare message. */
  datatype ErrorItem = FieldError(param: string, msg: string) | Message(msg: string)

  /** The claims a token is signed over: the user id, the signing time `iat`
      and the expiry `exp`, both in whole seconds since the epoch. */
  datatype TokenPayload = TokenPayload(userId: UserId, iat: int, exp: int)

  /** Validity of every issued token: 360000 seconds, i.e. 100 hours. */
  const TokenLifetime: nat := 360000

  /** The claims of a token for user `id` signed at `now` (milliseconds since
      the epoch): the signer stamps the time rounded down to the second and
      adds the lifetime to get the expiry. */
  function Claims(id: UserId, now: int): (p: TokenPayload)
    ensures p.userId == id
    ensures p.iat * 1000 <= now < p.iat * 1000 + 1000
    ensures p.exp == p.iat + TokenLifetime
  {
    var iat := now / 1000;
    TokenPayload(id, iat, iat + TokenLifetime)
  }

  /** What a handler writes into the response body. */
  datatype Body =
    | Msg(msg: string)                              // json {msg}
    | Text(text: string)                            // send(text)
    | Errors(key: string, items: seq<ErrorItem>)    // json {errors: [...]} or {error: [...]}
    | PostBody(post: Post)
    | PostsBody(posts: seq<Post>)
    | LikesBody(likes: seq<Like>)
    | CommentBody(comment: CommentDraft)
    | CommentsBody(comments: seq<Comment>)
    | TokenBody(token: string)
    | UserBody(user: PublicUser)
    | Null                                          // json(null)

  datatype Response = Response(status: int, body: Body)

  /** A handler's answer together with the store it leaves behind. */
  datatype Reply = Reply(res: Response, store: Store)

  /** Outcome of a find-by-id: the document, no document, or an id that cannot
      be cast to an ObjectId (a CastError of kind 'ObjectId'). */
  datatype Lookup<T> = Found(value: T) | Missing | CastFailure

  /** The services the handlers call but whose internals are not modelled:
      the ObjectId shape test, the e-mail format test, the gravatar URL of an
      address, bcrypt's hash and compare, and the token signer (which closes
      over the configured secret). */
  datatype Env = Env(
    isObjectId: string -> bool,
    isEmail: string -> bool,
    gravatar: string -> string,
    hash: (string, string) -> string,
    compare: (string, string) -> bool,
    sign: TokenPayload -> string)

  /** `findById` on either collection: a well-formed id finds the stored
      document or null; a malformed one throws. */
  function FindById<T>(env: Env, m: map<string, T>, id: string): (r: Lookup<T>)
    ensures r.CastFailure? <==> !env.isObjectId(id)
    ensures r.Found? <==> env.isObjectId(id) && id in m
    ensures r.Found? ==> r.value == m[id]
  {
    if !env.isObjectId(id) then CastFailure
    else if id in m then Found(m[id])
    else Missing
  }
}
