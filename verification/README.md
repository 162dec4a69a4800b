# Social network API: post mutations, registration and login

A Dafny model of the REST handlers of a small social-networking back end.
Each handler becomes a pure function. It takes the document store, the
caller's verified user id and the request fields. It returns the HTTP response
(status and body) together with the store it leaves behind.

- `Model` (model.dfy) holds the entities. Users, posts, likes and comments are
  immutable datatypes. The store is two maps keyed by document id. The
  external services are one `Env` record of function values: the ObjectId
  shape test, the e-mail format test, the gravatar URL, bcrypt's hash and
  compare, and the token signer.
- `Posts` (posts.dfy) holds the handlers of `routes/api/posts.js`: create,
  list, get, delete, like, unlike, add comment and delete comment. It also
  holds the round trips between them and the store invariant `ValidPosts`.
  That invariant says every post sits under its own id and has at most one
  like per user. Every handler preserves it.
- `Users` (users.dfy) holds registration: field
  validation, the duplicate-address check, the hashed password and the token.
  Its invariant `ValidUsers` says accounts sit under their own ids and
  addresses are unique. Registration preserves it.
- `Auth` (auth.dfy) holds login, whose two refusals look the same, and the
  current-user lookup, which drops the password.
- `Seqs` (seqs.dfy) holds JavaScript's `indexOf` and `splice(i, 1)` over
  sequences.
- `Scenario` (scenario.dfy) holds the register, post, like, like, unlike
  walk-through from an empty store.

Behaviour of the code that the model keeps as written:

- A malformed id makes the Mongoose lookup throw a CastError of kind
  'ObjectId'. Get, delete, like, unlike and delete-comment answer that with
  404. Create and add-comment have no such branch in their error handler and
  answer 500.
- Add-comment never tests whether the post was found. A missing post
  therefore ends in 500, not 404.
- Delete-comment compares the result of `indexOf` with `null`. `indexOf`
  returns -1 for an unknown comment id, so that test never fires. The handler
  then reads the author of an element that does not exist, which throws, and
  it answers 500.
- Create and add-comment send validation errors under the key `error`.
  Registration and login use `errors`.
- The current-user handler answers a missing account with status 200 and a
  `null` body. A lookup that throws lands in an error path that sends no
  response at all. The model returns `None` for that case.
- Registration reads an absent field as the empty string, since the
  validators treat an undefined value as `''`. Login's password check only
  asks that the field exists, so an empty password passes validation, and so
  do `null` and a number. The login password is therefore absent, a string,
  or some other JSON value. For a registered address, bcrypt's compare
  rejects a non-string password and the handler answers 500.
- A caller id that is not an ObjectId passes the like handler's filter. The
  like it puts in front then fails the schema's ObjectId cast on save, and
  the handler answers 500.

## Model

| member | source | states |
|---|---|---|
| Seqs.IndexOf | routes/api/posts.js:137-139 | the position of the first occurrence, or -1 exactly when the element is absent |
| Model.FindById | routes/api/posts.js:58-66 | a well-formed id yields the stored document or nothing; a malformed id, and only that, yields the CastError of kind 'ObjectId' |
| Model.Claims | routes/api/users.js:69-80 | the token claims name the user, stamp the signing time rounded down to the second, and expire 360000 seconds after it |
| Seqs.RemoveAt | routes/api/posts.js:141 | removes exactly one element: length drops by one and the multiset loses that element; elements before and after keep their order |
| Posts.LikeUsers | routes/api/posts.js:137-138 | the likers' ids, one per like, in the order of the likes |
| Posts.LikesBy | routes/api/posts.js:105-107 | the caller's likes filter holds only the caller's likes, and its length is how often the caller occurs among the likers |
| Posts.LikedBy | routes/api/posts.js:105-107 | the filter finds a like exactly when the caller is among the likers |
| Posts.LikedByIffSomeLike | routes/api/posts.js:105-107 | the filter is non-empty exactly when some like carries the caller's id |
| Posts.CreatePost | routes/api/posts.js:12-38 | empty text gives 400 with no change; a missing or malformed caller record gives 500; otherwise exactly one post is added under the new id, with the caller as author, the caller's current name and avatar, the given time as its date, no likes and no comments; the invariant is kept |
| Posts.InsertByDate | routes/api/posts.js:45 | inserting into a newest-first list keeps it newest first and adds exactly that post |
| Posts.ListPosts | routes/api/posts.js:43-51 | answers 200 with every stored post, and nothing else, ordered by date with the newest first |
| Posts.GetPost | routes/api/posts.js:56-70 | 200 with the stored post exactly when the id is well formed and present; 404 "Post not found" otherwise |
| Posts.DeletePost | routes/api/posts.js:75-93 | absent or malformed id gives 404 and no change; a non-author gets 401 and the post stays; the author removes that post only, leaving every other post and the users unchanged |
| Posts.LikePost | routes/api/posts.js:98-120 | absent or malformed id gives 404; a repeat like gives 400 "Post already liked" with no change; a caller id that is not an ObjectId gives 500 with no change; otherwise one like by the caller is put in front, the rest of the likes is unchanged, the caller now likes the post exactly once, and one-like-per-user is kept |
| Posts.LikeKeepsOneLikePerUser | routes/api/posts.js:105-110 | putting a like in front for a caller with none leaves that caller exactly one like and keeps one-like-per-user |
| Posts.UnlikePost | routes/api/posts.js:125-152 | absent or malformed id gives 404; no like by the caller gives 400 "Post has not been liked" with no change; otherwise the caller's first like is removed and nothing else, the caller's like count drops by one, and under one-like-per-user the caller no longer likes the post |
| Posts.UnlikeKeepsOneLikePerUser | routes/api/posts.js:132-141 | removing the caller's first like lowers the caller's count by one, keeps one-like-per-user, and then leaves no like by the caller |
| Posts.AddComment | routes/api/posts.js:157-185 | empty text gives 400 with no change; a missing caller or a missing or malformed post gives 500 with no change; otherwise one comment is put in front of the comments with the caller's current name and avatar, and the answer is that comment without id or date |
| Posts.CommentIds | routes/api/posts.js:196-197 | the comments' ids, one per comment, in the order of the comments |
| Posts.DeleteComment | routes/api/posts.js:190-222 | absent or malformed post id gives 404; an unknown comment id gives 500; a comment by someone else gives 401 with no change; the author removes exactly the first comment with that id and the answer is the remaining comments |
| Posts.LikeThenUnlike | routes/api/posts.js:105-141 | a successful like followed by an unlike from the same caller restores the store and answers the original likes |
| Posts.LikeTwice | routes/api/posts.js:105-111 | a second like from the same caller is refused with 400 and changes nothing |
| Posts.AddThenDeleteComment | routes/api/posts.js:170-214 | adding a comment and deleting it by its new id as the same caller restores the store |
| Posts.CreateThenGet | routes/api/posts.js:24-62 | a get by the new id returns exactly the post that create answered with |
| Posts.CreateThenDelete | routes/api/posts.js:24-85 | creating a post and deleting it as its author restores the store |
| Users.EmailTaken | routes/api/users.js:35-36 | the lookup by address finds a document exactly when some stored account has that address |
| Users.RegistrationErrors | routes/api/users.js:16-27 | the name, e-mail and password errors each appear exactly when that check fails, and no other error appears |
| Users.Register | routes/api/users.js:13-93 | invalid input gives 400 listing every failed check and no change; a taken address gives 400 "User already exists" and no change; otherwise exactly one account is added under the new id with the gravatar avatar and the password replaced by its salted hash, and the token is signed over the claims for the new id at the signing time; address uniqueness is kept |
| Users.RegisterTwice | routes/api/users.js:35-44 | after a successful registration, any valid registration with the same address is refused and changes nothing |
| Auth.LoginErrors | routes/api/auth.js:29-37 | the e-mail error appears exactly when the address is malformed, the password error exactly when the field is absent |
| Auth.UserByEmail | routes/api/auth.js:44 | yields the one account whose address matches |
| Auth.Login | routes/api/auth.js:26-91 | invalid input gives 400 with the failed checks; credentials that open no account give the one "Invalid credentials" response; a password that is not a string gives 500 "Server error" when the address is registered and "Invalid credentials" otherwise; 200 exactly when some account has the address and accepts the password, with a token signed over the claims for that account's id at the login time |
| Auth.UnknownEmailLikeWrongPassword | routes/api/auth.js:44-64 | an unregistered address and a wrong password get the identical response |
| Auth.RegisterThenLogin | routes/api/auth.js:44-78 | after a registration, logging in with the same address and password gives a token for the new account stamped with the login time, provided bcrypt's compare accepts its own hash |
| Auth.Redact | routes/api/auth.js:15 | the record without its password keeps the id, name, address and avatar, so putting the password back gives the stored account |
| Auth.CurrentUser | routes/api/auth.js:13-21 | a stored caller gets 200 with the record minus its password; a missing caller gets 200 with a null body; a malformed id gets no response |
| Auth.RegisterThenCurrentUser | routes/api/auth.js:13-16 | after a registration, the current-user lookup of the new id gives the registered name, address and avatar and no password |
| Auth.CurrentUserHidesPassword | routes/api/auth.js:15-16 | the current-user answer is the same whatever password is stored |
| Scenario.RegisterPostLikeUnlike | routes/api/posts.js:98-152 | from an empty store: registration succeeds, the new post carries the author's name, a like gives one like, a second like is refused, an unlike gives no likes and restores the store |

## Left out

- bcrypt hashing and comparison, token signing and the gravatar URL are `Env` functions with no properties assumed. The one exception is `RegisterThenLogin`, which assumes compare accepts the hash it made.
- Model.FindById: ids are taken in their canonical lower-case spelling. Mongoose casts a 24-digit hex id of either case to the same ObjectId, so an upper-case spelling of a stored post or user id finds it in the program but not in the model. Comment ids are compared as plain strings by the handler, and the model does the same.
- Token verification, expiry and the auth middleware are not part of this model. The caller's id is an input, taken as already verified.
- An error thrown by the signing callback is raised outside the handler's error path, so no response is modelled for it. The model always returns the signed token.
- Persistence is two maps. Fresh document ids, the bcrypt salt and `Date.now` are parameters. `Date.now` also stands for the clock the token signer reads. A fresh id that is already stored stands for a duplicate-key failure of `save`, answered 500.
- Login picks the account by address and requires unique addresses (`EmailsUnique`). A unique index on the e-mail field provides this; the user schema is not part of this model. Registration proves it keeps this property.
- ListPosts: the posts come back as "every stored post, nothing else, same count". That is a permutation only when each post sits under its own id (`ValidPosts`). The order of posts with equal dates is not fixed, just as the database's sort does not fix it.
- Validation error entries keep only the field name and message. The `value` and `location` keys are dropped.
- The password length check counts Unicode code points, as `|s|` does over Dafny characters. Two gaps remain. Recent releases of the length validator also skip the variation selectors U+FE0E and U+FE0F, which the model counts. A JavaScript string may hold a lone surrogate, which is not a Dafny character.
- Request fields other than the login password are strings. A non-string name, address or registration password (which Mongoose would cast to a string) is not modelled.
- Mongoose also gives each like an `_id`. The model's likes carry only the user id, since no handler reads that `_id`.
- Logging, the client-side code (routing, Redux actions, HTTP calls, alerts) and concurrent requests racing on the same post are out of scope.
