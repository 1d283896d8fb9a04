/** The server as one in-memory store: the `users` and `posts` collections and the log
    of attempted file deletions, with one method per request handler. Every handler
    either answers with an error and leaves the store as it was, or applies exactly the
    change stated in its postcondition. */
module Server {
  import opened Wrappers
  import JsText
  import opened Credentials
  import opened UserModel
  import opened BlogModel
  import opened UserController
  import opened BlogController

  /** A success body that carries a message next to the document it is about. */
  datatype Saved<+T> = Saved(message: string, doc: T)

  /** One attempted `fs.unlink`: the stored path (resolved against the working
      directory), and whether the attempt failed. A failure is only logged. */
  datatype Unlink = Unlink(path: string, failed: bool)

  /** An unlink of `path`, failing when the path is among the `failing` ones. */
  function Attempt(path: string, failing: set<string>): (a: Unlink)
    ensures a.path == path && (a.failed <==> path in failing)
  {
    Unlink(path, path in failing)
  }

  /** The unlink `deleteUser` attempts for the profile photo: one if it is set. */
  function ProfileUnlinks(u: User, failing: set<string>): seq<Unlink> {
    if u.profilePhoto != "" then [Attempt(u.profilePhoto, failing)] else []
  }

  /** The unlinks `deleteUser` attempts while it walks the user's posts, in order. */
  function ImageUnlinks(posts: map<PostId, Post>, ids: seq<PostId>, failing: set<string>): seq<Unlink>
    requires forall k :: k in ids ==> k in posts
  {
    if ids == [] then []
    else
      var last := posts[ids[|ids| - 1]];
      ImageUnlinks(posts, ids[..|ids| - 1], failing)
        + (if last.image != "" then [Attempt(last.image, failing)] else [])
  }

  /** Every attempt in `r` is on the image of one of the posts at `ids`. */
  predicate AttemptsOnImages(posts: map<PostId, Post>, ids: seq<PostId>, r: seq<Unlink>)
    requires forall k :: k in ids ==> k in posts
  {
    forall j :: 0 <= j < |r| ==> exists k :: k in ids && posts[k].image == r[j].path
  }

  /** Every post at `ids` that has an image has it attempted in `r`. */
  predicate ImagesAttempted(posts: map<PostId, Post>, ids: seq<PostId>, r: seq<Unlink>)
    requires forall k :: k in ids ==> k in posts
  {
    forall k :: k in ids && posts[k].image != "" ==> exists j :: 0 <= j < |r| && r[j].path == posts[k].image
  }

  /** No attempt for an empty image: at most one attempt per post, exactly one each
      when every post has an image, and each attempt fails iff its path is a failing one. */
  lemma {:induction false} ImageUnlinksCount(posts: map<PostId, Post>, ids: seq<PostId>, failing: set<string>)
    requires forall k :: k in ids ==> k in posts
    ensures |ImageUnlinks(posts, ids, failing)| <= |ids|
    ensures (forall k :: k in ids ==> posts[k].image != "") ==> |ImageUnlinks(posts, ids, failing)| == |ids|
    ensures forall u :: u in ImageUnlinks(posts, ids, failing) ==> u.path != "" && (u.failed <==> u.path in failing)
  {
    if ids != [] {
      var init := ids[..|ids| - 1];
      assert forall k :: k in init ==> k in ids;
      ImageUnlinksCount(posts, init, failing);
    }
  }

  /** Every attempted path is the image of one of the posts. */
  lemma {:induction false} ImageUnlinksSound(posts: map<PostId, Post>, ids: seq<PostId>, failing: set<string>)
    requires forall k :: k in ids ==> k in posts
    ensures AttemptsOnImages(posts, ids, ImageUnlinks(posts, ids, failing))
  {
    if ids != [] {
      var init := ids[..|ids| - 1];
      var last := ids[|ids| - 1];
      assert forall k :: k in init ==> k in ids;
      ImageUnlinksSound(posts, init, failing);
      var a := ImageUnlinks(posts, init, failing);
      var r := ImageUnlinks(posts, ids, failing);
      var tail := if posts[last].image != "" then [Attempt(posts[last].image, failing)] else [];
      assert r == a + tail;
      forall j | 0 <= j < |r| ensures exists k :: k in ids && posts[k].image == r[j].path {
        if j < |a| {
          assert r[j] == a[j];
          var k :| k in init && posts[k].image == a[j].path;
          assert k in ids;
        } else {
          assert r[j].path == posts[last].image;
        }
      }
    }
  }

  /** Every post with an image has its image attempted. */
  lemma {:induction false} ImageUnlinksComplete(posts: map<PostId, Post>, ids: seq<PostId>, failing: set<string>)
    requires forall k :: k in ids ==> k in posts
    ensures ImagesAttempted(posts, ids, ImageUnlinks(posts, ids, failing))
  {
    if ids != [] {
      var init := ids[..|ids| - 1];
      var last := ids[|ids| - 1];
      assert ids == init + [last];
      assert forall k :: k in init ==> k in ids;
      ImageUnlinksComplete(posts, init, failing);
      var a := ImageUnlinks(posts, init, failing);
      var r := ImageUnlinks(posts, ids, failing);
      var tail := if posts[last].image != "" then [Attempt(posts[last].image, failing)] else [];
      assert r == a + tail;
      forall k | k in ids && posts[k].image != "" ensures exists j :: 0 <= j < |r| && r[j].path == posts[k].image {
        if k == last {
          assert r[|r| - 1].path == posts[k].image;
        } else {
          assert k in init;
          var j :| 0 <= j < |a| && a[j].path == posts[k].image;
          assert r[j] == a[j];
        }
      }
    }
  }

  /** `Blog.deleteMany({ author: uid })`. */
  function WithoutAuthor(posts: map<PostId, Post>, uid: UserId): map<PostId, Post> {
    map k | k in posts && posts[k].author != Some(uid) :: posts[k]
  }

  /** After the bulk delete no post of the user remains; every other post is kept as it
      was; the collection stays well formed. */
  lemma WithoutAuthorKeepsOthers(posts: map<PostId, Post>, uid: UserId)
    ensures var r := WithoutAuthor(posts, uid);
      && (forall k :: k in r ==> r[k].author != Some(uid))
      && (forall k :: k in posts && posts[k].author != Some(uid) ==> k in r && r[k] == posts[k])
      && (forall k :: k in r ==> k in posts)
      && (PostsWellFormed(posts) ==> PostsWellFormed(r))
  {
  }

  /** After an account is deleted its owner listing is empty. */
  lemma DeletionEmptiesOwnerListing(posts: map<PostId, Post>, uid: UserId)
    requires forall k :: k in posts ==> posts[k].id == k
    ensures OwnerListing(WithoutAuthor(posts, uid), uid) == []
  {
    var after := WithoutAuthor(posts, uid);
    assert forall k :: k in after ==> !Meets(after[k], ByAuthor(uid));
    assert MatchingIds(after, ByAuthor(uid)) == [];
  }

  /** Deleting an account leaves every other user's listing with the same posts. */
  lemma DeletionKeepsOtherListings(posts: map<PostId, Post>, uid: UserId, other: UserId)
    requires forall k :: k in posts ==> posts[k].id == k
    requires other != uid
    ensures forall p :: p in OwnerListing(WithoutAuthor(posts, uid), other) <==> p in OwnerListing(posts, other)
  {
    var after := WithoutAuthor(posts, uid);
    OwnerListingExact(after, other);
    OwnerListingExact(posts, other);
    forall p | p in posts.Values && p.author == Some(other) ensures p in after.Values {
      var k :| k in posts && posts[k] == p;
      assert after[k] == p;
    }
  }

  const RegisteredMessage := "Account created successfully"
  const LoginFieldsMessage := "Every field is required"
  const UnknownEmailMessage := "Incorrect email"
  const BadCredentialsMessage := "Invalid credentials"
  const EmailRequiredMessage := "Email is required"
  const UserNotFoundMessage := "User not found"
  const ProfileNotFoundMessage := "Profile not found"
  const ProfileUpdatedMessage := "Profile updated successfully"
  const DeleteEmailRequiredMessage := "Email is required."
  const DeleteUserNotFoundMessage := "User not found."
  const ListingUserNotFoundMessage := "User not found."
  const UserDeletedMessage := "User, profile image, and blogs deleted successfully."
  const PostFieldsMessage := "Category, title, and content (description) are required."
  const AuthorNotFoundMessage := "Author not found"
  const AuthorMissingMessage := "Author information is missing"
  const PostSavedMessage := "Blog saved successfully"
  const PostSaveFailedMessage := "Failed to save blog"
  const ListingEmailMessage := "User email is required to fetch blogs."
  const BlogNotFoundMessage := "Blog not found"
  const BlogDeletedMessage := "Blog and image deleted successfully"
  const PostNotFoundMessage := "Post not found"

  class Store {
    var users: map<UserId, User>
    var posts: map<PostId, Post>
    var unlinks: seq<Unlink>

    /** The two collections satisfy their schemas and unique indexes. */
    ghost predicate Valid()
      reads this
    {
      UsersWellFormed(users) && PostsWellFormed(posts)
    }

    constructor ()
      ensures Valid()
      ensures users == map[] && posts == map[] && unlinks == []
    {
      users := map[];
      posts := map[];
      unlinks := [];
    }

    /** `register` (POST /register): the validation chain, then `User.create` with the
        hashed password. `newId` and `salt` are the fresh ObjectId and bcrypt salt. */
    method Register(firstName: Option<string>, lastName: Option<string>, email: Option<string>,
                    password: Option<string>, newId: UserId, salt: nat, now: int)
      returns (reply: Reply<string>)
      requires Valid() && newId !in users
      modifies this
      ensures Valid()
      ensures posts == old(posts) && unlinks == old(unlinks)
      ensures var err := RegisterError(firstName, lastName, email, password, old(users));
        && (err.Some? ==> reply == Err(400, err.value) && users == old(users))
        && (err.None? ==>
              && reply == Ok(201, RegisteredMessage)
              && users == old(users)[newId := NewUser(newId, firstName.value, lastName.value,
                                                      email.value, Hash(password.value, salt), now)]
              && Compare(password.value, users[newId].password)
              && |users| == |old(users)| + 1)
    {
      var err := RegisterError(firstName, lastName, email, password, users);
      if err.Some? {
        return Err(400, err.value);
      }
      var u := NewUser(newId, firstName.value, lastName.value, email.value, Hash(password.value, salt), now);
      InsertKeepsWellFormed(users, u);
      users := users[newId := u];
      return Ok(201, RegisteredMessage);
    }

    /** `login` (POST /login): the stored user and a session cookie for exactly the
        right address and password; no cookie on any error. */
    method Login(email: Option<string>, password: Option<string>)
      returns (reply: Reply<Saved<User>>, cookie: Option<Cookie>)
      requires Valid()
      ensures reply.Err? ==> cookie == None
      ensures !JsText.Truthy(email) || !JsText.Truthy(password) ==> reply == Err(400, LoginFieldsMessage)
      ensures JsText.Truthy(email) && JsText.Truthy(password)
              && (forall id :: id in users ==> users[id].email != email.value)
              ==> reply == Err(400, UnknownEmailMessage)
      ensures forall id ::
                (JsText.Truthy(email) && JsText.Truthy(password) && id in users
                 && users[id].email == email.value && !Compare(password.value, users[id].password))
                ==> reply == Err(400, BadCredentialsMessage)
      ensures reply.Ok? ==>
                && JsText.Truthy(email) && JsText.Truthy(password)
                && reply.status == 200
                && reply.body.doc.id in users && users[reply.body.doc.id] == reply.body.doc
                && reply.body.doc.email == email.value
                && Compare(password.value, reply.body.doc.password)
                && reply.body.message == "Welcome back " + reply.body.doc.firstName
                && cookie == Some(SessionCookie(reply.body.doc.id))
      ensures forall id ::
                (JsText.Truthy(email) && JsText.Truthy(password) && id in users
                 && users[id].email == email.value && Compare(password.value, users[id].password))
                ==> reply == Ok(200, Saved("Welcome back " + users[id].firstName, users[id]))
                    && cookie == Some(SessionCookie(id))
    {
      if !JsText.Truthy(email) || !JsText.Truthy(password) {
        return Err(400, LoginFieldsMessage), None;
      }
      var found := FindByEmail(users, email.value);
      if found.None? {
        return Err(400, UnknownEmailMessage), None;
      }
      var user := users[found.value];
      if !Compare(password.value, user.password) {
        return Err(400, BadCredentialsMessage), None;
      }
      return Ok(200, Saved("Welcome back " + user.firstName, user)), Some(SessionCookie(user.id));
    }

    /** `profile` (GET /profile/:email): the stored document with exactly that address. */
    method Profile(email: string) returns (reply: Reply<User>)
      requires Valid()
      ensures email == "" ==> reply == Err(400, EmailRequiredMessage)
      ensures email != "" && (forall id :: id in users ==> users[id].email != email)
              ==> reply == Err(404, UserNotFoundMessage)
      ensures forall id :: (email != "" && id in users && users[id].email == email) ==> reply == Ok(200, users[id])
    {
      if email == "" {
        return Err(400, EmailRequiredMessage);
      }
      var found := FindByEmail(users, email);
      if found.None? {
        return Err(404, UserNotFoundMessage);
      }
      return Ok(200, users[found.value]);
    }

    /** `editProfile` (PUT /profile/edit/:email): assigns the photo path and the eight
        text fields one after another on the loaded document, then saves it. */
    method EditProfile(email: string, form: ProfileForm, photo: Option<string>, now: int)
      returns (reply: Reply<Saved<User>>)
      requires Valid()
      modifies this
      ensures Valid()
      ensures posts == old(posts) && unlinks == old(unlinks)
      ensures email == "" ==> reply == Err(400, EmailRequiredMessage) && users == old(users)
      ensures email != "" && (forall id :: id in old(users) ==> old(users)[id].email != email)
              ==> reply == Err(404, ProfileNotFoundMessage) && users == old(users)
      ensures forall id :: email != "" && id in old(users) && old(users)[id].email == email ==>
                && users == old(users)[id := EditedProfile(old(users)[id], form, photo, now)]
                && reply == Ok(200, Saved(ProfileUpdatedMessage, users[id]))
    {
      if email == "" {
        return Err(400, EmailRequiredMessage);
      }
      var found := FindByEmail(users, email);
      if found.None? {
        return Err(404, ProfileNotFoundMessage);
      }
      var id := found.value;
      var before := users[id];
      var p := before;
      if photo.Some? {
        p := p.(profilePhoto := ProfilePhotoPath(photo.value));
      }
      p := p.(firstName := JsText.OrElse(form.firstName, p.firstName));
      p := p.(lastName := JsText.OrElse(form.lastName, p.lastName));
      p := p.(bio := JsText.OrElse(form.bio, p.bio));
      p := p.(qualification := JsText.OrElse(form.qualification, p.qualification));
      p := p.(linkedin := JsText.OrElse(form.linkedin, p.linkedin));
      p := p.(github := JsText.OrElse(form.github, p.github));
      p := p.(instagram := JsText.OrElse(form.instagram, p.instagram));
      p := p.(facebook := JsText.OrElse(form.facebook, p.facebook));
      if p != before {
        p := p.(updatedAt := now);
      }
      assert p == EditedProfile(before, form, photo, now);
      EditedProfileFields(before, form, photo, now);
      users := users[id := p];
      return Ok(200, Saved(ProfileUpdatedMessage, p));
    }

    /** `deleteUser` (DELETE /delete): unlinks the profile photo and each post image of
        the user (a failed unlink is only logged), then deletes the user's posts and the
        user. `failing` says which unlinks fail. */
    method DeleteUser(email: Option<string>, failing: set<string>) returns (reply: Reply<string>)
      requires Valid()
      modifies this
      ensures Valid()
      ensures !JsText.Truthy(email) ==>
                reply == Err(400, DeleteEmailRequiredMessage) && unchanged(this)
      ensures JsText.Truthy(email) && (forall id :: id in old(users) ==> old(users)[id].email != email.value)
              ==> reply == Err(404, DeleteUserNotFoundMessage) && unchanged(this)
      ensures forall uid :: JsText.Truthy(email) && uid in old(users) && old(users)[uid].email == email.value ==>
                && reply == Ok(200, UserDeletedMessage)
                && users == old(users) - {uid}
                && posts == WithoutAuthor(old(posts), uid)
                && unlinks == old(unlinks) + ProfileUnlinks(old(users)[uid], failing)
                                         + ImageUnlinks(old(posts), AuthoredIds(old(posts), uid), failing)
    {
      if !JsText.Truthy(email) {
        return Err(400, DeleteEmailRequiredMessage);
      }
      var found := FindByEmail(users, email.value);
      if found.None? {
        return Err(404, DeleteUserNotFoundMessage);
      }
      var uid := found.value;
      var user := users[uid];
      if user.profilePhoto != "" {
        unlinks := unlinks + [Attempt(user.profilePhoto, failing)];
      }
      assert unlinks == old(unlinks) + ProfileUnlinks(user, failing);
      UnlinkImages(AuthoredIds(posts, uid), failing);
      assert forall other :: other in users && users[other].email == email.value ==> other == uid;
      RemoveKeepsWellFormed(users, uid);
      WithoutAuthorKeepsOthers(posts, uid);
      posts := WithoutAuthor(posts, uid);
      users := users - {uid};
      return Ok(200, UserDeletedMessage);
    }

    /** The loop of `deleteUser` over the user's posts: one unlink per set image. */
    method UnlinkImages(ids: seq<PostId>, failing: set<string>)
      requires forall k :: k in ids ==> k in posts
      modifies this
      ensures users == old(users) && posts == old(posts)
      ensures unlinks == old(unlinks) + ImageUnlinks(posts, ids, failing)
    {
      var i := 0;
      while i < |ids|
        invariant 0 <= i <= |ids|
        invariant users == old(users) && posts == old(posts)
        invariant unlinks == old(unlinks) + ImageUnlinks(posts, ids[..i], failing)
      {
        var blog := posts[ids[i]];
        assert ids[..i + 1][..i] == ids[..i];
        if blog.image != "" {
          unlinks := unlinks + [Attempt(blog.image, failing)];
        }
        i := i + 1;
      }
      assert ids[..i] == ids;
    }

    /** `post_blog` (POST /post_blog): required fields, then tag decoding (an array makes
        `split` throw: 500), then author resolution (the session user, else a lookup of
        the author address), then `save`, which fails with 500 when the trimmed title is
        empty or the lower-cased slug is taken. `slug` is what `slugify` made of the title. */
    method PostBlog(form: PostForm, sessionUser: Option<UserId>, file: Option<string>,
                    slug: string, newId: PostId, now: int)
      returns (reply: Reply<Saved<Post>>)
      requires Valid() && newId !in posts
      modifies this
      ensures Valid()
      ensures users == old(users) && unlinks == old(unlinks)
      ensures reply.Err? ==> posts == old(posts)
      ensures !HasRequiredFields(form) ==> reply == Err(400, PostFieldsMessage)
      ensures HasRequiredFields(form) && form.tags.TagArray? ==> reply == Err(500, PostSaveFailedMessage)
      ensures HasRequiredFields(form) && !form.tags.TagArray? && sessionUser.None? ==>
                && (!JsText.Truthy(form.author) ==> reply == Err(400, AuthorMissingMessage))
                && ((JsText.Truthy(form.author) && forall id :: id in users ==> users[id].email != form.author.value)
                    ==> reply == Err(400, AuthorNotFoundMessage))
      ensures reply.Ok? ==>
                && HasRequiredFields(form) && PostTags(form.tags).Some?
                && reply.status == 201 && reply.body.message == PostSavedMessage
                && reply.body.doc.author.Some?
                && (sessionUser.Some? ==> reply.body.doc.author == sessionUser)
                && (sessionUser.None? ==>
                      reply.body.doc.author.value in users && users[reply.body.doc.author.value].email == form.author.value)
                && reply.body.doc == NewBlog(form, PostTags(form.tags).value, reply.body.doc.author.value,
                                             file, slug, newId, now)
                && posts == old(posts)[newId := reply.body.doc]
      ensures HasRequiredFields(form) && PostTags(form.tags).Some?
              && (sessionUser.Some? || (JsText.Truthy(form.author) && exists id :: id in users && users[id].email == form.author.value))
              ==> (reply.Ok? <==> JsText.Trim(form.title.value) != "" && !SlugTaken(old(posts), JsText.Lower(slug)))
      ensures HasRequiredFields(form) && PostTags(form.tags).Some?
              && (sessionUser.Some? || (JsText.Truthy(form.author) && exists id :: id in users && users[id].email == form.author.value))
              && (JsText.Trim(form.title.value) == "" || SlugTaken(old(posts), JsText.Lower(slug)))
              ==> reply == Err(500, PostSaveFailedMessage)
    {
      if !HasRequiredFields(form) {
        return Err(400, PostFieldsMessage);
      }
      var tags := PostTags(form.tags);
      if tags.None? {
        return Err(500, PostSaveFailedMessage);
      }
      var authorId: UserId;
      if sessionUser.Some? {
        authorId := sessionUser.value;
      } else if JsText.Truthy(form.author) {
        var found := FindByEmail(users, form.author.value);
        if found.None? {
          return Err(400, AuthorNotFoundMessage);
        }
        authorId := found.value;
      } else {
        return Err(400, AuthorMissingMessage);
      }
      var blog := NewBlog(form, tags.value, authorId, file, slug, newId, now);
      NewBlogFields(form, tags.value, authorId, file, slug, newId, now);
      if blog.title == "" || SlugTaken(posts, blog.slug) {
        return Err(500, PostSaveFailedMessage);
      }
      posts := posts[newId := blog];
      return Ok(201, Saved(PostSavedMessage, blog));
    }

    /** `all_blogs` (GET /all_blogs): the address from the query string, else from the
        `x-user-email` header; then every post of that user, drafts included, newest first. */
    method AllBlogs(queryEmail: Option<string>, headerEmail: Option<string>)
      returns (reply: Reply<seq<Post>>)
      requires Valid()
      ensures var e := if JsText.Truthy(queryEmail) then queryEmail else headerEmail;
        && (!JsText.Truthy(e) ==> reply == Err(400, ListingEmailMessage))
        && ((JsText.Truthy(e) && forall id :: id in users ==> users[id].email != e.value)
            ==> reply == Err(404, ListingUserNotFoundMessage))
        && forall uid :: JsText.Truthy(e) && uid in users && users[uid].email == e.value ==>
             && reply.Ok? && reply.status == 200
             && (forall p :: p in reply.body <==> p in posts.Values && p.author == Some(uid))
             && (forall i, j :: 0 <= i < j < |reply.body| ==> reply.body[i].id != reply.body[j].id)
             && (forall i, j :: 0 <= i < j < |reply.body| ==> reply.body[i].createdAt >= reply.body[j].createdAt)
    {
      var e := if JsText.Truthy(queryEmail) then queryEmail else headerEmail;
      if !JsText.Truthy(e) {
        return Err(400, ListingEmailMessage);
      }
      var found := FindByEmail(users, e.value);
      if found.None? {
        return Err(404, ListingUserNotFoundMessage);
      }
      OwnerListingExact(posts, found.value);
      OwnerListingOrdered(posts, found.value);
      return Ok(200, OwnerListing(posts, found.value));
    }

    /** `edit_blog` (PUT /posts/:id): builds `updatedData`, deletes its undefined
        properties, then `findByIdAndUpdate`. */
    method EditBlog(id: PostId, form: EditForm, file: Option<string>, now: int)
      returns (reply: Reply<Post>)
      requires Valid()
      modifies this
      ensures Valid()
      ensures users == old(users) && unlinks == old(unlinks)
      ensures id !in old(posts) ==> reply == Err(404, BlogNotFoundMessage) && posts == old(posts)
      ensures id in old(posts) ==>
                && posts == old(posts)[id := EditedPost(old(posts)[id], form, file, now)]
                && reply == Ok(200, posts[id])
    {
      var data := UpdatedData(form, file);
      UpdateKeysListKeys(form, file);
      var update := StripUndefined(data, UpdateKeys(file));
      if id !in posts {
        return Err(404, BlogNotFoundMessage);
      }
      var updated := ApplyUpdate(posts[id], update, now);
      EditedPostKeeps(posts[id], form, file, now);
      ReplaceKeepsWellFormed(posts, updated);
      posts := posts[id := updated];
      return Ok(200, updated);
    }

    /** `single_blog` (GET /posts/:id). */
    method SingleBlog(id: PostId) returns (reply: Reply<Post>)
      ensures id !in posts ==> reply == Err(404, BlogNotFoundMessage)
      ensures id in posts ==> reply == Ok(200, posts[id])
    {
      if id !in posts {
        return Err(404, BlogNotFoundMessage);
      }
      return Ok(200, posts[id]);
    }

    /** `read_blog` (GET /readposts/:id). */
    method ReadBlog(id: PostId) returns (reply: Reply<Post>)
      ensures id !in posts ==> reply == Err(404, PostNotFoundMessage)
      ensures id in posts ==> reply == Ok(200, posts[id])
    {
      if id !in posts {
        return Err(404, PostNotFoundMessage);
      }
      return Ok(200, posts[id]);
    }

    /** `delete_blog` (DELETE /posts/:id): one unlink attempt if the post has an image,
        then the post is removed whatever the unlink does. */
    method DeleteBlog(id: PostId, failing: set<string>) returns (reply: Reply<string>)
      requires Valid()
      modifies this
      ensures Valid()
      ensures users == old(users)
      ensures id !in old(posts) ==> reply == Err(404, BlogNotFoundMessage) && unchanged(this)
      ensures id in old(posts) ==>
                && reply == Ok(200, BlogDeletedMessage)
                && posts == old(posts) - {id}
                && unlinks == old(unlinks) + (if old(posts)[id].image != "" then [Attempt(old(posts)[id].image, failing)] else [])
    {
      if id !in posts {
        return Err(404, BlogNotFoundMessage);
      }
      var blog := posts[id];
      if blog.image != "" {
        unlinks := unlinks + [Attempt(blog.image, failing)];
      }
      posts := posts - {id};
      return Ok(200, BlogDeletedMessage);
    }

    /** `publicBlog` (GET /publicBlog): the published posts, newest first, each author
        reduced to first and last name. */
    method PublicBlog() returns (reply: Reply<seq<PublicPost>>)
      requires Valid()
      ensures reply.Ok? && reply.status == 200
      ensures forall i :: 0 <= i < |reply.body| ==> reply.body[i].post in posts.Values && reply.body[i].post.published
      ensures forall i :: 0 <= i < |reply.body| ==> reply.body[i] == Project(reply.body[i].post, users)
      ensures forall k :: k in posts && posts[k].published ==>
                exists i :: 0 <= i < |reply.body| && reply.body[i].post == posts[k]
      ensures forall i, j :: 0 <= i < j < |reply.body| ==> reply.body[i].post.id != reply.body[j].post.id
      ensures forall i, j :: 0 <= i < j < |reply.body| ==> reply.body[i].post.createdAt >= reply.body[j].post.createdAt
    {
      var listing := PublicListing(posts, users);
      PublicListingSound(posts, users);
      forall k | k in posts && posts[k].published
        ensures exists i :: 0 <= i < |listing| && listing[i].post == posts[k]
      {
        PublicListingComplete(posts, users, k);
      }
      return Ok(200, listing);
    }

    /** `publicBlogRead` (GET /public_read_more/:id): any stored post, published or not,
        with its author projected. */
    method PublicBlogRead(id: PostId) returns (reply: Reply<PublicPost>)
      ensures id !in posts ==> reply == Err(404, PostNotFoundMessage)
      ensures id in posts ==> reply == Ok(200, Project(posts[id], users))
    {
      if id !in posts {
        return Err(404, PostNotFoundMessage);
      }
      return Ok(200, Project(posts[id], users));
    }
  }
}
