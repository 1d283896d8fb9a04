/** The Blog schema: the stored post document, its defaults, and the constraints on
    the `posts` collection (unique, lower-case slugs). */
module BlogModel {
  import opened Wrappers
  import JsText
  import opened UserModel

  type PostId = nat

  /** An embedded comment: present in the schema, exposed by no handler. */
  datatype Comment = Comment(user: Option<UserId>, comment: string, createdAt: int)

  /** A post document. `author` is an optional reference to a user; `createdAt` and
      `updatedAt` are the schema's timestamps. */
  datatype Post = Post(
    id: PostId,
    title: string,
    slug: string,
    category: string,
    image: string,
    description: string,
    tags: seq<string>,
    author: Option<UserId>,
    likes: int,
    dislikes: int,
    views: int,
    comments: seq<Comment>,
    published: bool,
    publishedAt: Option<int>,
    createdAt: int,
    updatedAt: int)

  /** A new document built from the required fields only: the title goes through the
      schema's `trim` and the slug through its `lowercase`; every other path takes its
      default (`''` image, `[]` tags and comments, counters 0, unpublished, no author). */
  function Draft(id: PostId, title: string, slug: string, category: string,
                 description: string, now: int): (p: Post)
    ensures p.id == id && p.category == category && p.description == description
    ensures p.title == JsText.Trim(title) && p.slug == JsText.Lower(slug)
    ensures p.image == "" && p.tags == [] && p.comments == []
    ensures p.likes == p.dislikes == p.views == 0
    ensures !p.published && p.publishedAt == None && p.author == None
    ensures p.createdAt == p.updatedAt == now
    ensures JsText.IsTrimmed(p.title) && JsText.IsLower(p.slug)
  {
    JsText.TrimSpec(title);
    JsText.LowerIsLower(slug);
    Post(id, JsText.Trim(title), JsText.Lower(slug), category, "", description, [], None,
         0, 0, 0, [], false, None, now, now)
  }

  /** The unique index on `slug`. */
  predicate SlugsUnique(posts: map<PostId, Post>) {
    forall a, b :: a in posts && b in posts && posts[a].slug == posts[b].slug ==> a == b
  }

  /** The `posts` collection as the schema constrains it. */
  predicate PostsWellFormed(posts: map<PostId, Post>) {
    && (forall id :: id in posts ==> posts[id].id == id && JsText.IsLower(posts[id].slug))
    && SlugsUnique(posts)
  }

  /** Some stored post already has this slug. */
  predicate SlugTaken(posts: map<PostId, Post>, slug: string) {
    exists id :: id in posts && posts[id].slug == slug
  }

  /** Replacing a post by one with the same id and slug keeps the collection well formed. */
  lemma ReplaceKeepsWellFormed(posts: map<PostId, Post>, q: Post)
    requires PostsWellFormed(posts) && q.id in posts && posts[q.id].slug == q.slug
    ensures PostsWellFormed(posts[q.id := q])
  {
  }
}
